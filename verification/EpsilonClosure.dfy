/** The nodes that do not act silently and can be reached silently: what the depth-first search of
    src/compile.c collects, and how its path marking cuts loops without losing any. */
module EpsilonClosure {
  import opened NfaGraph
  import opened NfaConstruct

  /** A node that consumes input or accepts. */
  ghost predicate Stops(g: Graph, a: Node) { a in g && (g[a].Match? || g[a] == Accept) }

  /** A node that the search marks: one with several ways on. */
  ghost predicate Forks(g: Graph, a: Node) { a in g && (g[a].Split? || g[a].Tree?) }

  /** A silent path that meets no node of m and ends at a stop. */
  ghost predicate Path(g: Graph, p: seq<Node>, m: set<Node>) {
    p != [] && p[0] !in m && p[0] in g
    && if |p| == 1 then Stops(g, p[0]) else Silent(g, p[0], p[1]) && Path(g, p[1..], m)
  }

  ghost predicate Leads(g: Graph, v: Node, x: Node, m: set<Node>) {
    exists p :: Path(g, p, m) && p[0] == v && p[|p| - 1] == x
  }

  /** The stops reached from v by silent paths that avoid m. */
  ghost function Closure(g: Graph, v: Node, m: set<Node>): set<Node> {
    set x | x in g && Leads(g, v, x, m)
  }

  lemma {:induction false} PathEnds(g: Graph, p: seq<Node>, m: set<Node>)
    requires Path(g, p, m)
    ensures Stops(g, p[|p| - 1])
    decreases |p|
  {
    if |p| > 1 { PathEnds(g, p[1..], m); }
  }

  lemma ClosureStops(g: Graph, v: Node, m: set<Node>)
    ensures forall x :: x in Closure(g, v, m) ==> Stops(g, x)
  {
    forall x | x in Closure(g, v, m) ensures Stops(g, x) {
      var p :| Path(g, p, m) && p[0] == v && p[|p| - 1] == x;
      PathEnds(g, p, m);
    }
  }

  /** At a stop the search ends. */
  lemma ClosureAtStop(g: Graph, v: Node, m: set<Node>)
    requires Stops(g, v) && v !in m
    ensures Closure(g, v, m) == {v}
  {
    assert Path(g, [v], m);
    forall x | x in Closure(g, v, m) ensures x == v {
      var p :| Path(g, p, m) && p[0] == v && p[|p| - 1] == x;
      assert |p| == 1;
    }
  }

  lemma ClosureMarked(g: Graph, v: Node, m: set<Node>)
    requires v in m
    ensures Closure(g, v, m) == {}
  {
  }

  /** An epsilon node passes the search on. */
  lemma ClosureAtEpsilon(g: Graph, v: Node, m: set<Node>)
    requires v in g && g[v].Epsilon? && v !in m
    ensures Closure(g, v, m) == Closure(g, g[v].out, m)
  {
    var b := g[v].out;
    forall x ensures Leads(g, v, x, m) <==> Leads(g, b, x, m) {
      if Leads(g, v, x, m) {
        var p :| Path(g, p, m) && p[0] == v && p[|p| - 1] == x;
        assert Path(g, p[1..], m) && p[1..][0] == b;
      }
      if Leads(g, b, x, m) {
        var p :| Path(g, p, m) && p[0] == b && p[|p| - 1] == x;
        assert ([v] + p)[1..] == p;
        assert Path(g, [v] + p, m);
      }
    }
  }

  lemma {:induction false} Weaker(g: Graph, p: seq<Node>, m: set<Node>, n: set<Node>)
    requires Path(g, p, n) && m <= n
    ensures Path(g, p, m)
    decreases |p|
  {
    if |p| > 1 { Weaker(g, p[1..], m, n); }
  }

  /** A path that leaves v can be shortened to one that does not come back to v. */
  lemma {:induction false} CutLoop(g: Graph, p: seq<Node>, m: set<Node>, v: Node) returns (q: seq<Node>)
    requires Path(g, p, m) && v in g && !Stops(g, v)
    ensures q != [] && q[|q| - 1] == p[|p| - 1]
    ensures Path(g, q, m + {v})
    ensures q[0] == p[0] || Silent(g, v, q[0])
    decreases |p|
  {
    if |p| == 1 {
      q := p;
    } else {
      var rest := CutLoop(g, p[1..], m, v);
      if p[0] == v || rest[0] != p[1] {
        q := rest;
      } else {
        q := [p[0]] + rest;
        assert q[1..] == rest;
      }
    }
  }

  /** At a fork the search goes on to each out node, with the fork marked. */
  lemma ClosureAtFork(g: Graph, v: Node, m: set<Node>, x: Node)
    requires Forks(g, v) && v !in m
    ensures Leads(g, v, x, m) <==> exists b :: b in Outs(g[v]) && Leads(g, b, x, m + {v})
  {
    if Leads(g, v, x, m) {
      var p :| Path(g, p, m) && p[0] == v && p[|p| - 1] == x;
      var q := CutLoop(g, p[1..], m, v);
      assert Silent(g, v, q[0]);
      assert Leads(g, q[0], x, m + {v});
    }
    if b :| b in Outs(g[v]) && Leads(g, b, x, m + {v}) {
      var p :| Path(g, p, m + {v}) && p[0] == b && p[|p| - 1] == x;
      Weaker(g, p, m, m + {v});
      assert ([v] + p)[1..] == p;
      assert Path(g, [v] + p, m);
    }
  }

  lemma ClosureAtSplit(g: Graph, v: Node, m: set<Node>)
    requires v in g && g[v].Split? && v !in m
    ensures Closure(g, v, m) == Closure(g, g[v].out1, m + {v}) + Closure(g, g[v].out2, m + {v})
  {
    forall x | x in g
      ensures Leads(g, v, x, m) <==> Leads(g, g[v].out1, x, m + {v}) || Leads(g, g[v].out2, x, m + {v})
    {
      ClosureAtFork(g, v, m, x);
      assert Outs(g[v]) == {g[v].out1, g[v].out2};
    }
    hide Leads;
  }

  /** The closures of the branches. */
  ghost function Branches(g: Graph, bs: seq<Node>, m: set<Node>): set<Node> {
    set i, x | 0 <= i < |bs| && x in Closure(g, bs[i], m) :: x
  }

  lemma NoBranch(g: Graph, m: set<Node>)
    ensures Branches(g, [], m) == {}
  {
  }

  lemma NextBranch(g: Graph, bs: seq<Node>, b: Node, m: set<Node>)
    ensures Branches(g, bs + [b], m) == Branches(g, bs, m) + Closure(g, b, m)
  {
    hide Closure;
    var more := bs + [b];
    assert more[|bs|] == b && forall i :: 0 <= i < |bs| ==> more[i] == bs[i];
  }

  lemma ClosureAtTree(g: Graph, v: Node, m: set<Node>)
    requires v in g && g[v].Tree? && v !in m
    ensures Closure(g, v, m) == Branches(g, g[v].branches, m + {v})
  {
    var bs, n := g[v].branches, m + {v};
    forall x ensures x in Closure(g, v, m) <==> x in Branches(g, bs, n) {
      ClosureAtFork(g, v, m, x);
      hide Leads;
      if x in Closure(g, v, m) {
        var b :| b in Outs(g[v]) && Leads(g, b, x, n);
        var i :| 0 <= i < |bs| && bs[i] == b;
        assert x in Closure(g, bs[i], n);
      }
      if x in Branches(g, bs, n) {
        var i :| 0 <= i < |bs| && x in Closure(g, bs[i], n);
        assert bs[i] in Outs(g[v]);
      }
    }
  }

  lemma LongerPath(g: Graph, v: Node, b: Node, x: Node)
    requires Silent(g, v, b) && x in Closure(g, b, {})
    ensures x in Closure(g, v, {})
  {
    var p :| Path(g, p, {}) && p[0] == b && p[|p| - 1] == x;
    assert ([v] + p)[1..] == p;
    assert Path(g, [v] + p, {});
  }

  /** With a ranking, every node leads somewhere. */
  lemma {:induction false} ClosureNonempty(g: Graph, rank: Rank, v: Node) returns (x: Node)
    requires Ranked(g, rank) && Closed(g) && v in g
    ensures x in Closure(g, v, {})
    decreases rank[v]
  {
    hide Closure;
    if Stops(g, v) {
      ClosureAtStop(g, v, {});
      x := v;
    } else {
      assert Descends(g[v], rank, rank[v]);
      var b :| b in Outs(g[v]) && Below(rank, b, rank[v]);
      assert Silent(g, v, b) && Below(rank, b, rank[v]);
      x := ClosureNonempty(g, rank, b);
      LongerPath(g, v, b, x);
    }
  }
}
