/** The graphs that the constructors of src/nfa.c build, as values: nodes are addresses, runs are
    node sequences, and each constructor is a function on graphs whose effect on the accepted
    words is proved here. */
module NfaGraph {
  import opened Bytes
  import opened Regex

  type Node = nat

  /** What a node does. Only a Match consumes input. */
  datatype Inst =
    | Accept
    | Epsilon(out: Node)
    | Split(out1: Node, out2: Node)
    | Tree(branches: seq<Node>)
    | Match(lab: Label, out: Node)

  type Graph = map<Node, Inst>

  ghost function Outs(i: Inst): set<Node> {
    match i
    case Accept => {}
    case Epsilon(out) => {out}
    case Split(out1, out2) => {out1, out2}
    case Tree(branches) => set b | b in branches
    case Match(_, out) => {out}
  }

  ghost predicate Silent(g: Graph, a: Node, b: Node) {
    a in g && !g[a].Match? && b in Outs(g[a])
  }

  ghost predicate Consumes(g: Graph, a: Node, c: Byte, b: Node) {
    a in g && g[a].Match? && g[a].lab.Accepts(c) && b == g[a].out
  }

  /** p is a path that reads w. */
  ghost predicate Run(g: Graph, p: seq<Node>, w: Word) {
    p != [] &&
    if |p| == 1 then w == []
    else || (Silent(g, p[0], p[1]) && Run(g, p[1..], w))
         || (w != [] && Consumes(g, p[0], w[0], p[1]) && Run(g, p[1..], w[1..]))
  }

  ghost predicate RunFrom(g: Graph, s: Node, t: Node, p: seq<Node>, w: Word) {
    Run(g, p, w) && p[0] == s && p[|p| - 1] == t
  }

  /** Some path from s to t reads w. */
  ghost predicate Reads(g: Graph, s: Node, t: Node, w: Word) { exists p :: RunFrom(g, s, t, p, w) }

  ghost predicate Closed(g: Graph) { forall a :: a in g ==> Outs(g[a]) <= g.Keys }

  /** A fragment under construction: one entry that nothing points at, one accepting exit. */
  ghost predicate Fragment(g: Graph, s: Node, t: Node) {
    && s in g && t in g && s != t && g[t] == Accept && Closed(g)
    && (forall a :: a in g ==> s !in Outs(g[a]))
    && (forall a :: a in g && g[a] == Accept ==> a == t)
  }

  // ---------------------------------------------------------------- runs

  lemma {:induction false} Join(g: Graph, p: seq<Node>, u: Word, q: seq<Node>, v: Word)
    requires Run(g, p, u) && Run(g, q, v) && p[|p| - 1] == q[0]
    ensures Run(g, p + q[1..], u + v)
    ensures (p + q[1..])[0] == p[0] && (p + q[1..])[|p + q[1..]| - 1] == q[|q| - 1]
    decreases |p|
  {
    if |p| == 1 {
      assert p + q[1..] == q && u + v == v;
    } else {
      assert (p + q[1..])[1..] == p[1..] + q[1..];
      if Silent(g, p[0], p[1]) && Run(g, p[1..], u) {
        Join(g, p[1..], u, q, v);
      } else {
        assert (u + v)[1..] == u[1..] + v;
        Join(g, p[1..], u[1..], q, v);
      }
    }
  }

  lemma ReadsJoin(g: Graph, a: Node, b: Node, c: Node, u: Word, v: Word)
    requires Reads(g, a, b, u) && Reads(g, b, c, v)
    ensures Reads(g, a, c, u + v)
  {
    var p :| RunFrom(g, a, b, p, u);
    var q :| RunFrom(g, b, c, q, v);
    Join(g, p, u, q, v);
    assert RunFrom(g, a, c, p + q[1..], u + v);
  }

  lemma SilentReads(g: Graph, a: Node, b: Node)
    requires Silent(g, a, b)
    ensures Reads(g, a, b, [])
  {
    assert Run(g, [a, b][1..], []);
    assert RunFrom(g, a, b, [a, b], []);
  }

  /** A silent first step. */
  lemma SilentThen(g: Graph, a: Node, b: Node, c: Node, w: Word)
    requires Silent(g, a, b) && Reads(g, b, c, w)
    ensures Reads(g, a, c, w)
  {
    SilentReads(g, a, b);
    ReadsJoin(g, a, b, c, [], w);
    assert [] + w == w;
  }

  /** The graphs agree on a set of nodes that no edge leaves. */
  ghost predicate Confined(g: Graph, h: Graph, d: set<Node>) {
    forall a :: a in d ==> a in g && a in h && g[a] == h[a] && Outs(g[a]) <= d
  }

  lemma {:induction false} SameRuns(g: Graph, h: Graph, d: set<Node>, p: seq<Node>, w: Word)
    requires Confined(g, h, d) && p != [] && p[0] in d
    ensures Run(g, p, w) <==> Run(h, p, w)
    ensures Run(g, p, w) ==> p[|p| - 1] in d
    decreases |p|
  {
    if |p| > 1 && p[1] in d {
      SameRuns(g, h, d, p[1..], w);
      if w != [] { SameRuns(g, h, d, p[1..], w[1..]); }
    }
  }

  lemma SameReads(g: Graph, h: Graph, d: set<Node>, s: Node, t: Node, w: Word)
    requires Confined(g, h, d) && s in d
    ensures Reads(g, s, t, w) <==> Reads(h, s, t, w)
    ensures Reads(g, s, t, w) ==> t in d
  {
    forall p | p != [] && p[0] == s ensures Run(g, p, w) <==> Run(h, p, w) {
      SameRuns(g, h, d, p, w);
    }
    if Reads(g, s, t, w) {
      var p :| RunFrom(g, s, t, p, w);
      SameRuns(g, h, d, p, w);
      assert RunFrom(h, s, t, p, w);
    } else if Reads(h, s, t, w) {
      var p :| RunFrom(h, s, t, p, w);
      assert RunFrom(g, s, t, p, w);
    }
  }

  /** h keeps every node of g except its exit t. */
  ghost predicate Extends(g: Graph, h: Graph, t: Node) {
    forall a :: a in g && a != t ==> a in h && h[a] == g[a]
  }

  /** A run of g to its exit is a run of the extended graph. */
  lemma {:induction false} Lift(g: Graph, h: Graph, t: Node, p: seq<Node>, w: Word)
    requires Extends(g, h, t) && t in g && g[t] == Accept
    requires Run(g, p, w) && p[|p| - 1] == t
    ensures Run(h, p, w)
    decreases |p|
  {
    if |p| > 1 {
      if Silent(g, p[0], p[1]) && Run(g, p[1..], w) {
        Lift(g, h, t, p[1..], w);
      } else {
        Lift(g, h, t, p[1..], w[1..]);
      }
    }
  }

  lemma LiftReads(g: Graph, h: Graph, s: Node, t: Node, w: Word)
    requires Extends(g, h, t) && t in g && g[t] == Accept && Reads(g, s, t, w)
    ensures Reads(h, s, t, w)
  {
    var p :| RunFrom(g, s, t, p, w);
    Lift(g, h, t, p, w);
    assert RunFrom(h, s, t, p, w);
  }

  /** A run of the extended graph that leaves g does so through its exit: up to there it is a run
      of g. */
  lemma {:induction false} Exit(g: Graph, h: Graph, t: Node, p: seq<Node>, w: Word) returns (i: nat, k: nat)
    requires Extends(g, h, t) && Closed(g) && t in g
    requires Run(h, p, w) && p[0] in g && p[|p| - 1] !in g
    ensures i < |p| - 1 && k <= |w| && p[i] == t
    ensures Run(g, p[..i + 1], w[..k]) && Run(h, p[i..], w[k..])
    decreases |p|
  {
    if p[0] == t {
      i, k := 0, 0;
      assert p[..1] == [t] && p[0..] == p && w[0..] == w;
    } else if Silent(h, p[0], p[1]) && Run(h, p[1..], w) {
      i, k := Exit(g, h, t, p[1..], w);
      i := i + 1;
      assert p[..i + 1][1..] == p[1..][..i] && p[i..] == p[1..][i - 1..];
    } else {
      i, k := Exit(g, h, t, p[1..], w[1..]);
      i, k := i + 1, k + 1;
      assert p[..i + 1][1..] == p[1..][..i] && p[i..] == p[1..][i - 1..];
      assert w[..k][1..] == w[1..][..k - 1] && w[k..] == w[1..][k - 1..];
    }
  }

  lemma ExitReads(g: Graph, h: Graph, s: Node, t: Node, z: Node, w: Word) returns (k: nat)
    requires Extends(g, h, t) && Closed(g) && t in g && s in g && z !in g && Reads(h, s, z, w)
    ensures k <= |w| && Reads(g, s, t, w[..k]) && Reads(h, t, z, w[k..])
  {
    var p :| RunFrom(h, s, z, p, w);
    var i: nat;
    i, k := Exit(g, h, t, p, w);
    assert RunFrom(g, s, t, p[..i + 1], w[..k]);
    assert RunFrom(h, t, z, p[i..], w[k..]);
  }

  /** The first step of a run between different nodes that does not start at a Match. */
  lemma FirstSilent(g: Graph, s: Node, z: Node, w: Word) returns (b: Node)
    requires Reads(g, s, z, w) && s != z && s in g && !g[s].Match?
    ensures b in Outs(g[s]) && Reads(g, b, z, w)
  {
    var p :| RunFrom(g, s, z, p, w);
    b := p[1];
    assert RunFrom(g, b, z, p[1..], w);
  }
}
