/** The effect of each constructor of src/nfa.c on graphs: what it accepts, that it returns a
    fragment again, and a ranking that rules out silent dead ends and loops of epsilon nodes. */
module NfaConstruct {
  import opened Regex
  import opened BranchLists
  import opened KeptBranches
  import opened NfaGraph

  /** The fragment accepts exactly the words of r. */
  ghost predicate Accepts(g: Graph, s: Node, t: Node, r: Expr) {
    Fragment(g, s, t) && forall w :: Reads(g, s, t, w) <==> In(r, w)
  }

  /** From the node h to the exit z, exactly the words of e are read. */
  ghost predicate HeadReads(g: Graph, z: Node, h: Node, e: Expr) { forall w :: Reads(g, h, z, w) <==> In(e, w) }

  /** Lists of nodes and of what is read from them, alike down to their tails. */
  ghost predicate AlikeLists(g: Graph, z: Node, l: BranchList<Node>, m: BranchList<Expr>) {
    && |l.items| == |m.items| && l.size == m.size
    && (forall i :: 0 <= i < |l.items| ==> HeadReads(g, z, l.items[i], m.items[i]))
    && match l.tail
       case Last => m.tail.Last?
       case Freed => m.tail.Freed?
       case Behind(h) => m.tail.Behind? && HeadReads(g, z, h, m.tail.data)
  }

  ghost predicate Alike(g: Graph, z: Node, x: Fork<Node>, y: Shape) {
    match x
    case One(h) => y.One? && HeadReads(g, z, h, y.head)
    case Many(l) => y.Many? && AlikeLists(g, z, l, y.list)
  }

  // ---------------------------------------------------------------- ranking

  type Rank = map<Node, nat>

  ghost predicate Below(rank: Rank, b: Node, n: nat) { b in rank && rank[b] < n }

  /** A silent instruction has an out node of rank below n, and an epsilon's only one is. */
  ghost predicate Descends(i: Inst, rank: Rank, n: nat) {
    match i
    case Epsilon(out) => Below(rank, out, n)
    case Split(out1, out2) => Below(rank, out1, n) || Below(rank, out2, n)
    case Tree(branches) => exists b :: b in branches && Below(rank, b, n)
    case _ => true
  }

  /** Every silent node leads to one of smaller rank, so there is always a way to a node that is
      not silent, and epsilon nodes form no cycle. */
  ghost predicate Ranked(g: Graph, rank: Rank) {
    forall a :: a in g ==> a in rank && Descends(g[a], rank, rank[a])
  }

  lemma Shifted(i: Inst, r1: Rank, n: nat, r2: Rank, d: nat)
    requires Descends(i, r1, n) && forall b :: b in Outs(i) && b in r1 ==> b in r2 && r2[b] == r1[b] + d
    ensures Descends(i, r2, n + d)
  {
    if i.Tree? {
      var b :| b in i.branches && Below(r1, b, n);
      assert b in Outs(i) && Below(r2, b, n + d);
    }
  }

  /** The nodes of g keep their order. */
  ghost predicate Raised(g: Graph, r1: Rank, r2: Rank, d: nat) {
    forall a :: a in g ==> a in r1 && a in r2 && r2[a] == r1[a] + d
  }

  lemma RaisedDescends(g: Graph, r1: Rank, r2: Rank, d: nat, a: Node)
    requires Closed(g) && Ranked(g, r1) && Raised(g, r1, r2, d) && a in g
    ensures Descends(g[a], r2, r2[a])
  {
    Shifted(g[a], r1, r1[a], r2, d);
  }

  /** All ranks lie below this. */
  ghost function Top(rank: Rank): nat
    ensures forall a :: a in rank ==> rank[a] < Top(rank)
  {
    if rank == map[] then 0
    else
      var a :| a in rank;
      var rest := Top(rank - {a});
      assert forall b :: b in rank && b != a ==> b in rank - {a};
      if rank[a] < rest then rest else rank[a] + 1
  }

  /** There is a ranking. */
  ghost predicate Grounded(g: Graph) { exists rank :: Ranked(g, rank) }

  ghost function SomeRank(g: Graph): (rank: Rank)
    requires Grounded(g)
    ensures Ranked(g, rank)
  {
    var rank :| Ranked(g, rank);
    rank
  }

  lemma FragmentEnds(g: Graph, s: Node, t: Node)
    requires Fragment(g, s, t)
    ensures s in g && t in g && s != t && Closed(g) && g[t] == Accept
  {
  }

  // ---------------------------------------------------------------- atoms

  function AtomGraph(lab: Label, s: Node, t: Node): Graph { map[s := Match(lab, t), t := Accept] }

  lemma AtomAccepts(lab: Label, s: Node, t: Node)
    requires s != t
    ensures Accepts(AtomGraph(lab, s, t), s, t, Atom(lab))
    ensures Ranked(AtomGraph(lab, s, t), map[s := 0, t := 0])
  {
    var g := AtomGraph(lab, s, t);
    forall w ensures Reads(g, s, t, w) <==> In(Atom(lab), w) {
      if In(Atom(lab), w) {
        assert Run(g, [s, t][1..], w[1..]);
        assert RunFrom(g, s, t, [s, t], w);
      }
      if Reads(g, s, t, w) {
        var p :| RunFrom(g, s, t, p, w);
        StuckAt(g, p[1..], w[1..]);
      }
    }
  }

  /** No run leaves an accepting node. */
  lemma StuckAt(g: Graph, p: seq<Node>, w: Word)
    requires Run(g, p, w) && p[0] in g && g[p[0]] == Accept
    ensures |p| == 1 && w == []
  {
  }

  lemma StuckReads(g: Graph, t: Node, w: Word)
    requires t in g && g[t] == Accept && Reads(g, t, t, w)
    ensures w == []
  {
    var p :| RunFrom(g, t, t, p, w);
    StuckAt(g, p, w);
  }

  // ---------------------------------------------------------------- concatenation

  /** The exit of the first fragment becomes a copy of the second one's entry, which disappears. */
  function CatGraph(g: Graph, t: Node, h: Graph, s: Node): Graph
    requires s in h
  {
    (g + (h - {s}))[t := h[s]]
  }

  lemma CatAccepts(g: Graph, s1: Node, t1: Node, l: Expr, h: Graph, s2: Node, t2: Node, r: Expr)
    requires Accepts(g, s1, t1, l) && Accepts(h, s2, t2, r) && g.Keys !! h.Keys
    ensures Accepts(CatGraph(g, t1, h, s2), s1, t2, Cat(l, r))
  {
    CatFragment(g, s1, t1, h, s2, t2);
    CatHead(g, s1, t1, s1, l, h, s2, t2, r);
  }

  /** From any node of the first fragment, its words are continued with those of the second one. */
  lemma CatHead(g: Graph, s1: Node, t1: Node, a: Node, l: Expr, h: Graph, s2: Node, t2: Node, r: Expr)
    requires Fragment(g, s1, t1) && Accepts(h, s2, t2, r) && g.Keys !! h.Keys && a in g && HeadReads(g, t1, a, l)
    ensures HeadReads(CatGraph(g, t1, h, s2), t2, a, Cat(l, r))
  {
    var k := CatGraph(g, t1, h, s2);
    hide Run;
    hide Reads;
    hide Fragment;
    hide Closed;
    hide CatGraph;
    forall w ensures Reads(k, a, t2, w) <==> In(Cat(l, r), w) {
      if Reads(k, a, t2, w) {
        CatSplits(g, s1, t1, a, l, h, s2, t2, r, w);
      }
      if In(Cat(l, r), w) {
        var i :| 0 <= i <= |w| && In(l, w[..i]) && In(r, w[i..]);
        CatJoins(g, s1, t1, a, l, h, s2, t2, r, w, i);
      }
    }
  }

  lemma CatSplits(g: Graph, s1: Node, t1: Node, a: Node, l: Expr, h: Graph, s2: Node, t2: Node, r: Expr, w: Word)
    requires Fragment(g, s1, t1) && Accepts(h, s2, t2, r) && g.Keys !! h.Keys && a in g && HeadReads(g, t1, a, l)
    requires Reads(CatGraph(g, t1, h, s2), a, t2, w)
    ensures In(Cat(l, r), w)
  {
    hide Run;
    var i := ExitReads(g, CatGraph(g, t1, h, s2), a, t1, t2, w);
    CatTail(g, s1, t1, h, s2, t2, w[i..]);
    assert In(l, w[..i]) && In(r, w[i..]);
  }

  lemma CatJoins(g: Graph, s1: Node, t1: Node, a: Node, l: Expr, h: Graph, s2: Node, t2: Node, r: Expr, w: Word,
                 i: nat)
    requires Fragment(g, s1, t1) && Accepts(h, s2, t2, r) && g.Keys !! h.Keys && a in g && HeadReads(g, t1, a, l)
    requires i <= |w| && In(l, w[..i]) && In(r, w[i..])
    ensures Reads(CatGraph(g, t1, h, s2), a, t2, w)
  {
    hide Run;
    hide Closed;
    var k := CatGraph(g, t1, h, s2);
    LiftReads(g, k, a, t1, w[..i]);
    CatTail(g, s1, t1, h, s2, t2, w[i..]);
    ReadsJoin(k, a, t1, t2, w[..i], w[i..]);
    assert w[..i] + w[i..] == w;
  }

  lemma CatFragment(g: Graph, s1: Node, t1: Node, h: Graph, s2: Node, t2: Node)
    requires Fragment(g, s1, t1) && Fragment(h, s2, t2) && g.Keys !! h.Keys
    ensures Fragment(CatGraph(g, t1, h, s2), s1, t2)
  {
    var k := CatGraph(g, t1, h, s2);
    assert k.Keys == g.Keys + h.Keys - {s2};
    forall a | a in k ensures Outs(k[a]) <= k.Keys && s1 !in Outs(k[a]) && (k[a] == Accept ==> a == t2) {
      if a == t1 {
        assert k[a] == h[s2];
      } else if a in h {
        assert k[a] == h[a];
      } else {
        assert k[a] == g[a];
      }
    }
  }

  /** From the overwritten exit on, the second fragment reads what it did from its entry. */
  lemma CatTail(g: Graph, s1: Node, t1: Node, h: Graph, s2: Node, t2: Node, w: Word)
    requires Fragment(g, s1, t1) && Fragment(h, s2, t2) && g.Keys !! h.Keys
    ensures Reads(CatGraph(g, t1, h, s2), t1, t2, w) <==> Reads(h, s2, t2, w)
  {
    var k := CatGraph(g, t1, h, s2);
    var d := h.Keys - {s2};
    assert Confined(k, h, d);
    if Reads(k, t1, t2, w) {
      var p :| RunFrom(k, t1, t2, p, w);
      MovedEntry(k, t1, h, s2, d, p, w);
      assert RunFrom(h, s2, t2, [s2] + p[1..], w);
    }
    if Reads(h, s2, t2, w) {
      var p :| RunFrom(h, s2, t2, p, w);
      MovedEntry(h, s2, k, t1, d, p, w);
      assert RunFrom(k, t1, t2, [t1] + p[1..], w);
    }
  }

  /** A run does not change when its first node is replaced by one that does the same. */
  lemma MovedEntry(g: Graph, a: Node, h: Graph, b: Node, d: set<Node>, p: seq<Node>, w: Word)
    requires a in g && b in h && g[a] == h[b] && Outs(g[a]) <= d && Confined(g, h, d)
    requires Run(g, p, w) && p[0] == a && |p| > 1
    ensures Run(h, [b] + p[1..], w)
  {
    assert ([b] + p[1..])[1..] == p[1..];
    if Silent(g, p[0], p[1]) && Run(g, p[1..], w) {
      SameRuns(g, h, d, p[1..], w);
    } else {
      SameRuns(g, h, d, p[1..], w[1..]);
    }
  }

  /** The first fragment's ranks go above the second one's. */
  lemma CatRanked(g: Graph, s1: Node, t1: Node, rg: Rank, h: Graph, s2: Node, t2: Node, rh: Rank)
      returns (rank: Rank)
    requires Fragment(g, s1, t1) && Fragment(h, s2, t2) && g.Keys !! h.Keys
    requires Ranked(g, rg) && Ranked(h, rh)
    ensures Ranked(CatGraph(g, t1, h, s2), rank)
  {
    var n := Top(rh);
    rank := map a | a in g.Keys + h.Keys :: if a in g then rg[a] + n else rh[a];
    FragmentEnds(g, s1, t1);
    FragmentEnds(h, s2, t2);
    assert Raised(g, rg, rank, n) && Raised(h, rh, rank, 0);
    assert rank[s2] < rank[t1];
    var k := CatGraph(g, t1, h, s2);
    assert forall a :: a in k ==> a in rank;
    forall a | a in k ensures Descends(k[a], rank, rank[a]) {
      CatDescends(g, t1, rg, n, h, s2, rh, rank, a);
    }
  }

  lemma CatDescends(g: Graph, t1: Node, rg: Rank, n: nat, h: Graph, s2: Node, rh: Rank, rank: Rank, a: Node)
    requires Closed(g) && Ranked(g, rg) && Raised(g, rg, rank, n)
    requires Closed(h) && Ranked(h, rh) && Raised(h, rh, rank, 0)
    requires t1 in g && s2 in h && rank[s2] < rank[t1] && a in CatGraph(g, t1, h, s2) && a in rank
    ensures Descends(CatGraph(g, t1, h, s2)[a], rank, rank[a])
  {
    assert t1 in rank && s2 in rank;
    hide Descends;
    hide Closed;
    hide Ranked;
    hide Raised;
    if a == t1 {
      RaisedDescends(h, rh, rank, 0, s2);
      Weaken(h[s2], rank, rank[s2], rank[t1]);
    } else if a in g && a !in h {
      RaisedDescends(g, rg, rank, n, a);
    } else {
      RaisedDescends(h, rh, rank, 0, a);
    }
  }

  lemma Weaken(i: Inst, rank: Rank, m: nat, n: nat)
    requires Descends(i, rank, m) && m <= n
    ensures Descends(i, rank, n)
  {
    if i.Tree? {
      var b :| b in i.branches && Below(rank, b, m);
      assert Below(rank, b, n);
    }
  }

  // ---------------------------------------------------------------- loops

  /** Starting from target is as good as starting from s. */
  ghost predicate SameFrom(g: Graph, s: Node, target: Node, t: Node) {
    target in g && forall w :: Reads(g, s, t, w) <==> Reads(g, target, t, w)
  }

  /** Following an epsilon changes nothing: the "tighten loop" of the closures is sound. */
  lemma Tighten(g: Graph, s: Node, a: Node, t: Node)
    requires SameFrom(g, s, a, t) && Closed(g) && g[a].Epsilon? && a != t
    ensures SameFrom(g, s, g[a].out, t)
  {
    forall w ensures Reads(g, a, t, w) <==> Reads(g, g[a].out, t, w) {
      if Reads(g, a, t, w) { var b := FirstSilent(g, a, t, w); }
      if Reads(g, g[a].out, t, w) { SilentThen(g, a, g[a].out, t, w); }
    }
  }

  /** The exit t of a body leads back into it, or on to z. */
  ghost predicate Looped(g: Graph, s: Node, t: Node, target: Node, k: Graph, z: Node) {
    && Fragment(g, s, t) && Extends(g, k, t) && z !in g && SameFrom(g, s, target, t)
    && t in k && k[t] == Split(target, z) && z in k && k[z] == Accept
  }

  lemma {:induction false} LoopRun(g: Graph, s: Node, t: Node, target: Node, k: Graph, z: Node,
                                   body: Expr, p: seq<Node>, w: Word)
    requires Looped(g, s, t, target, k, z) && Accepts(g, s, t, body)
    requires Run(k, p, w) && p[0] in {s, target} && p[|p| - 1] == z
    ensures In(Plus(body), w)
    decreases |p|
  {
    var i, n := Exit(g, k, t, p, w);
    assert RunFrom(g, p[0], t, p[..i + 1], w[..n]);
    assert In(body, w[..n]);
    var q := p[i..];
    assert Silent(k, q[0], q[1]) && Run(k, q[1..], w[n..]);
    if q[1] == z {
      StuckAt(k, q[1..], w[n..]);
      assert InStar(body, w[n..]);
    } else {
      LoopRun(g, s, t, target, k, z, body, q[1..], w[n..]);
      PlusIsStar(body, w[n..]);
    }
  }

  lemma PlusIsStar(body: Expr, w: Word)
    requires In(Plus(body), w)
    ensures InStar(body, w)
  {
    var k :| 0 <= k <= |w| && In(body, w[..k]) && InStar(body, w[k..]);
    StarStep(body, w[..k], w[k..]);
    assert w[..k] + w[k..] == w;
  }

  lemma {:induction false} LoopStar(g: Graph, s: Node, t: Node, target: Node, k: Graph, z: Node, body: Expr, w: Word)
    requires Looped(g, s, t, target, k, z) && Accepts(g, s, t, body) && InStar(body, w)
    ensures Reads(k, t, z, w)
    decreases |w|
  {
    FragmentEnds(g, s, t);
    LoopEnds(g, s, t, target, k, z);
    hide Run;
    hide Reads;
    hide Fragment;
    hide Closed;
    hide Looped;
    hide Accepts;
    hide Silent;
    hide Extends;
    if w == [] {
      SilentReads(k, t, z);
    } else {
      var i := FirstWord(body, w);
      LoopFirst(g, s, t, target, k, z, body, w[..i]);
      LiftReads(g, k, target, t, w[..i]);
      LoopStar(g, s, t, target, k, z, body, w[i..]);
      ReadsJoin(k, target, t, z, w[..i], w[i..]);
      assert w[..i] + w[i..] == w;
      SilentThen(k, t, target, z, w);
    }
  }

  lemma FirstWord(body: Expr, w: Word) returns (i: nat)
    requires InStar(body, w) && w != []
    ensures 0 < i <= |w| && In(body, w[..i]) && InStar(body, w[i..])
  {
    i :| 0 < i <= |w| && In(body, w[..i]) && InStar(body, w[i..]);
  }

  lemma LoopEnds(g: Graph, s: Node, t: Node, target: Node, k: Graph, z: Node)
    requires Looped(g, s, t, target, k, z)
    ensures Silent(k, t, target) && Silent(k, t, z) && Extends(g, k, t)
  {
    hide Fragment;
  }

  lemma LoopFirst(g: Graph, s: Node, t: Node, target: Node, k: Graph, z: Node, body: Expr, u: Word)
    requires Looped(g, s, t, target, k, z) && Accepts(g, s, t, body) && In(body, u)
    ensures Reads(g, s, t, u) && Reads(g, target, t, u)
  {
    hide Fragment;
    hide Reads;
  }

  /** From its entry to z, the looped body reads one or more words. */
  lemma LoopReads(g: Graph, s: Node, t: Node, target: Node, k: Graph, z: Node, body: Expr, w: Word)
    requires Looped(g, s, t, target, k, z) && Accepts(g, s, t, body)
    ensures Reads(k, s, z, w) <==> In(Plus(body), w)
  {
    FragmentEnds(g, s, t);
    hide Run;
    hide Fragment;
    hide Closed;
    if Reads(k, s, z, w) {
      var p :| RunFrom(k, s, z, p, w);
      LoopRun(g, s, t, target, k, z, body, p, w);
    }
    if In(Plus(body), w) {
      var i :| 0 <= i <= |w| && In(body, w[..i]) && InStar(body, w[i..]);
      LoopJoins(g, s, t, target, k, z, body, w, i);
    }
  }

  lemma LoopJoins(g: Graph, s: Node, t: Node, target: Node, k: Graph, z: Node, body: Expr, w: Word, i: nat)
    requires Looped(g, s, t, target, k, z) && Accepts(g, s, t, body)
    requires i <= |w| && In(body, w[..i]) && InStar(body, w[i..])
    ensures Reads(k, s, z, w)
  {
    FragmentEnds(g, s, t);
    LoopEnds(g, s, t, target, k, z);
    LoopFirst(g, s, t, target, k, z, body, w[..i]);
    hide *;
    LiftReads(g, k, s, t, w[..i]);
    LoopStar(g, s, t, target, k, z, body, w[i..]);
    ReadsJoin(k, s, t, z, w[..i], w[i..]);
    assert w[..i] + w[i..] == w;
  }

  function PlusGraph(g: Graph, s: Node, t: Node, target: Node, start: Node, accept: Node): Graph {
    g[t := Split(target, accept)][start := Epsilon(s)][accept := Accept]
  }

  function StarGraph(g: Graph, s: Node, t: Node, target: Node, start: Node, accept: Node): Graph {
    g[t := Split(target, accept)][start := Split(accept, s)][accept := Accept]
  }

  function OptGraph(g: Graph, s: Node, t: Node, start: Node, accept: Node): Graph {
    g[t := Epsilon(accept)][start := Split(accept, s)][accept := Accept]
  }

  ghost predicate Fresh(g: Graph, start: Node, accept: Node) {
    start !in g && accept !in g && start != accept
  }

  /** k puts a new entry and exit around the body. */
  ghost predicate Wraps(g: Graph, s: Node, t: Node, k: Graph, start: Node, accept: Node) {
    && k.Keys == g.Keys + {start, accept} && Extends(g, k, t) && t in k && k[accept] == Accept
    && (k[t] == Epsilon(accept) || (k[t].Split? && k[t].out1 in g && k[t].out2 == accept))
    && (k[start] == Epsilon(s) || k[start] == Split(accept, s))
  }

  lemma WrapFragment(g: Graph, s: Node, t: Node, k: Graph, start: Node, accept: Node)
    requires Fragment(g, s, t) && Fresh(g, start, accept) && Wraps(g, s, t, k, start, accept)
    ensures Fragment(k, start, accept)
  {
  }

  lemma PlusAccepts(g: Graph, s: Node, t: Node, target: Node, start: Node, accept: Node, body: Expr)
    requires Accepts(g, s, t, body) && SameFrom(g, s, target, t) && Fresh(g, start, accept)
    ensures Accepts(PlusGraph(g, s, t, target, start, accept), start, accept, Plus(body))
    ensures Wraps(g, s, t, PlusGraph(g, s, t, target, start, accept), start, accept)
  {
    var k := PlusGraph(g, s, t, target, start, accept);
    FragmentEnds(g, s, t);
    WrapFragment(g, s, t, k, start, accept);
    hide Fragment;
    hide Closed;
    hide Run;
    hide SameFrom;
    forall w ensures Reads(k, start, accept, w) <==> In(Plus(body), w) {
      LoopReads(g, s, t, target, k, accept, body, w);
      if Reads(k, start, accept, w) { var b := FirstSilent(k, start, accept, w); }
      if Reads(k, s, accept, w) { SilentThen(k, start, s, accept, w); }
    }
  }

  lemma StarAccepts(g: Graph, s: Node, t: Node, target: Node, start: Node, accept: Node, body: Expr)
    requires Accepts(g, s, t, body) && SameFrom(g, s, target, t) && Fresh(g, start, accept)
    ensures Accepts(StarGraph(g, s, t, target, start, accept), start, accept, Star(body))
    ensures Wraps(g, s, t, StarGraph(g, s, t, target, start, accept), start, accept)
  {
    var k := StarGraph(g, s, t, target, start, accept);
    FragmentEnds(g, s, t);
    WrapFragment(g, s, t, k, start, accept);
    hide Fragment;
    hide Closed;
    hide Run;
    hide SameFrom;
    forall w ensures Reads(k, start, accept, w) <==> In(Star(body), w) {
      LoopReads(g, s, t, target, k, accept, body, w);
      OptionalEntry(k, start, s, accept, w);
      if In(Plus(body), w) { PlusIsStar(body, w); }
      if InStar(body, w) && w != [] {
        var i :| 0 < i <= |w| && In(body, w[..i]) && InStar(body, w[i..]);
        assert In(Plus(body), w);
      }
    }
  }

  /** A split entry adds the empty word. */
  lemma OptionalEntry(k: Graph, start: Node, s: Node, accept: Node, w: Word)
    requires start in k && accept in k && start != accept && k[start] == Split(accept, s) && k[accept] == Accept
    ensures Reads(k, start, accept, w) <==> w == [] || Reads(k, s, accept, w)
  {
    if Reads(k, start, accept, w) {
      var b := FirstSilent(k, start, accept, w);
      if b == accept { StuckReads(k, accept, w); }
    }
    if w == [] { SilentReads(k, start, accept); }
    if Reads(k, s, accept, w) { SilentThen(k, start, s, accept, w); }
  }

  lemma OptAccepts(g: Graph, s: Node, t: Node, start: Node, accept: Node, body: Expr)
    requires Accepts(g, s, t, body) && Fresh(g, start, accept)
    ensures Accepts(OptGraph(g, s, t, start, accept), start, accept, Opt(body))
    ensures Wraps(g, s, t, OptGraph(g, s, t, start, accept), start, accept)
  {
    var k := OptGraph(g, s, t, start, accept);
    FragmentEnds(g, s, t);
    WrapFragment(g, s, t, k, start, accept);
    hide Fragment;
    hide Closed;
    hide Run;
    forall w ensures Reads(k, start, accept, w) <==> In(Opt(body), w) {
      Passed(g, s, s, t, k, accept, w);
      OptionalEntry(k, start, s, accept, w);
    }
  }

  /** When the exit of g only leads on to z, the same words are read up to z. */
  lemma Passed(g: Graph, s: Node, a: Node, t: Node, k: Graph, z: Node, w: Word)
    requires Closed(g) && t in g && g[t] == Accept && Extends(g, k, t) && a in g && z !in g
    requires t in k && k[t] == Epsilon(z) && z in k && k[z] == Accept
    ensures Reads(k, a, z, w) <==> Reads(g, a, t, w)
  {
    if Reads(k, a, z, w) {
      var i := ExitReads(g, k, a, t, z, w);
      var b := FirstSilent(k, t, z, w[i..]);
      StuckReads(k, z, w[i..]);
      assert w[..i] == w;
    }
    if Reads(g, a, t, w) {
      LiftReads(g, k, a, t, w);
      SilentReads(k, t, z);
      ReadsJoin(k, a, t, z, w, []);
      assert w + [] == w;
    }
  }

  /** The rank of a wrapped body: its exit goes to 0 and its new entry to the top. */
  ghost function WrapRank(g: Graph, rg: Rank, start: Node, accept: Node): Rank
    requires g.Keys <= rg.Keys
  {
    (map a | a in g :: rg[a] + 1)[accept := 0][start := Top(rg) + 1]
  }

  /** It ranks whatever wraps the body in one of the three ways. */
  lemma WrapRanked(g: Graph, s: Node, t: Node, rg: Rank, k: Graph, start: Node, accept: Node)
    requires Fragment(g, s, t) && Fresh(g, start, accept) && Ranked(g, rg) && Wraps(g, s, t, k, start, accept)
    ensures Ranked(k, WrapRank(g, rg, start, accept))
  {
    FragmentEnds(g, s, t);
    WrapEnds(g, s, t, rg, k, start, accept);
    WrapRaised(g, rg, start, accept);
    hide Descends;
    hide Fragment;
    hide Closed;
    hide WrapRank;
    hide Raised;
    var rank := WrapRank(g, rg, start, accept);
    forall a | a in k ensures Descends(k[a], rank, rank[a]) {
      if a in g && a != t {
        RaisedDescends(g, rg, rank, 1, a);
      } else {
        assert a in {start, t, accept};
      }
    }
  }

  lemma WrapRaised(g: Graph, rg: Rank, start: Node, accept: Node)
    requires g.Keys <= rg.Keys && Fresh(g, start, accept)
    ensures Raised(g, rg, WrapRank(g, rg, start, accept), 1)
    ensures WrapRank(g, rg, start, accept).Keys == g.Keys + {start, accept}
  {
  }

  lemma WrapGrounded(g: Graph, s: Node, t: Node, k: Graph, start: Node, accept: Node)
    requires Fragment(g, s, t) && Fresh(g, start, accept) && Grounded(g) && Wraps(g, s, t, k, start, accept)
    ensures Grounded(k)
  {
    WrapRanked(g, s, t, SomeRank(g), k, start, accept);
  }

  /** The three nodes whose instructions are not those of the body. */
  lemma WrapEnds(g: Graph, s: Node, t: Node, rg: Rank, k: Graph, start: Node, accept: Node)
    requires s in g && t in g && Fresh(g, start, accept) && g.Keys <= rg.Keys && Wraps(g, s, t, k, start, accept)
    ensures var rank := WrapRank(g, rg, start, accept);
            forall a :: a in {start, t, accept} ==> Descends(k[a], rank, rank[a])
  {
    var rank := WrapRank(g, rg, start, accept);
    assert Below(rank, s, rank[start]) && Below(rank, accept, rank[start]) && Below(rank, accept, rank[t]);
  }

  // ---------------------------------------------------------------- alternation

  /** A branch: a fragment with its entry and exit. */
  datatype Branch = Branch(g: Graph, s: Node, t: Node) {
    ghost predicate Valid() { Fragment(g, s, t) }

    /** A branch that is itself an alternation is flattened: its entry goes away ... */
    ghost predicate Nested()
      requires Valid()
    {
      g[s].Tree?
    }

    ghost function Body(): Graph
      requires Valid()
    {
      if Nested() then g - {s} else g
    }

    /** ... and its own branches take the entry's place. */
    ghost function Heads(): set<Node>
      requires Valid()
    {
      if Nested() then Outs(g[s]) else {s}
    }
  }

  /** The body of the branch is in k, and its exit leads to the common exit z. */
  ghost predicate Placed(b: Branch, k: Graph, z: Node)
    requires b.Valid()
  {
    && Extends(b.Body(), k, b.t) && z !in b.Body()
    && b.t in k && k[b.t] == Epsilon(z) && z in k && k[z] == Accept
  }

  lemma BodyClosed(b: Branch)
    requires b.Valid()
    ensures Closed(b.Body()) && b.Heads() <= b.Body().Keys && b.t in b.Body() && b.Body()[b.t] == Accept
    ensures b.s in b.g
  {
  }

  /** Flattened or not, a head of a branch reads up to the common exit what it read before. */
  lemma HeadKept(b: Branch, k: Graph, z: Node, h: Node, w: Word)
    requires b.Valid() && Placed(b, k, z) && h in b.Heads()
    ensures Reads(k, h, z, w) <==> Reads(b.g, h, b.t, w)
  {
    hide Run;
    BodyClosed(b);
    var g := b.Body();
    Passed(g, h, h, b.t, k, z, w);
    SameReads(g, b.g, g.Keys, h, b.t, w);
  }

  /** How the entry of a branch is seen: as a head, or as a list of heads. */
  ghost predicate Forked(b: Branch, x: Fork<Node>)
    requires b.Valid()
  {
    match x
    case One(h) => h == b.s && !b.Nested()
    case Many(l) => Usable(l) && b.g[b.s] == Tree(Seen(l))
  }

  lemma ForkedHeads(b: Branch, x: Fork<Node>)
    requires b.Valid() && Forked(b, x)
    ensures forall h :: h in HeadsIn(x) <==> h in b.Heads()
    ensures x.Many? ==> Usable(x.list) && Seen(x.list) != []
  {
    if x.Many? {
      SeenIs(x.list);
    }
  }

  ghost predicate InBranch(bs: seq<Branch>, i: int, a: Node) {
    0 <= i < |bs| && bs[i].Valid() && a in bs[i].Body()
  }

  /** The nodes that the branches keep. */
  ghost function Bodies(bs: seq<Branch>): set<Node>
    requires forall i :: 0 <= i < |bs| ==> bs[i].Valid()
  {
    set i, a | 0 <= i < |bs| && a in bs[i].Body() :: a
  }

  ghost function HeadSet(bs: seq<Branch>): set<Node>
    requires forall i :: 0 <= i < |bs| ==> bs[i].Valid()
  {
    set i, h | 0 <= i < |bs| && h in bs[i].Heads() :: h
  }

  ghost predicate AllPlaced(bs: seq<Branch>, k: Graph, start: Node, accept: Node) {
    forall i :: 0 <= i < |bs| ==> bs[i].Valid() && Placed(bs[i], k, accept) && start !in bs[i].Body()
  }

  ghost predicate AllForked(bs: seq<Branch>, xs: seq<Fork<Node>>)
    requires forall i :: 0 <= i < |bs| ==> bs[i].Valid()
  {
    |xs| == |bs| && forall i :: 0 <= i < |bs| ==> Forked(bs[i], xs[i])
  }

  /** k is the alternation of the branches, from start to accept, as far as they are in its list. */
  ghost predicate Alternates(bs: seq<Branch>, xs: seq<Fork<Node>>, k: Graph, start: Node, accept: Node) {
    && bs != [] && AllPlaced(bs, k, start, accept) && AllForked(bs, xs)
    && start in k && start != accept && accept in k && k[accept] == Accept
    && k[start] == Tree(Seen(Gathered(xs))) && k.Keys == Bodies(bs) + {start, accept}
  }

  /** The list holds heads of the branches, and at least one. */
  lemma EntryHeads(bs: seq<Branch>, xs: seq<Fork<Node>>)
    requires (forall i :: 0 <= i < |bs| ==> bs[i].Valid()) && bs != [] && AllForked(bs, xs)
    ensures Usable(Gathered(xs)) && Seen(Gathered(xs)) != []
    ensures forall h :: h in Seen(Gathered(xs)) ==> h in HeadSet(bs)
  {
    hide Fragment;
    GatheredUsable(xs);
    SeenIs(Gathered(xs));
    forall h | h in Seen(Gathered(xs)) ensures h in HeadSet(bs) {
      var i := GatheredFrom(xs, h);
      ForkedHeads(bs[i], xs[i]);
    }
  }

  lemma HeadOf(bs: seq<Branch>, h: Node) returns (i: int)
    requires (forall i :: 0 <= i < |bs| ==> bs[i].Valid()) && h in HeadSet(bs)
    ensures 0 <= i < |bs| && h in bs[i].Heads()
  {
    i :| 0 <= i < |bs| && h in bs[i].Heads();
  }

  ghost function BranchOf(bs: seq<Branch>, a: Node): (i: int)
    requires (forall i :: 0 <= i < |bs| ==> bs[i].Valid()) && a in Bodies(bs)
    ensures InBranch(bs, i, a)
  {
    var i :| 0 <= i < |bs| && a in bs[i].Body();
    i
  }

  /** What one branch contributes. */
  lemma BodyPlaced(bs: seq<Branch>, xs: seq<Fork<Node>>, k: Graph, start: Node, accept: Node, i: nat)
    requires Alternates(bs, xs, k, start, accept) && i < |bs|
    ensures bs[i].Valid() && Placed(bs[i], k, accept)
    ensures bs[i].Body().Keys <= k.Keys && start !in bs[i].Body() && accept !in bs[i].Body()
    ensures bs[i].Body().Keys <= Bodies(bs) && bs[i].Heads() <= HeadSet(bs)
  {
    hide Fragment;
    assert Placed(bs[i], k, accept);
  }

  lemma AltFragment(bs: seq<Branch>, xs: seq<Fork<Node>>, k: Graph, start: Node, accept: Node)
    requires Alternates(bs, xs, k, start, accept)
    ensures Fragment(k, start, accept)
  {
    AltEntryOut(bs, xs, k, start, accept);
    AltEntry(bs, xs, k, start, accept);
    hide Alternates;
    hide Bodies;
    forall a | a in k ensures Outs(k[a]) <= k.Keys && start !in Outs(k[a]) && (k[a] == Accept ==> a == accept) {
      if a != accept && a != start { AltInside(bs, xs, k, start, accept, a); }
    }
  }

  /** A node of one of the branches. */
  lemma AltInside(bs: seq<Branch>, xs: seq<Fork<Node>>, k: Graph, start: Node, accept: Node, a: Node)
    requires Alternates(bs, xs, k, start, accept) && a in Bodies(bs)
    ensures a in k && Outs(k[a]) <= k.Keys && start !in Outs(k[a]) && k[a] != Accept
  {
    var i := BranchOf(bs, a);
    BodyPlaced(bs, xs, k, start, accept, i);
    BodyClosed(bs[i]);
    assert accept in k;
    assert start != accept;
    hide Alternates;
    hide Bodies;
    hide HeadSet;
    InsideBranch(bs[i], k, start, accept, a);
  }

  lemma InsideBranch(b: Branch, k: Graph, start: Node, accept: Node, a: Node)
    requires b.Valid() && Placed(b, k, accept) && b.Body().Keys <= k.Keys && start !in b.Body() && start != accept
    requires a in b.Body()
    ensures Outs(k[a]) <= k.Keys && start !in Outs(k[a]) && k[a] != Accept
  {
    BodyClosed(b);
    assert a != b.t ==> k[a] == b.Body()[a] && Outs(k[a]) <= b.Body().Keys;
    assert a != b.t ==> b.g[a] != Accept;
  }

  lemma AltEntry(bs: seq<Branch>, xs: seq<Fork<Node>>, k: Graph, start: Node, accept: Node)
    requires Alternates(bs, xs, k, start, accept)
    ensures Outs(k[start]) <= k.Keys && start !in Outs(k[start])
  {
    EntryHeads(bs, xs);
    hide Fragment;
    hide Placed;
    forall h | h in Outs(k[start]) ensures h in k && h != start {
      var i := HeadOf(bs, h);
      BodyPlaced(bs, xs, k, start, accept, i);
      BodyClosed(bs[i]);
    }
  }

  // ---------------------------------------------------------------- what an alternation reads

  /** A branch's heads read up to the common exit what they read before. */
  lemma AlikeKept(b: Branch, x: Fork<Node>, y: Shape, k: Graph, z: Node)
    requires b.Valid() && Placed(b, k, z) && Forked(b, x) && Alike(b.g, b.t, x, y)
    ensures Alike(k, z, x, y)
  {
    ForkedHeads(b, x);
    if x.Many? { SeenIs(x.list); }
    forall h, e | h in HeadsIn(x) && HeadReads(b.g, b.t, h, e) ensures HeadReads(k, z, h, e) {
      forall w ensures Reads(k, h, z, w) <==> In(e, w) {
        HeadKept(b, k, z, h, w);
      }
    }
    hide HeadReads;
    hide Fragment;
    hide Placed;
    assert x.Many? ==> forall i :: 0 <= i < |x.list.items| ==> x.list.items[i] in HeadsIn(x);
  }

  lemma {:induction false} AlikeParts(g: Graph, z: Node, xs: seq<Fork<Node>>, ys: seq<Shape>)
    requires |xs| == |ys| && forall i :: 0 <= i < |xs| ==> Alike(g, z, xs[i], ys[i])
    ensures AlikeLists(g, z, Remaining(xs), Remaining(ys))
    ensures |Manys(xs)| == |Manys(ys)|
    ensures forall i :: 0 <= i < |Manys(xs)| ==> AlikeLists(g, z, Manys(xs)[i], Manys(ys)[i])
  {
    hide HeadReads;
    if xs != [] {
      var m := |xs| - 1;
      AlikeParts(g, z, xs[..m], ys[..m]);
    }
  }

  lemma AlikeTransfer(g: Graph, z: Node, l1: BranchList<Node>, l2: BranchList<Node>,
                      m1: BranchList<Expr>, m2: BranchList<Expr>)
    requires AlikeLists(g, z, l1, m1) && AlikeLists(g, z, l2, m2)
    ensures AlikeLists(g, z, Transfer(l1, l2), Transfer(m1, m2))
  {
    hide HeadReads;
  }

  lemma {:induction false} AlikeTransfers(g: Graph, z: Node, l: BranchList<Node>, ls: seq<BranchList<Node>>,
                                          m: BranchList<Expr>, ms: seq<BranchList<Expr>>)
    requires AlikeLists(g, z, l, m) && |ls| == |ms|
    requires forall i :: 0 <= i < |ls| ==> AlikeLists(g, z, ls[i], ms[i])
    ensures AlikeLists(g, z, TransferAll(l, ls), TransferAll(m, ms))
    decreases |ls|
  {
    hide AlikeLists;
    hide Transfer;
    if ls != [] {
      var n := |ls| - 1;
      AlikeTransfers(g, z, l, ls[..n], m, ms[..n]);
      AlikeTransfer(g, z, TransferAll(l, ls[..n]), ls[n], TransferAll(m, ms[..n]), ms[n]);
    }
  }

  /** An entry with a list reads what is read from the heads that are found in it. */
  lemma ListAccepts(k: Graph, start: Node, accept: Node, l: BranchList<Node>, m: BranchList<Expr>)
    requires Fragment(k, start, accept) && k[start] == Tree(Seen(l)) && Usable(l) && AlikeLists(k, accept, l, m)
    ensures Accepts(k, start, accept, Alt(Seen(m)))
  {
    SeenIs(l);
    SeenIs(m);
    hide Run;
    forall w ensures Reads(k, start, accept, w) <==> In(Alt(Seen(m)), w) {
      if Reads(k, start, accept, w) {
        var h := FirstSilent(k, start, accept, w);
        var i :| 0 <= i < |Seen(l)| && Seen(l)[i] == h;
        assert HeadReads(k, accept, h, Seen(m)[i]);
      }
      if In(Alt(Seen(m)), w) {
        var i :| 0 <= i < |Seen(m)| && In(Seen(m)[i], w);
        var h := Seen(l)[i];
        assert HeadReads(k, accept, h, Seen(m)[i]);
        assert h in Outs(k[start]);
        SilentThen(k, start, h, accept, w);
      }
    }
  }

  /** What is read from the branches in ys is read in the alternation, from those of them that are
      found in the list. */
  lemma AltAccepts(bs: seq<Branch>, xs: seq<Fork<Node>>, ys: seq<Shape>, k: Graph, start: Node, accept: Node)
    requires Alternates(bs, xs, k, start, accept) && |ys| == |bs|
    requires forall i :: 0 <= i < |bs| ==> Alike(bs[i].g, bs[i].t, xs[i], ys[i])
    ensures AlikeLists(k, accept, Gathered(xs), Gathered(ys))
    ensures Accepts(k, start, accept, Alt(Seen(Gathered(ys))))
  {
    AltFragment(bs, xs, k, start, accept);
    EntryHeads(bs, xs);
    forall i | 0 <= i < |xs| ensures Alike(k, accept, xs[i], ys[i]) {
      AlikeKept(bs[i], xs[i], ys[i], k, accept);
    }
    hide HeadReads;
    hide Fragment;
    hide Accepts;
    hide AlikeLists;
    hide Alike;
    AlikeParts(k, accept, xs, ys);
    AlikeTransfers(k, accept, Remaining(xs), Manys(xs), Remaining(ys), Manys(ys));
    ListAccepts(k, start, accept, Gathered(xs), Gathered(ys));
  }

  ghost predicate SoundBranches(bs: seq<Branch>) {
    && (forall i :: 0 <= i < |bs| ==> bs[i].Valid() && Grounded(bs[i].g))
    && (forall i, j :: 0 <= i < j < |bs| ==> bs[i].g.Keys !! bs[j].g.Keys)
  }

  /** The rank a node has in the branch it comes from. */
  ghost function BranchRank(bs: seq<Branch>, a: Node): nat
    requires SoundBranches(bs) && a in Bodies(bs)
  {
    SomeRank(bs[BranchOf(bs, a)].g)[a]
  }

  lemma OneBranch(bs: seq<Branch>, i: int, a: Node)
    requires SoundBranches(bs) && InBranch(bs, i, a) && a in Bodies(bs)
    ensures BranchRank(bs, a) == SomeRank(bs[i].g)[a]
  {
    hide Fragment;
    assert a in bs[i].g && a in bs[BranchOf(bs, a)].g;
  }

  /** All nodes but the entry: the branches above the common exit. */
  ghost function AltRank(bs: seq<Branch>, accept: Node): Rank
    requires SoundBranches(bs)
  {
    (map a | a in Bodies(bs) :: BranchRank(bs, a) + 1)[accept := 0]
  }

  lemma AltRankIs(bs: seq<Branch>, accept: Node)
    requires SoundBranches(bs)
    ensures AltRank(bs, accept).Keys == Bodies(bs) + {accept} && AltRank(bs, accept)[accept] == 0
    ensures forall a :: a in Bodies(bs) && a != accept ==> AltRank(bs, accept)[a] == BranchRank(bs, a) + 1
  {
    hide Bodies;
    hide SoundBranches;
    hide BranchRank;
  }

  lemma AltRaised(bs: seq<Branch>, accept: Node, i: nat)
    requires SoundBranches(bs) && i < |bs| && bs[i].Body().Keys <= Bodies(bs) && accept !in bs[i].Body()
    ensures Raised(bs[i].Body(), SomeRank(bs[i].g), AltRank(bs, accept), 1)
  {
    var b := bs[i];
    var body, own, rank := b.Body(), SomeRank(b.g), AltRank(bs, accept);
    assert body.Keys <= own.Keys;
    AltRankIs(bs, accept);
    hide SoundBranches;
    hide Fragment;
    hide Ranked;
    hide Bodies;
    hide AltRank;
    hide BranchRank;
    forall a | a in body ensures a in own && a in rank && rank[a] == own[a] + 1 {
      OneBranch(bs, i, a);
    }
  }

  lemma EntryDescends(i: Inst, below: Rank, start: Node, h: Node)
    requires i.Tree? && h in Outs(i) && h in below && start !in below
    ensures Descends(i, below[start := Top(below)], Top(below))
  {
    assert Below(below[start := Top(below)], h, Top(below));
  }

  lemma PlacedDescends(b: Branch, rb: Rank, k: Graph, z: Node, below: Rank, start: Node, n: nat, a: Node)
    requires b.Valid() && Placed(b, k, z) && Ranked(b.g, rb) && Raised(b.Body(), rb, below, 1)
    requires z in below && below[z] == 0 && a in b.Body() && start !in below
    ensures a in k && a in below && Descends(k[a], below[start := n], below[a])
  {
    var rank := below[start := n];
    BodyClosed(b);
    hide Fragment;
    if a == b.t {
      assert Below(rank, z, rank[a]);
    } else {
      RaisedDescends(b.Body(), rb, rank, 1, a);
    }
  }

  /** The branches keep their order below the common entry. */
  lemma AltRanked(bs: seq<Branch>, xs: seq<Fork<Node>>, k: Graph, start: Node, accept: Node)
    requires Alternates(bs, xs, k, start, accept) && SoundBranches(bs)
    ensures Grounded(k)
  {
    hide Alternates;
    hide SoundBranches;
    hide AltRank;
    hide Descends;
    var below := AltRank(bs, accept);
    var rank := below[start := Top(below)];
    forall a | a in k ensures a in rank && Descends(k[a], rank, rank[a]) {
      AltNodeRanked(bs, xs, k, start, accept, a);
    }
    assert Ranked(k, rank);
  }

  lemma AltNodeRanked(bs: seq<Branch>, xs: seq<Fork<Node>>, k: Graph, start: Node, accept: Node, a: Node)
    requires Alternates(bs, xs, k, start, accept) && SoundBranches(bs) && a in k
    ensures var below := AltRank(bs, accept);
            var rank := below[start := Top(below)];
            a in rank && Descends(k[a], rank, rank[a])
  {
    AltEntryOut(bs, xs, k, start, accept);
    hide *;
    AltRankIs(bs, accept);
    AltEntryRanked(bs, xs, k, start, accept);
    var below := AltRank(bs, accept);
    var rank := below[start := Top(below)];
    if a == accept {
      AcceptDescends(rank, rank[a]);
    } else if a != start {
      AltBranchRanked(bs, xs, k, start, accept, a);
    }
  }

  lemma AcceptDescends(rank: Rank, n: nat)
    ensures Descends(Accept, rank, n)
  {
  }

  lemma AltEntryRanked(bs: seq<Branch>, xs: seq<Fork<Node>>, k: Graph, start: Node, accept: Node)
    requires Alternates(bs, xs, k, start, accept) && SoundBranches(bs)
    ensures var below := AltRank(bs, accept);
            start !in below && Descends(k[start], below[start := Top(below)], Top(below))
  {
    var h := SomeHead(bs, xs, k, start, accept);
    AltEntryOut(bs, xs, k, start, accept);
    AltRankIs(bs, accept);
    hide *;
    var below := AltRank(bs, accept);
    assert h in below;
    EntryDescends(k[start], below, start, h);
  }

  lemma SomeHead(bs: seq<Branch>, xs: seq<Fork<Node>>, k: Graph, start: Node, accept: Node) returns (h: Node)
    requires Alternates(bs, xs, k, start, accept)
    ensures h in Outs(k[start]) && h in Bodies(bs)
  {
    EntryHeads(bs, xs);
    h := Seen(Gathered(xs))[0];
    assert k[start] == Tree(Seen(Gathered(xs))) && h in Seen(Gathered(xs)) && h in Outs(k[start]);
    assert forall i :: 0 <= i < |bs| ==> bs[i].Valid();
    hide Alternates;
    hide AllPlaced;
    hide AllForked;
    hide Gathered;
    hide Seen;
    hide Fragment;
    var i := HeadOf(bs, h);
    BodyPlaced(bs, xs, k, start, accept, i);
    BodyClosed(bs[i]);
  }

  lemma AltEntryOut(bs: seq<Branch>, xs: seq<Fork<Node>>, k: Graph, start: Node, accept: Node)
    requires Alternates(bs, xs, k, start, accept)
    ensures start !in Bodies(bs) && start != accept && k[start].Tree?
    ensures k.Keys == Bodies(bs) + {start, accept} && k[accept] == Accept
  {
    hide Fragment;
  }

  lemma AltBranchRanked(bs: seq<Branch>, xs: seq<Fork<Node>>, k: Graph, start: Node, accept: Node, a: Node)
    requires Alternates(bs, xs, k, start, accept) && SoundBranches(bs) && a in Bodies(bs)
    ensures var below := AltRank(bs, accept);
            a != start && a in k && a in below && Descends(k[a], below[start := Top(below)], below[a])
  {
    var i := BranchOf(bs, a);
    BodyPlaced(bs, xs, k, start, accept, i);
    AltRaised(bs, accept, i);
    AltEntryRanked(bs, xs, k, start, accept);
    AltRankIs(bs, accept);
    var below := AltRank(bs, accept);
    var b, own := bs[i], SomeRank(bs[i].g);
    assert a != start && accept in k && a in b.Body();
    hide *;
    PlacedDescends(b, own, k, accept, below, start, Top(below), a);
  }

  // ---------------------------------------------------------------- fragments and their shapes

  /** A fragment whose entry, seen as x, leads to what y says. */
  ghost predicate ReadsShape(g: Graph, s: Node, t: Node, x: Fork<Node>, y: Shape) {
    Fragment(g, s, t) && Forked(Branch(g, s, t), x) && Alike(g, t, x, y)
  }

  lemma ShapeAccepts(g: Graph, s: Node, t: Node, x: Fork<Node>, y: Shape)
    requires ReadsShape(g, s, t, x, y)
    ensures Accepts(g, s, t, Means(y))
  {
    if x.Many? {
      ListAccepts(g, s, t, x.list, y.list);
    }
  }

  lemma PlainShape(g: Graph, s: Node, t: Node, e: Expr)
    requires Accepts(g, s, t, e) && s in g && !g[s].Tree?
    ensures ReadsShape(g, s, t, One(s), One(e))
  {
  }

  lemma AltShaped(bs: seq<Branch>, xs: seq<Fork<Node>>, ys: seq<Shape>, k: Graph, start: Node, accept: Node)
    requires Alternates(bs, xs, k, start, accept) && |ys| == |bs| >= 2
    requires forall i :: 0 <= i < |bs| ==> Alike(bs[i].g, bs[i].t, xs[i], ys[i])
    ensures ReadsShape(k, start, accept, Many(Gathered(xs)), AltShape(ys))
  {
    AltFragment(bs, xs, k, start, accept);
    AltAccepts(bs, xs, ys, k, start, accept);
    EntryHeads(bs, xs);
  }

  /** What follows an alternation can be taken to follow each of its heads. */
  lemma CatShaped(g: Graph, s1: Node, t1: Node, x: Fork<Node>, y: Shape, h: Graph, s2: Node, t2: Node, r: Expr)
    requires ReadsShape(g, s1, t1, x, y) && Accepts(h, s2, t2, r) && g.Keys !! h.Keys
    ensures ReadsShape(CatGraph(g, t1, h, s2), s1, t2, x, CatShape(y, r))
  {
    var k := CatGraph(g, t1, h, s2);
    CatFragment(g, s1, t1, h, s2, t2);
    ForkedHeads(Branch(g, s1, t1), x);
    BodyClosed(Branch(g, s1, t1));
    assert k[s1] == g[s1];
    hide HeadReads;
    forall a, e | a in HeadsIn(x) && HeadReads(g, t1, a, e) ensures HeadReads(k, t2, a, Cat(e, r)) {
      CatHead(g, s1, t1, a, e, h, s2, t2, r);
    }
    CatAlike(g, t1, k, t2, x, y, r);
    hide Fragment;
    hide CatGraph;
    hide Alike;
    hide CatShape;
  }

  lemma CatAlike(g: Graph, t1: Node, k: Graph, t2: Node, x: Fork<Node>, y: Shape, r: Expr)
    requires Alike(g, t1, x, y) && (x.Many? ==> Usable(x.list))
    requires forall a, e :: a in HeadsIn(x) && HeadReads(g, t1, a, e) ==> HeadReads(k, t2, a, Cat(e, r))
    ensures Alike(k, t2, x, CatShape(y, r))
  {
    hide HeadReads;
    if x.Many? {
      SeenIs(x.list);
      assert forall i :: 0 <= i < |x.list.items| ==> x.list.items[i] in HeadsIn(x);
    } else {
      assert x.head in HeadsIn(x);
    }
  }

  // ---------------------------------------------------------------- a silent entry

  function EntryGraph(g: Graph, s: Node, start: Node): Graph { g[start := Epsilon(s)] }

  lemma EntryAccepts(g: Graph, s: Node, t: Node, start: Node, r: Expr)
    requires Accepts(g, s, t, r) && Grounded(g) && start !in g
    ensures Accepts(EntryGraph(g, s, start), start, t, r) && Grounded(EntryGraph(g, s, start))
  {
    var k := EntryGraph(g, s, start);
    forall w ensures Reads(k, start, t, w) <==> In(r, w) {
      assert Confined(g, k, g.Keys);
      SameReads(g, k, g.Keys, s, t, w);
      if Reads(k, start, t, w) { var b := FirstSilent(k, start, t, w); }
      if Reads(k, s, t, w) { SilentThen(k, start, s, t, w); }
    }
    EntryRanked(g, s, t, start);
  }

  lemma EntryRanked(g: Graph, s: Node, t: Node, start: Node)
    requires Fragment(g, s, t) && Grounded(g) && start !in g
    ensures Grounded(EntryGraph(g, s, start))
  {
    var k, own := EntryGraph(g, s, start), SomeRank(g);
    var rank := own[start := Top(own)];
    FragmentEnds(g, s, t);
    assert Raised(g, own, rank, 0);
    assert Below(rank, s, rank[start]);
    forall a | a in k ensures Descends(k[a], rank, rank[a]) {
      if a != start { RaisedDescends(g, own, rank, 0, a); }
    }
    assert Ranked(k, rank);
  }
}
