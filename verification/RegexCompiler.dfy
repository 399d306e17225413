/** parse_regex together with compile_regex: from an expression to nodes whose lists, and nothing
    else, decide what the recognizer does. */
module RegexCompiler {
  import opened Bytes
  import opened Regex
  import opened KeptBranches
  import opened NfaGraph
  import opened NfaConstruct
  import opened NfaAlloc
  import opened Nfa
  import opened RegexParser
  import opened EpsilonClosure
  import opened Simulation
  import opened Compile
  import opened ThreadSpec

  /** The nodes that the lists lead to, from the start node, when the word w is read. */
  ghost function Occupied(nodes: seq<NFA>, start: Addr, w: Word): set<Addr>
    requires start < |nodes|
    decreases |w|
  {
    if w == [] then Nfa.Elements(nodes[start].reachable)
    else
      var before, c := Occupied(nodes, start, w[..|w| - 1]), w[|w| - 1];
      set a, x | a in before && x in Moves(nodes, a, c) :: x
  }

  ghost function Moves(nodes: seq<NFA>, a: Addr, c: Byte): set<Addr> {
    if a < |nodes| && Consuming(nodes[a].value) && LabelOf(nodes[a].value).Accepts(c) then
      Nfa.Elements(nodes[a].reachable)
    else {}
  }

  /** The lists lead exactly where the graph with its silent nodes leads. */
  lemma {:induction false} OccupiedLive(m: Program, w: Word, p: nat)
    requires m.Valid() && p <= |w|
    ensures m.start < |m.nodes| && Occupied(m.nodes, m.start, w[..p]) == Live(m.g, m.start, w, 0, p)
    ensures Live(m.g, m.start, w, 0, p) <= m.w
    decreases p
  {
    LiveIn(m, w, 0, p);
    if p == 0 {
      assert w[..0] == [];
    } else {
      OccupiedLive(m, w, p - 1);
      LiveIn(m, w, 0, p - 1);
      assert w[..p][..p - 1] == w[..p - 1];
      var c := w[p - 1];
      forall a | a in m.w ensures Moves(m.nodes, a, c) == Step(m.g, a, c) {
        MovesSteps(m, a, c);
      }
      hide Moves;
      hide Step;
      hide Program.Valid;
    }
  }

  lemma MovesSteps(m: Program, a: Addr, c: Byte)
    requires m.Valid() && a in m.w
    ensures Moves(m.nodes, a, c) == Step(m.g, a, c)
  {
    hide Closure;
    if a != m.accept {
      assert m.Runs(a);
    }
  }

  /** The lists of a compiled expression accept exactly its words. */
  lemma ListsAccept(m: Program, r: Expr, w: Word)
    requires m.Valid() && Accepts(m.g, m.start, m.accept, r)
    ensures m.start < |m.nodes| && (m.accept in Occupied(m.nodes, m.start, w) <==> In(r, w))
  {
    OccupiedLive(m, w, |w|);
    assert w[..|w|] == w && w[0..|w|] == w;
    LiveAccepts(m.g, m.start, m.accept, r, w, 0, |w|);
  }

  // ---------------------------------------------------------------- from the parser to the compiler

  ghost function SceneOf(nodes: seq<NFA>, accept: Addr, d: set<Addr>): Scene
    requires (forall a :: a in d ==> a < |nodes|) && Grounded(View(nodes, d))
  {
    Scene(d, View(nodes, d), SomeRank(View(nodes, d)), accept)
  }

  /** What the parser hands over can be compiled. */
  lemma ReadySearchable(nodes: seq<NFA>, next: nat, accept: Addr, d: set<Addr>, r: Expr)
    requires Ready(nodes, next, accept, d, r)
    ensures (forall a :: a in d ==> a < |nodes|) && Grounded(View(nodes, d)) && Clean(nodes)
    ensures Searchable(nodes, SceneOf(nodes, accept, d)) && Numbered(nodes, d, next)
    ensures var start := nodes[accept].parent; start in d && start != accept && !Consuming(nodes[start].value)
    ensures Accepts(View(nodes, d), nodes[accept].parent, accept, r) && Labelled(nodes, next, accept, d)
  {
    ViewIs(nodes, d);
    FragmentEnds(View(nodes, d), nodes[accept].parent, accept);
    OneExit(View(nodes, d), nodes[accept].parent, accept, r);
    LabelledNumbered(nodes, next, accept, d);
    hide View;
    hide Ranked;
    hide Closed;
    hide Accepts;
    hide Labelled;
    hide Numbered;
  }

  lemma OneExit(g: Graph, start: Addr, accept: Addr, r: Expr)
    requires Accepts(g, start, accept, r)
    ensures forall a :: a in g && g[a] == Accept ==> a == accept
  {
  }

  lemma LabelledNumbered(nodes: seq<NFA>, next: nat, accept: Addr, d: set<Addr>)
    requires (forall a :: a in d ==> a < |nodes|) && Labelled(nodes, next, accept, d)
    ensures Numbered(nodes, d, next)
  {
  }

  // ---------------------------------------------------------------- from the compiler to the recognizer

  /** What the compiler leaves is a program for the recognizer. */
  lemma CompiledValid(n0: seq<NFA>, n: seq<NFA>, s: Scene, start: Addr, w: set<Addr>, ids: nat)
    requires Compiled(n, s, start, w) && SameGraph(n0, n)
    requires (forall a :: a in s.d ==> a < |n0|) && Labelled(n0, ids, s.accept, s.d)
    ensures Program(n, s.g, start, s.accept, w, ids).Valid()
  {
    var m := Program(n, s.g, start, s.accept, w, ids);
    forall a | a in w && a != s.accept ensures m.Runs(a) {
      CompiledRuns(n, s, start, a, w, m);
    }
    CompiledLists(n, s, start, start, w, m);
    SearchableExit(n, s);
    CompiledNumbers(n0, n, s, start, w, ids);
    hide Program.Lists;
    hide Program.Runs;
    hide Compiled;
    hide Labelled;
  }

  lemma CompiledStops(n0: seq<NFA>, n: seq<NFA>, s: Scene, start: Addr, w: set<Addr>)
    requires Compiled(n, s, start, w) && SameGraph(n0, n)
    ensures forall a :: a in w ==> a in s.d && a < |n0| && a < |n| && Stop(n0, s.accept, a) && n[a].id == n0[a].id
  {
    hide Closure;
    hide Listed;
    hide View;
    hide Ranked;
    hide Closed;
    forall a | a in w ensures a in s.d && a < |n0| && a < |n| && Stop(n0, s.accept, a) && n[a].id == n0[a].id {}
  }

  lemma SearchableExit(n: seq<NFA>, s: Scene)
    requires Searchable(n, s)
    ensures s.accept in s.g && s.g[s.accept] == Accept && s.accept < |n| && n[s.accept].value == ACCEPTING
  {
    ViewIs(n, s.d);
    hide View;
    hide Ranked;
    hide Closed;
  }

  lemma CompiledNumbers(n0: seq<NFA>, n: seq<NFA>, s: Scene, start: Addr, w: set<Addr>, ids: nat)
    requires Compiled(n, s, start, w) && SameGraph(n0, n)
    requires (forall a :: a in s.d ==> a < |n0|) && Labelled(n0, ids, s.accept, s.d)
    ensures forall a :: a in w ==> a < |n| && n[a].id < ids
    ensures forall a, b :: a in w && b in w && a != b ==> n[a].id != n[b].id
  {
    CompiledStops(n0, n, s, start, w);
    hide Compiled;
    hide SameGraph;
  }

  lemma CompiledRuns(n: seq<NFA>, s: Scene, start: Addr, a: Addr, w: set<Addr>, m: Program)
    requires Compiled(n, s, start, w) && a in w && a != s.accept && m.nodes == n && m.g == s.g && m.w == w
    ensures m.Runs(a)
  {
    ViewIs(n, s.d);
    hide Closure;
    hide View;
    hide Ranked;
    hide Listed;
    assert n[a].out2 in Outs(s.g[a]);
    CompiledLists(n, s, a, n[a].out2, w, m);
    hide Program.Lists;
  }

  lemma CompiledLists(n: seq<NFA>, s: Scene, a: Addr, from: Addr, w: set<Addr>, m: Program)
    requires Searchable(n, s) && from in s.d && Listed(n, a, Closure(s.g, from, {}), s.accept)
    requires Closure(s.g, from, {}) <= w && m.nodes == n && m.w == w
    ensures m.Lists(a, Closure(s.g, from, {}))
  {
    ViewIs(n, s.d);
    var x := ClosureNonempty(s.g, s.rank, from);
    hide Closure;
    assert x in Nfa.Elements(n[a].reachable);
  }

  /** parse_regex and compile_regex: the nodes are those of a program that accepts what is built for r:
      the words of r, if its alternations keep their branches, and never any others. */
  method CompileRegex(r: Expr, num: nat) returns (ctrl: NFACtrl, start: Addr, total: nat, ghost m: Program)
    requires Proper(r) && 0 < num
    ensures fresh(ctrl) && m.Valid() && m.nodes == ctrl.nodes && m.start == start && m.ids == total
    ensures Accepts(m.g, m.start, m.accept, Built(r))
    ensures forall w :: start < |ctrl.nodes| && (m.accept in Occupied(ctrl.nodes, start, w) <==> In(Built(r), w))
    ensures forall w :: In(Built(r), w) ==> In(r, w)
    ensures KeepsBranches(r) ==> SameWords(Built(r), r)
  {
    var accept;
    ghost var d, e := {}, Built(r);
    ctrl, accept, d := ParseRegex(r, num);
    ghost var n0 := ctrl.nodes;
    ReadySearchable(n0, ctrl.nextSeqId, accept, d, e);
    total := ctrl.nextSeqId;
    ghost var s := SceneOf(n0, accept, d);
    start := ctrl.nodes[accept].parent;
    hide *;
    ghost var w := CollectAdjacencies(ctrl, start, total, s);
    CompiledValid(n0, ctrl.nodes, s, start, w, total);
    m := Program(ctrl.nodes, s.g, start, accept, w, total);
    forall v: Word ensures start < |ctrl.nodes| && (m.accept in Occupied(ctrl.nodes, start, v) <==> In(e, v)) {
      ListsAccept(m, e, v);
    }
    forall v: Word | In(e, v) ensures In(r, v) { NothingAdded(r, v); }
    if KeepsBranches(r) { NothingLost(r); }
  }
}
