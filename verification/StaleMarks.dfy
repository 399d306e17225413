/** Marks that a run leaves when it stops at its first match: the expression `(a|bc)+`, with neither -g
    nor -v nor -q, on the lines `abc` and `xbc`. */
module StaleMarks {
  import opened Regex
  import opened BranchLists
  import opened KeptBranches
  import opened NfaGraph
  import opened NfaConstruct
  import opened NfaAlloc
  import opened Nfa
  import opened EpsilonClosure
  import opened ThreadSpec
  import opened LongestMatches
  import opened RunSpec

  // ---------------------------------------------------------------- the compiled expression

  const A := Atom(Literal(97))
  const BC := Cat(Atom(Literal(98)), Atom(Literal(99)))

  function Pattern(): Expr { Plus(Alt([A, BC])) }

  /** The two branches side by side, from 7 to 8. */
  function Inner(): Graph {
    map[1 := Match(Literal(97), 2), 2 := Epsilon(8), 3 := Match(Literal(98), 4), 4 := Match(Literal(99), 6),
        6 := Epsilon(8), 7 := Tree([3, 1]), 8 := Accept]
  }

  /** The loop around them, from 9 to 10. */
  function Loop(): Graph { Inner()[8 := Split(7, 10)][9 := Epsilon(7)][10 := Accept] }

  function Cell(id: nat, value: Value, out1: Addr, out2: Addr, reachable: seq<Addr>): NFA {
    NFA(NULL, out1, out2, id, value, id != 0, false, 10 in reachable, reachable)
  }

  function Cells(): seq<NFA> {
    [ZERO,
     Cell(1, LITERAL(97), 2, 2, [3, 1, 10]), Cell(0, EPSILON, 8, 8, []),
     Cell(2, LITERAL(98), 4, 4, [4]), Cell(3, LITERAL(99), 6, 6, [3, 1, 10]), ZERO,
     Cell(0, EPSILON, 8, 8, []), Cell(0, TREE(BranchList([3, 1], 2, Last)), NULL, NULL, []),
     Cell(0, SPLIT, 7, 10, []), Cell(0, EPSILON, 7, 7, [3, 1]), Cell(4, ACCEPTING, NULL, NULL, [])]
  }

  function Compiled(): Program { Program(Cells(), Loop(), 9, 10, {1, 3, 4, 10}, 5) }

  lemma ClosureTree(m: set<Node>)
    requires m !! {1, 3, 7}
    ensures Closure(Loop(), 7, m) == {1, 3}
  {
    var g, n := Loop(), m + {7};
    assert g[7] == Tree([3, 1]) && Stops(g, 1) && Stops(g, 3);
    ClosureAtTree(g, 7, m);
    ClosureAtStop(g, 1, n);
    ClosureAtStop(g, 3, n);
    hide *;
    NoBranch(g, n);
    NextBranch(g, [], 3, n);
    NextBranch(g, [3], 1, n);
    assert [3] + [1] == [3, 1] && [] + [3] == [3];
  }

  lemma ClosureLoop()
    ensures Closure(Loop(), 8, {}) == {1, 3, 10}
  {
    var g := Loop();
    assert g[8] == Split(7, 10) && Stops(g, 10);
    ClosureAtSplit(g, 8, {});
    assert {} + {8} == {8};
    ClosureTree({8});
    ClosureAtStop(g, 10, {8});
    hide Closure;
  }

  lemma Closures()
    ensures Closure(Loop(), 9, {}) == {1, 3} && Closure(Loop(), 4, {}) == {4}
    ensures Closure(Loop(), 2, {}) == {1, 3, 10} && Closure(Loop(), 6, {}) == {1, 3, 10}
  {
    var g := Loop();
    assert g[9] == Epsilon(7) && g[2] == Epsilon(8) && g[6] == Epsilon(8) && Stops(g, 4);
    ClosureAtEpsilon(g, 9, {});
    ClosureAtEpsilon(g, 2, {});
    ClosureAtEpsilon(g, 6, {});
    ClosureAtStop(g, 4, {});
    ClosureTree({});
    ClosureLoop();
    hide Closure;
  }

  lemma ListsAre(m: Program, a: Addr, xs: seq<Addr>, c: set<Addr>)
    requires a < |m.nodes| && m.nodes[a].reachable == xs && c <= m.w
    requires (xs == [3, 1] && c == {1, 3}) || (xs == [3, 1, 10] && c == {1, 3, 10}) || (xs == [4] && c == {4})
    ensures m.Lists(a, c)
  {
    assert xs == [3, 1] ==> Nfa.Elements(xs) == {1, 3};
    assert xs == [3, 1, 10] ==> Nfa.Elements(xs) == {1, 3, 10};
  }

  lemma CellsRun(a: Addr)
    requires a in {1, 3, 4}
    ensures Compiled().Runs(a)
  {
    var m := Compiled();
    Closures();
    hide Closure;
    hide Program.Lists;
    assert m.nodes[a].out2 == (if a == 1 then 2 else if a == 3 then 4 else 6);
    ListsAre(m, a, m.nodes[a].reachable, if a == 3 then {4} else {1, 3, 10});
  }

  /** The lists are those of a program for the recognizer. */
  lemma CompiledValid()
    ensures Compiled().Valid()
  {
    var m := Compiled();
    Closures();
    hide Closure;
    hide Program.Lists;
    hide Program.Runs;
    ListsAre(m, 9, [3, 1], {1, 3});
    forall a | a in m.w && a != m.accept ensures m.Runs(a) { CellsRun(a); }
  }

  /** b and c in a row, from 3 to 6. */
  function Row(): Graph { map[3 := Match(Literal(98), 4), 4 := Match(Literal(99), 6), 6 := Accept] }

  lemma RowAccepts()
    ensures Accepts(Row(), 3, 6, BC)
  {
    var b, c := Literal(98), Literal(99);
    AtomAccepts(b, 3, 4);
    AtomAccepts(c, 5, 6);
    CatAccepts(AtomGraph(b, 3, 4), 3, 4, Atom(b), AtomGraph(c, 5, 6), 5, 6, Atom(c));
    hide Accepts;
    assert CatGraph(AtomGraph(b, 3, 4), 4, AtomGraph(c, 5, 6), 5) == Row();
  }

  lemma GatheredTwo<T>(x: T, y: T)
    ensures Gathered([One(x), One(y)]) == BranchList([x, y], 2, Last)
    ensures Seen(BranchList([x, y], 2, Last)) == [x, y]
  {
    var xs := [One(x), One(y)];
    assert xs[..1] == [One(x)] && xs[..1][..0] == [];
    assert Ones(xs[..1]) == [x] && Manys(xs[..1]) == [];
    assert Ones(xs) == [x, y] && Manys(xs) == [];
    SeenIs(BranchList([x, y], 2, Last));
  }

  lemma OneAlike(g: Graph, s: Node, t: Node, e: Expr)
    requires Accepts(g, s, t, e)
    ensures Alike(g, t, One(s), One(e))
  {
  }

  lemma PairAccepts(b: Branch, c: Branch, e: Expr, f: Expr, k: Graph, start: Node, accept: Node)
    requires Alternates([b, c], [One(b.s), One(c.s)], k, start, accept)
    requires Accepts(b.g, b.s, b.t, e) && Accepts(c.g, c.s, c.t, f)
    ensures Accepts(k, start, accept, Alt([e, f]))
  {
    var bs, xs, ys := [b, c], [One(b.s), One(c.s)], [One(e), One(f)];
    GatheredTwo(e, f);
    OneAlike(b.g, b.s, b.t, e);
    OneAlike(c.g, c.s, c.t, f);
    hide Alternates;
    hide Accepts;
    hide Alike;
    hide Gathered;
    hide Seen;
    forall i | 0 <= i < |bs| ensures Alike(bs[i].g, bs[i].t, xs[i], ys[i]) {
      if i == 0 { assert bs[i] == b; } else { assert bs[i] == c; }
    }
    AltAccepts(bs, xs, ys, k, start, accept);
  }

  lemma InnerAccepts()
    ensures Accepts(Inner(), 7, 8, Alt([BC, A]))
  {
    var b, c := Branch(Row(), 3, 6), Branch(AtomGraph(Literal(97), 1, 2), 1, 2);
    RowAccepts();
    AtomAccepts(Literal(97), 1, 2);
    assert b.Valid() && c.Valid();
    InnerBranch(b);
    InnerBranch(c);
    InnerKeys();
    hide *;
    PairAlternates(b, c, Inner(), 7, 8);
    PairAccepts(b, c, BC, A, Inner(), 7, 8);
  }

  /** A branch that is not an alternation, in its place. */
  lemma InnerBranch(b: Branch)
    requires b == Branch(Row(), 3, 6) || b == Branch(AtomGraph(Literal(97), 1, 2), 1, 2)
    requires b.Valid()
    ensures Placed(b, Inner(), 8) && 7 !in b.Body() && Forked(b, One(b.s))
    ensures b.Body().Keys == if b.s == 3 then {3, 4, 6} else {1, 2}
  {
    hide Fragment;
    assert !b.Nested() && b.Body() == b.g;
  }

  lemma PairAlternates(b: Branch, c: Branch, k: Graph, start: Node, accept: Node)
    requires b.Valid() && Placed(b, k, accept) && start !in b.Body() && Forked(b, One(b.s))
    requires c.Valid() && Placed(c, k, accept) && start !in c.Body() && Forked(c, One(c.s))
    requires start in k && start != accept && accept in k && k[accept] == Accept && k[start] == Tree([b.s, c.s])
    requires k.Keys == b.Body().Keys + c.Body().Keys + {start, accept}
    ensures Alternates([b, c], [One(b.s), One(c.s)], k, start, accept)
  {
    var bs, xs := [b, c], [One(b.s), One(c.s)];
    GatheredTwo(b.s, c.s);
    hide Fragment;
    hide Extends;
    hide Closed;
    forall i | 0 <= i < |bs| ensures bs[i] == if i == 0 then b else c {}
    assert forall i :: 0 <= i < |bs| ==> bs[i].Valid();
    TwoBodies(bs, b, c);
    forall i | 0 <= i < |bs|
      ensures bs[i].Valid() && Placed(bs[i], k, accept) && start !in bs[i].Body() && Forked(bs[i], xs[i])
    {
      if i == 0 { assert bs[i] == b; } else { assert bs[i] == c; }
    }
    hide Branch.Valid;
    hide Placed;
    hide Forked;
    hide Gathered;
    hide Seen;
    hide Branch.Body;
    hide Bodies;
    assert AllPlaced(bs, k, start, accept) && AllForked(bs, xs);
  }

  lemma InnerKeys()
    ensures Inner().Keys == {1, 2, 3, 4, 6, 7, 8} && Inner()[8] == Accept && Inner()[7] == Tree([3, 1])
  {
  }

  lemma TwoBodies(bs: seq<Branch>, b: Branch, c: Branch)
    requires bs == [b, c] && b.Valid() && c.Valid() && forall i :: 0 <= i < |bs| ==> bs[i].Valid()
    ensures Bodies(bs) == b.Body().Keys + c.Body().Keys
  {
    hide Branch.Valid;
    hide Branch.Body;
    assert bs[0] == b && bs[1] == c;
    forall a | a in Bodies(bs) ensures a in b.Body().Keys + c.Body().Keys {
      InOne(bs, b, c, a);
    }
    forall a | a in b.Body().Keys + c.Body().Keys ensures a in Bodies(bs) {
      InBoth(bs, if a in b.Body() then 0 else 1, a);
    }
  }

  lemma InBoth(bs: seq<Branch>, i: nat, a: Node)
    requires (forall i :: 0 <= i < |bs| ==> bs[i].Valid()) && i < |bs| && a in bs[i].Body()
    ensures a in Bodies(bs)
  {
    hide Branch.Valid;
    hide Branch.Body;
  }

  lemma InOne(bs: seq<Branch>, b: Branch, c: Branch, a: Node)
    requires bs == [b, c] && b.Valid() && c.Valid() && forall i :: 0 <= i < |bs| ==> bs[i].Valid()
    requires a in Bodies(bs)
    ensures a in b.Body() || a in c.Body()
  {
    var i := BranchOf(bs, a);
    hide Branch.Valid;
    hide Branch.Body;
    hide Bodies;
    if i == 0 { assert bs[i] == b; } else { assert bs[i] == c; }
  }

  /** And the program accepts what is built for the pattern, which has all its words. */
  lemma CompiledAccepts()
    ensures Accepts(Loop(), 9, 10, Built(Pattern())) && SameWords(Built(Pattern()), Pattern())
  {
    InnerAccepts();
    PatternBuilt();
    assert SameFrom(Inner(), 7, 7, 8);
    assert Fresh(Inner(), 9, 10);
    hide Accepts;
    PlusAccepts(Inner(), 7, 8, 7, 9, 10, Alt([BC, A]));
    assert PlusGraph(Inner(), 7, 8, 7, 9, 10) == Loop();
    NothingLost(Pattern());
  }

  lemma PatternBuilt()
    ensures Built(Pattern()) == Plus(Alt([BC, A])) && KeepsBranches(Pattern())
  {
    var rs := [A, BC];
    ShapesAt(rs, 0);
    ShapesAt(rs, 1);
    assert Shapes(rs) == [One(BC), One(A)];
    GatheredTwo(BC, A);
    hide Gathered;
    hide Seen;
  }

  // ---------------------------------------------------------------- two lines

  const FIRST: Word := [97, 98, 99, EOL]
  const SECOND: Word := [120, 98, 99, EOL]
  const NO_MARKS: seq<Pos> := [NIL, NIL, NIL, NIL, NIL]

  /** The node of b is marked for position 1. */
  const B_MARKED: seq<Pos> := [NIL, NIL, 1, NIL, NIL]

  lemma CompiledNodes()
    ensures var m := Compiled();
            && m.Valid() && m.ids == 5 && |m.nodes| == 11 && First(m) == [3, 1] && m.accept == 10
            && m.nodes[1] == Cell(1, LITERAL(97), 2, 2, [3, 1, 10])
            && m.nodes[3] == Cell(2, LITERAL(98), 4, 4, [4])
            && m.nodes[10] == Cell(4, ACCEPTING, NULL, NULL, [])
  {
    CompiledValid();
  }

  lemma LoadsTwo(text: Word, sp: seq<Pos>, i: nat)
    requires |sp| == 5 && i <= |text|
    ensures var m := Compiled();
            && m.Valid() && m.ids == 5 && First(m) == [3, 1] && |m.nodes| == 11
            && m.nodes[3].id == 2 && m.nodes[1].id == 1
            && LoadStart(m, text, sp, 2, i) == LoadOne(m, text, LoadOne(m, text, Sim([], [], sp), 3, i), 1, i)
  {
    CompiledNodes();
    var m := Compiled();
    hide LoadOne;
    hide Program.Valid;
    assert LoadStart(m, text, sp, 0, i) == Sim([], [], sp);
    assert LoadStart(m, text, sp, 1, i) == LoadOne(m, text, Sim([], [], sp), 3, i);
  }

  /** At the beginning of the first line the thread of a is loaded. */
  lemma FirstLoaded()
    ensures var m := Compiled();
            && m.Valid() && m.ids == 5 && |First(m)| == 2
            && LoadStart(m, FIRST, NO_MARKS, 2, 0) == Sim([Task(1, NIL, NIL)], [], NO_MARKS[1 := 0])
  {
    LoadsTwo(FIRST, NO_MARKS, 0);
    CompiledNodes();
    hide Program.Valid;
    hide LoadStart;
    hide Compiled;
  }

  lemma SecondChars(i: nat)
    requires i <= |SECOND|
    ensures CharAt(SECOND, i) != 97 && (CharAt(SECOND, i) == 98 ==> i == 1)
  {
  }

  /** A node that does not fit, or is marked for the position, is left out. */
  lemma NotLoaded(m: Program, text: Word, q: Sim, x: Addr, c: Letter, i: nat)
    requires x < |m.nodes| && m.nodes[x].id < |q.sp| && i <= |text| && m.nodes[x].value == LITERAL(c)
    requires CharAt(text, i) == c ==> q.sp[m.nodes[x].id] == i
    ensures LoadOne(m, text, q, x, i) == q
  {
  }

  /** With that mark, no thread is loaded anywhere on the second line. */
  lemma SecondLoaded(i: nat)
    requires i <= |SECOND|
    ensures var m := Compiled();
            && m.Valid() && m.ids == 5 && |First(m)| == 2
            && LoadStart(m, SECOND, B_MARKED, 2, i) == Sim([], [], B_MARKED)
  {
    LoadsTwo(SECOND, B_MARKED, i);
    CompiledNodes();
    SecondChars(i);
    var m, q := Compiled(), Sim([], [], B_MARKED);
    assert |SECOND| == 4 && |B_MARKED| == 5 && B_MARKED[2] == 1 && |First(m)| == 2;
    hide *;
    NotLoaded(m, SECOND, q, 3, 98, i);
    NotLoaded(m, SECOND, q, 1, 97, i);
  }

  const START := Task(1, NIL, NIL)
  const DONE := Task(10, 0, 0)
  const NEXT := Task(3, 0, 0)

  /** The thread of a has consumed its character: the accepting node and b are queued, and b is marked. */
  lemma FirstStep()
    ensures var m := Compiled();
            && m.Valid() && m.ids == 5 && START.ip in m.w
            && Stepped(m, FIRST, Sim([], [], NO_MARKS[1 := 0]), START, 0, Sim([DONE], [NEXT], B_MARKED), 0)
  {
    var m := Compiled();
    CompiledNodes();
    var q, u := Sim([], [], NO_MARKS), Consumed(START, 0);
    assert u == Task(1, 0, 0);
    assert Adjacents(m, 1) == [1, 10, 3];
    assert NO_MARKS[1 := 0][1 := NIL] == NO_MARKS;
    AdjacentsQueueable(m, q, 1);
    SuccessorsQueued(m, q, u);
    assert QueuedAll(m, FIRST, q, 1, u, 1) == Sim([DONE], [NEXT], B_MARKED);
    hide Program.Valid;
    hide QueuedAll;
    assert LabelOf(m.nodes[1].value) == Literal(97) && FIRST[0] == 97;
    assert Dispatched(m, FIRST, q, START, 0, Sim([DONE], [NEXT], B_MARKED), 0);
  }

  lemma SuccessorsQueued(m: Program, q: Sim, u: Task)
    requires m == Compiled() && m.Valid() && q == Sim([], [], NO_MARKS) && u == Task(1, 0, 0)
    requires Queueable(m, q, [1, 10, 3])
    ensures QueueAll(m, FIRST, q, [1, 10, 3], u, true, 1) == Sim([DONE], [NEXT], B_MARKED)
  {
    CompiledNodes();
    QueuesThree(m, q, u);
    assert [] + [1] == [1] && [1] + [10] == [1, 10] && [1, 10] + [3] == [1, 10, 3];
    hide Queue;
    hide Program.Valid;
    hide Compiled;
    hide Cells;
    QueueAllStep(m, FIRST, q, [1, 10], 3, u, true, 1);
    QueueAllStep(m, FIRST, q, [1], 10, u, true, 1);
    QueueAllStep(m, FIRST, q, [], 1, u, true, 1);
    QueueAllNone(m, FIRST, q, u, true, 1);
  }

  lemma QueuesThree(m: Program, q: Sim, u: Task)
    requires |m.nodes| == 11 && q == Sim([], [], NO_MARKS) && u == Task(1, 0, 0)
    requires m.nodes[1] == Cell(1, LITERAL(97), 2, 2, [3, 1, 10]) && m.nodes[3] == Cell(2, LITERAL(98), 4, 4, [4])
    requires m.nodes[10] == Cell(4, ACCEPTING, NULL, NULL, [])
    ensures Queue(m, FIRST, q, 1, u, true, 1) == q
    ensures Queue(m, FIRST, q, 10, u, true, 1) == Sim([DONE], [], NO_MARKS)
    ensures Queue(m, FIRST, Sim([DONE], [], NO_MARKS), 3, u, true, 1) == Sim([DONE], [NEXT], B_MARKED)
  {
    assert NO_MARKS[2 := 1] == B_MARKED && [] + [DONE] == [DONE] && [] + [NEXT] == [NEXT];
    assert CharAt(FIRST, 1) == 98;
  }

  /** The thread on the accepting node reports a match, which ends the run. */
  lemma FirstReports()
    ensures var m, q := Compiled(), Sim([], [NEXT], B_MARKED);
            m.Valid() && m.ids == 5 && DONE.ip in m.w && Stepped(m, FIRST, q, DONE, 0, q, 1)
  {
    CompiledNodes();
    assert B_MARKED[4 := NIL] == B_MARKED;
    hide Program.Valid;
  }

  /** `(a|bc)+` on `abc` and then on `xbc`: the first run stops at its first match with b marked for
      position 1, and from these marks no attempt on the second line loads a thread, although bc is
      there at that position. */
  lemma SecondLineMissed(i: nat)
    requires i <= |SECOND|
    ensures var m := Compiled();
            && m.Valid() && m.ids == 5 && |First(m)| == 2 && START.ip in m.w && DONE.ip in m.w
            && Accepts(m.g, m.start, m.accept, Built(Pattern())) && SameWords(Built(Pattern()), Pattern())
            && Line(FIRST) && LoadStart(m, FIRST, NO_MARKS, 2, 0) == Sim([START], [], NO_MARKS[1 := 0])
            && Stepped(m, FIRST, Sim([], [], NO_MARKS[1 := 0]), START, 0, Sim([DONE], [NEXT], B_MARKED), 0)
            && Stepped(m, FIRST, Sim([], [NEXT], B_MARKED), DONE, 0, Sim([], [NEXT], B_MARKED), 1)
            && Line(SECOND) && MatchesAt(Pattern(), SECOND, 1, 3)
            && LoadStart(m, SECOND, B_MARKED, 2, i) == Sim([], [], B_MARKED)
  {
    CompiledAccepts();
    FirstLoaded();
    FirstStep();
    FirstReports();
    SecondLoaded(i);
    SecondMatches();
    hide *;
  }

  lemma SecondMatches()
    ensures Line(FIRST) && Line(SECOND) && MatchesAt(Pattern(), SECOND, 1, 3)
  {
    var w := SECOND[1..3];
    assert w == [98, 99] && w[..1] == [98] && w[1..] == [99] && w[..2] == w && w[2..] == [];
    BcWord(w);
    var r := Alt([A, BC]);
    assert r.branches[1] == BC && In(r.branches[1], w);
    assert In(r, w[..2]) && InStar(r, w[2..]);
    assert Pattern() == Plus(r) && In(Pattern(), w);
  }

  lemma BcWord(w: Word)
    requires w == [98, 99]
    ensures In(BC, w)
  {
    assert w[..1] == [98] && w[1..] == [99];
    assert In(Atom(Literal(98)), w[..1]) && In(Atom(Literal(99)), w[1..]);
  }
}
