/** What a run of the recognizer keeps and reports, on values: the steps of thread_step and
    load_start_states, match attempts, what is held and what is printed. */
module RunSpec {
  import opened Bytes
  import opened Regex
  import opened NfaConstruct
  import opened NfaAlloc
  import opened Nfa
  import opened EpsilonClosure
  import opened Simulation
  import opened ThreadSpec
  import opened ThreadLists
  import opened LongestMatches

  /** The command-line options that run_nfa looks at. */
  datatype Flags = Flags(silent: bool, invert: bool, showLine: bool, mglobal: bool) {

    /** INDIVIDUAL_MATCHES: the option -o, and neither -q nor -v */
    predicate Individual() { !silent && !invert && !showLine }

    /** No line is read after a run that stopped early: runs go on, or the file is left. */
    predicate Lasting() { mglobal || invert || silent }
  }

  // -------------------------------------------------------------- one step of a thread

  lemma NumberInUse(m: Program, x: Addr)
    requires m.Valid() && x in m.w
    ensures x < |m.nodes| && m.nodes[x].id < m.ids
    ensures x != m.accept ==> Consuming(m.nodes[x].value)
    ensures x == m.accept ==> m.nodes[x].value == ACCEPTING
  {
    if x != m.accept { assert m.Runs(x); }
  }

  /** The nodes in the order in which process_adjacents takes them. */
  ghost function Adjacents(m: Program, a: Addr): seq<Addr>
    requires m.Valid() && a in m.w && a != m.accept
  {
    assert m.Runs(a);
    m.nodes[a].reachable[1..] + [m.nodes[a].reachable[0]]
  }

  lemma AdjacentsQueueable(m: Program, q: Sim, a: Addr)
    requires m.Valid() && a in m.w && a != m.accept && |q.sp| == m.ids
    ensures Queueable(m, q, Adjacents(m, a)) && a < |m.nodes| && m.nodes[a].reachable != []
    ensures forall i :: 1 <= i <= |m.nodes[a].reachable| ==> Queueable(m, q, m.nodes[a].reachable[1..i])
    ensures forall i :: 1 <= i < |m.nodes[a].reachable| ==>
              Queueable(m, q, m.nodes[a].reachable[1..i] + [m.nodes[a].reachable[i]])
    ensures Adjacents(m, a) == m.nodes[a].reachable[1..] + [m.nodes[a].reachable[0]]
  {
    assert m.Runs(a);
    var xs := m.nodes[a].reachable;
    forall i | 0 <= i < |xs| ensures xs[i] in m.w {
      assert xs[i] in Nfa.Elements(xs);
    }
  }

  /** The queues after all successors of a have been taken. */
  ghost function QueuedAll(m: Program, text: Word, q: Sim, a: Addr, t: Task, look: Pos): Sim
    requires m.Valid() && a in m.w && a != m.accept && |q.sp| == m.ids && 0 <= look <= |text|
  {
    AdjacentsQueueable(m, q, a);
    QueueAll(m, text, q, Adjacents(m, a), t, true, look)
  }

  /** What a step does to the queues, once the mark of the thread's node is cleared. */
  ghost predicate Dispatched(m: Program, text: Word, q0: Sim, t: Task, p: nat, q1: Sim, status: int)
    requires m.Valid() && t.ip in m.w && |q0.sp| == m.ids && p <= |text|
  {
    NumberInUse(m, t.ip);
    if CharAt(text, p) == NUL || t.ip == m.accept then status == 1 && q1 == q0
    else if p < |text| && LabelOf(m.nodes[t.ip].value).Accepts(text[p]) then
      q1 == QueuedAll(m, text, q0, t.ip, Consumed(t, p), p + 1) && status in {-1, 0}
    else q1 == q0 && status == -1
  }

  ghost predicate Stepped(m: Program, text: Word, q0: Sim, t: Task, p: nat, q1: Sim, status: int)
    requires m.Valid() && t.ip in m.w && |q0.sp| == m.ids && p <= |text|
  {
    NumberInUse(m, t.ip);
    Dispatched(m, text, q0.(sp := q0.sp[m.nodes[t.ip].id := NIL]), t, p, q1, status)
  }

  /** The successors in the list of a node are those that follow it in the graph. */
  lemma AdjacentsStep(m: Program, a: Addr, c: Byte)
    requires m.Valid() && a in m.w && a != m.accept && a < |m.nodes| && Consuming(m.nodes[a].value)
    ensures LabelOf(m.nodes[a].value).Accepts(c) ==> Nfa.Elements(Adjacents(m, a)) == Step(m.g, a, c)
    ensures !LabelOf(m.nodes[a].value).Accepts(c) ==> Step(m.g, a, c) == {}
    ensures forall k :: 0 <= k < |Adjacents(m, a)| ==> Adjacents(m, a)[k] in m.w
  {
    assert m.Runs(a);
    var xs := m.nodes[a].reachable;
    assert xs == [xs[0]] + xs[1..];
    hide Closure;
    forall k | 0 <= k < |xs| ensures xs[k] in m.w {
      assert xs[k] in Nfa.Elements(xs);
    }
  }

  /** A step keeps the invariant of the attempt, and the threads that have still to look at the
      character get fewer, or they stay as many and the list gets shorter. */
  lemma AfterThreadStep(m: Program, text: Word, t: Task, q0: Sim, q1: Sim, status: int,
                        i: nat, p: nat, done: set<Addr>, found: set<nat>)
    requires m.Valid() && Line(text) && Attempt(m, text, [t] + q0.active, q0.next, q0.sp, i, p, done, found)
    requires t.ip in m.w && |q0.sp| == m.ids && Stepped(m, text, q0, t, p, q1, status)
    ensures status == 1 ==> t.ip == m.accept && i <= End(t, i) <= p + 1
    ensures status == 1 ==> q1.active == q0.active && FoundBelow(m, text, found, i, End(t, i))
    ensures status == 1 ==> Attempt(m, text, q1.active, q1.next, q1.sp, i, p, done, found + {End(t, i) as nat})
    ensures status != 1 ==> t.ip != m.accept && Attempt(m, text, q1.active, q1.next, q1.sp, i, p, done + {t.ip}, found)
    ensures status != 1 ==> Consumers(m.accept, q1.active) < Consumers(m.accept, [t] + q0.active)
  {
    NumberInUse(m, t.ip);
    ConsumersFirst(m.accept, t, q0.active);
    assert CharAt(text, p) == text[p] && text[p] != NUL;
    var q := q0.(sp := q0.sp[m.nodes[t.ip].id := NIL]);
    if t.ip == m.accept {
      StepReports(m, text, t, q0.active, q0.next, q0.sp, i, p, done, found);
    } else {
      AdjacentsStep(m, t.ip, text[p]);
      if LabelOf(m.nodes[t.ip].value).Accepts(text[p]) {
        StepPasses(m, text, t, q0.active, q0.next, q0.sp, i, p, done, found, Adjacents(m, t.ip));
        assert q == Sim(q0.active, q0.next, q0.sp[m.nodes[t.ip].id := NIL]);
        assert q1 == QueueAll(m, text, q, Adjacents(m, t.ip), Consumed(t, p), true, p + 1);
        ConsumersMore(m.accept, q0.active, q1.active);
      } else {
        StepStops(m, text, t, q0.active, q0.next, q0.sp, i, p, done, found);
      }
    }
  }

  /** is_literal_in_range */
  predicate IsLiteralInRange(cs: set<Byte>, c: Byte) { c < SIZE_OF_LOCALE && c in cs }

  /** The tests of thread_step on the current character, by node type. */
  predicate AcceptsInput(v: Value, c: Byte) {
    match v
    case ANY => c != EOL
    case LITERAL(x) => c == x
    case RANGE(cs) => c != EOL && IsLiteralInRange(cs, c)
    case _ => false
  }

  lemma InputIsLabel(v: Value, c: Byte)
    ensures Consuming(v) ==> (AcceptsInput(v, c) <==> LabelOf(v).Accepts(c))
  {
  }

  lemma HasInput(text: Word, p: nat)
    requires p <= |text|
    ensures CharAt(text, p) != NUL ==> p < |text|
  {
  }

  lemma DispatchedOn(m: Program, text: Word, q0: Sim, t: Task, p: nat, q1: Sim, status: int, v: Value, c: Byte)
    requires m.Valid() && t.ip in m.w && t.ip != m.accept && |q0.sp| == m.ids && p < |text| && t.ip < |m.nodes|
    requires v == m.nodes[t.ip].value && c == CharAt(text, p) && c != NUL && AcceptsInput(v, c) && status in {-1, 0}
    requires q1 == QueuedAll(m, text, q0, t.ip, Consumed(t, p), p + 1)
    ensures Dispatched(m, text, q0, t, p, q1, status)
  {
    NumberInUse(m, t.ip);
    InputIsLabel(v, c);
    hide QueuedAll;
  }

  lemma DispatchedStop(m: Program, text: Word, q: Sim, t: Task, p: nat, status: int, v: Value, c: Byte)
    requires m.Valid() && t.ip in m.w && |q.sp| == m.ids && p <= |text| && t.ip < |m.nodes|
    requires v == m.nodes[t.ip].value && c == CharAt(text, p)
    requires if c == NUL || v == ACCEPTING then status == 1 else status == -1 && !AcceptsInput(v, c)
    ensures Dispatched(m, text, q, t, p, q, status)
  {
    NumberInUse(m, t.ip);
    InputIsLabel(v, c);
  }

  /** The queues after the successors 1 to i - 1 have been taken. */
  ghost function QueuedTo(m: Program, text: Word, q: Sim, a: Addr, i: nat, t: Task, look: Pos): Sim
    requires m.Valid() && a in m.w && a != m.accept && |q.sp| == m.ids && 0 <= look <= |text|
    requires a < |m.nodes| && 1 <= i <= |m.nodes[a].reachable|
  {
    AdjacentsQueueable(m, q, a);
    QueueAll(m, text, q, m.nodes[a].reachable[1..i], t, true, look)
  }

  lemma QueuedNone(m: Program, text: Word, q: Sim, a: Addr, t: Task, look: Pos)
    requires m.Valid() && a in m.w && a != m.accept && |q.sp| == m.ids && 0 <= look <= |text|
    ensures a < |m.nodes| && 1 <= |m.nodes[a].reachable| && QueuedTo(m, text, q, a, 1, t, look) == q
  {
    AdjacentsQueueable(m, q, a);
    assert m.nodes[a].reachable[1..1] == [];
    QueueAllNone(m, text, q, t, true, look);
  }

  lemma QueuedNext(m: Program, text: Word, q: Sim, a: Addr, i: nat, t: Task, look: Pos)
    requires m.Valid() && a in m.w && a != m.accept && |q.sp| == m.ids && 0 <= look <= |text|
    requires a < |m.nodes| && 1 <= i < |m.nodes[a].reachable|
    ensures var x := m.nodes[a].reachable[i];
            && x in m.w && x < |m.nodes| && m.nodes[x].id < m.ids && |QueuedTo(m, text, q, a, i, t, look).sp| == m.ids
            && QueuedTo(m, text, q, a, i + 1, t, look)
               == Queue(m, text, QueuedTo(m, text, q, a, i, t, look), x, t, true, look)
  {
    var xs := m.nodes[a].reachable;
    AdjacentsQueueable(m, q, a);
    assert xs[1..i] + [xs[i]] == xs[1..i + 1];
    QueueAllStep(m, text, q, xs[1..i], xs[i], t, true, look);
  }

  lemma QueuedLast(m: Program, text: Word, q: Sim, a: Addr, t: Task, look: Pos)
    requires m.Valid() && a in m.w && a != m.accept && |q.sp| == m.ids && 0 <= look <= |text|
    requires a < |m.nodes| && 1 <= |m.nodes[a].reachable|
    ensures var x := m.nodes[a].reachable[0];
            var n := |m.nodes[a].reachable|;
            && x in m.w && x < |m.nodes| && m.nodes[x].id < m.ids && |QueuedTo(m, text, q, a, n, t, look).sp| == m.ids
            && QueuedAll(m, text, q, a, t, look)
               == Queue(m, text, QueuedTo(m, text, q, a, n, t, look), x, t, true, look)
  {
    var xs := m.nodes[a].reachable;
    AdjacentsQueueable(m, q, a);
    assert xs[1..|xs|] == xs[1..];
    QueueAllStep(m, text, q, xs[1..], xs[0], t, true, look);
  }

  /** Only what the thread has consumed matters, not where it stood. */
  lemma QueueFrom(m: Program, text: Word, q: Sim, x: Addr, s: Task, t: Task, toNext: bool, look: Pos)
    requires x < |m.nodes| && m.nodes[x].id < |q.sp| && 0 <= look <= |text| && s.(ip := x) == t.(ip := x)
    ensures Queue(m, text, q, x, s, toNext, look) == Queue(m, text, q, x, t, toNext, look)
  {
  }

  // -------------------------------------------------------------- loading the first nodes

  /** q is what loading the first n nodes leaves. */
  ghost predicate Loads(m: Program, text: Word, sp: seq<Pos>, n: nat, i: nat, q: Sim)
    requires m.Valid()
  {
    |sp| == m.ids && n <= |First(m)| && i <= |text| && q == LoadStart(m, text, sp, n, i)
  }

  lemma NoneLoadedYet(m: Program, text: Word, q: Sim, i: nat)
    requires m.Valid() && |q.sp| == m.ids && i <= |text| && q.active == [] && q.next == []
    ensures Loads(m, text, q.sp, 0, i, q)
    ensures m.start < |m.nodes| && First(m) == m.nodes[m.start].reachable
  {
  }

  lemma FirstUsable(m: Program, text: Word, sp: seq<Pos>, list: seq<Addr>, n: nat, i: nat, q: Sim)
    requires m.Valid() && list == First(m) && n < |list| && Loads(m, text, sp, n, i, q)
    ensures i <= |text| && list[n] in m.w && list[n] < |m.nodes| && m.nodes[list[n]].id < m.ids && |q.sp| == m.ids
  {
    FirstInUse(m, n);
  }

  lemma NextLoaded(m: Program, text: Word, sp: seq<Pos>, list: seq<Addr>, n: nat, i: nat, q: Sim, r: Sim)
    requires m.Valid() && list == First(m) && n < |list| && Loads(m, text, sp, n, i, q)
    requires list[n] < |m.nodes| && m.nodes[list[n]].id < |q.sp| && i <= |text| && r == LoadOne(m, text, q, list[n], i)
    ensures Loads(m, text, sp, n + 1, i, r)
  {
    FirstInUse(m, n);
  }

  /** q is what load_start_states leaves at position i, given the marks sp. */
  ghost predicate Loaded(m: Program, text: Word, sp: seq<Pos>, i: nat, q: Sim)
    requires m.Valid()
  {
    |sp| == m.ids && i <= |text| && q == LoadStart(m, text, sp, |First(m)|, i)
  }

  lemma AllLoaded(m: Program, text: Word, sp: seq<Pos>, list: seq<Addr>, n: nat, i: nat, q: Sim)
    requires m.Valid() && list == First(m) && n == |list| && Loads(m, text, sp, n, i, q)
    ensures Loaded(m, text, sp, i, q)
  {
  }

  /** Loading the first nodes starts an attempt, or leaves marks that do no harm later. */
  lemma LoadedStarts(m: Program, text: Word, sp: seq<Pos>, i: nat, q: Sim)
    requires m.Valid() && Line(text) && Resumable(m, sp, i) && Loaded(m, text, sp, i, q)
    ensures if i < |text| then Attempt(m, text, q.active, q.next, q.sp, i, i, {}, {}) else Resumable(m, q.sp, 0)
  {
    if i < |text| {
      Started(m, text, sp, i);
    } else {
      ResumableLater(m, text, sp);
    }
  }

  /** The line of the given length, without its end-of-line marker, if it is to be shown and not empty. */
  function Shown(flags: Flags, length: nat, matched: bool): seq<(int, int)> {
    if !flags.silent && length > 1 && (if matched then flags.showLine else flags.invert) then [(0, length - 2)] else []
  }

  /** A line that is to be shown and not empty is printed from its first character to the one before its
      marker, byte 254; otherwise nothing is printed. */
  ghost predicate LineShown(flags: Flags, text: Word, matched: bool, p0: seq<(int, int)>, p1: seq<(int, int)>) {
    if !flags.silent && |text| >= 2 && (if matched then flags.showLine else flags.invert) then
      exists last :: 0 <= last < |text| && p1 == p0 + [(0, last)] && text == text[..last + 1] + [254]
    else p1 == p0
  }

  lemma ShownIs(flags: Flags, text: Word, matched: bool, p0: seq<(int, int)>, p1: seq<(int, int)>)
    requires Line(text) && p1 == p0 + Shown(flags, |text|, matched)
    ensures LineShown(flags, text, matched, p0, p1)
  {
    if |text| >= 2 {
      assert text == text[..|text| - 1] + [text[|text| - 1]];
    }
  }

  // -------------------------------------------------------------- what is held and printed

  /** What is held while the ends in found are known. */
  ghost predicate HeldOk(flags: Flags, held: (Pos, Pos), found: set<nat>, i: nat) {
    if flags.Individual() then HoldsLongest(held, found, i) else held == (NIL, NIL)
  }

  ghost predicate FoundOk(m: Program, text: Word, found: set<nat>, i: nat) {
    forall e :: e in found ==> i <= e <= |text| && m.accept in Live(m.g, m.start, text, i, e)
  }

  lemma NothingHeld(flags: Flags, m: Program, text: Word, i: nat)
    ensures HeldOk(flags, (NIL, NIL), {}, i) && FoundOk(m, text, {}, i)
  {
  }

  /** The text from i to e is the shortest of the matches that begin first. */
  ghost predicate FirstAt(r: Expr, text: Word, i: nat, e: nat) {
    MatchesAt(r, text, i, e) && !Earlier(r, text, i) && forall x: nat :: x < e ==> !MatchesAt(r, text, i, x)
  }

  /** The shortest of the matches that begin first, if it is not empty, has been added to p0. */
  ghost predicate FirstReported(r: Expr, text: Word, p0: seq<(int, int)>, p1: seq<(int, int)>) {
    if Earlier(r, text, |text|) then
      exists i: nat, e: nat :: i < |text| && FirstAt(r, text, i, e) && p1 == p0 + if e > i then [(i, e - 1)] else []
    else p1 == p0
  }

  /** What is known when the attempt at i has found the ends in f, and p1 is printed. */
  ghost predicate SoFar(flags: Flags, r: Expr, text: Word, p0: seq<(int, int)>, p1: seq<(int, int)>, i: nat,
                        f: set<nat>,
                        matched: bool, quit: bool) {
    && (i < |text| || (f == {} && !quit)) && (forall e: nat :: e in f ==> MatchesAt(r, text, i, e))
    && (matched <==> Earlier(r, text, i) || f != {}) && (quit <==> matched && !flags.mglobal && !flags.invert)
    && if !flags.Individual() then p1 == p0
       else if flags.mglobal then p1 + Matches(r, text, i) == p0 + Matches(r, text, 0)
       else if quit then FirstReported(r, text, p0, p1) else p1 == p0
  }

  lemma RunStarts(flags: Flags, r: Expr, text: Word, p0: seq<(int, int)>)
    ensures SoFar(flags, r, text, p0, p0, 0, {}, false, false)
  {
    hide Matches;
  }

  lemma FoundMatches(m: Program, r: Expr, text: Word, i: nat, f: set<nat>)
    requires Accepts(m.g, m.start, m.accept, r) && FoundOk(m, text, f, i)
    ensures forall e: nat :: e in f ==> MatchesAt(r, text, i, e)
  {
    forall e: nat | e in f ensures MatchesAt(r, text, i, e) {
      LiveAccepts(m.g, m.start, m.accept, r, text, i, e);
    }
  }

  /** What new_match prints for the match held: nothing under -q, the line unless -o is given. */
  function Output(flags: Flags, held: (Pos, Pos), length: nat): seq<(int, int)> {
    if !flags.silent && held.0 != NIL && held.0 <= held.1 then [if flags.showLine then (0, length - 2) else held]
    else []
  }

  /** The one end that has been added to found is the least of those not in it. */
  ghost predicate LeastAdded(m: Program, text: Word, i: nat, found: set<nat>, f: set<nat>) {
    exists e: nat :: f == found + {e} && i <= e <= |text| && FoundBelow(m, text, found, i, e)
  }

  lemma LeastMatch(m: Program, r: Expr, text: Word, i: nat, e: nat)
    requires Accepts(m.g, m.start, m.accept, r) && i <= e <= |text| && FoundBelow(m, text, {}, i, e)
    ensures forall x: nat :: x < e ==> !MatchesAt(r, text, i, x)
  {
    forall x: nat | x < e ensures !MatchesAt(r, text, i, x) {
      if i <= x {
        LiveAccepts(m.g, m.start, m.accept, r, text, i, x);
      }
    }
  }

  lemma FirstFound(flags: Flags, held: (Pos, Pos), r: Expr, text: Word, p1: seq<(int, int)>, p2: seq<(int, int)>,
                   i: nat, e: nat)
    requires flags.Individual() && HeldOk(flags, held, {e}, i) && i < |text| && FirstAt(r, text, i, e)
    requires p2 == p1 + Output(flags, held, |text|)
    ensures FirstReported(r, text, p1, p2)
  {
    assert e in {e} && i <= e;
    assert held == if e > i then (i, e - 1) else (NIL, NIL);
    assert Earlier(r, text, |text|);
    hide MatchesAt;
  }

  /** The end that has been added to none is that of the shortest match. */
  lemma LeastFirst(m: Program, r: Expr, text: Word, i: nat, f: set<nat>) returns (e: nat)
    requires Accepts(m.g, m.start, m.accept, r) && LeastAdded(m, text, i, {}, f) && !Earlier(r, text, i)
    requires forall e: nat :: e in f ==> MatchesAt(r, text, i, e)
    ensures f == {e} && FirstAt(r, text, i, e)
  {
    e :| f == {} + {e} && i <= e <= |text| && FoundBelow(m, text, {}, i, e);
    LeastMatch(m, r, text, i, e);
    hide Accepts;
    hide FoundBelow;
    assert f == {e} && e in f;
  }

  /** The loop over the active threads: some of them may have reported. */
  lemma SoFarThreads(m: Program, flags: Flags, held: (Pos, Pos), r: Expr, text: Word, p0: seq<(int, int)>,
                     p1: seq<(int, int)>, p2: seq<(int, int)>, i: nat, f1: set<nat>, f2: set<nat>,
                     m1: bool, now: bool, quit: bool)
    requires Accepts(m.g, m.start, m.accept, r) && i < |text|
    requires SoFar(flags, r, text, p0, p1, i, f1, m1, false) && HeldOk(flags, held, f2, i) && FoundOk(m, text, f2, i)
    requires (if now then f2 != {} else f2 == f1) && (quit <==> now && !flags.mglobal && !flags.invert)
    requires quit ==> LeastAdded(m, text, i, f1, f2)
    requires p2 == p1 + if quit && flags.Individual() then Output(flags, held, |text|) else []
    ensures SoFar(flags, r, text, p0, p2, i, f2, m1 || now, quit)
  {
    FoundMatches(m, r, text, i, f2);
    hide Matches;
    hide FoundOk;
    hide Accepts;
    hide MatchesAt;
    hide Earlier;
    hide HoldsLongest;
    hide Output;
    hide FirstReported;
    hide LeastAdded;
    assert p1 + [] == p1;
    if quit && flags.Individual() {
      var e := LeastFirst(m, r, text, i, f2);
      FirstFound(flags, held, r, text, p1, p2, i, e);
    }
  }

  /** The end of an attempt. */
  lemma SoFarAttempt(flags: Flags, r: Expr, text: Word, p0: seq<(int, int)>, p1: seq<(int, int)>, p2: seq<(int, int)>,
                     i: nat, f: set<nat>, next: nat, matched: bool)
    requires SoFar(flags, r, text, p0, p1, i, f, matched, false)
    requires Earlier(r, text, next) <==> Earlier(r, text, i) || f != {}
    requires if flags.Individual() then p2 + Matches(r, text, next) == p1 + Matches(r, text, i) else p2 == p1
    requires f == {} ==> p2 == p1
    ensures SoFar(flags, r, text, p0, p2, next, {}, matched, false)
  {
    hide Matches;
    hide Earlier;
    hide MatchesAt;
  }

  /** What is printed when the line itself has been shown, or not. */
  function Finished(flags: Flags, length: nat, matched: bool, p: seq<(int, int)>): seq<(int, int)> {
    if (!matched && flags.invert) || (matched && flags.showLine) then p + Output(flags, (0, length - 2), length) else p
  }

  /** What a run has printed in the end, when the line itself has been shown or not. */
  lemma RunOver(flags: Flags, r: Expr, text: Word, p0: seq<(int, int)>, p1: seq<(int, int)>, p2: seq<(int, int)>,
                i: nat, f: set<nat>, matched: bool, quit: bool)
    requires Line(text) && i <= |text|
    requires SoFar(flags, r, text, p0, p1, i, f, matched, quit) && (quit || i == |text|)
    requires p2 == Finished(flags, |text|, matched, p1)
    ensures quit <==> matched && !flags.mglobal && !flags.invert
    ensures matched <==> HasMatch(r, text)
    ensures flags.Individual() && flags.mglobal ==> p2 == p0 + Matches(r, text, 0)
    ensures flags.Individual() && !flags.mglobal ==> FirstReported(r, text, p0, p2)
    ensures !flags.Individual() ==> p2 == p0 + Shown(flags, |text|, matched)
    ensures !flags.Individual() ==> LineShown(flags, text, matched, p0, p2)
  {
    assert p1 + [] == p1;
    hide LineShown;
    hide Line;
    if !flags.Individual() { ShownIs(flags, text, matched, p0, p2); }
    if f != {} {
      var e: nat :| e in f;
      assert MatchesAt(r, text, i, e);
    }
  }

  // -------------------------------------------------------------- threads in the pool

  /** Every thread is in the pool. */
  ghost predicate AllInPool(l: Lists, h: Held) {
    && l.active == EMPTY && l.next == EMPTY && |h.place| == |l.sims|
    && forall a: Addr :: 0 < a < |l.sims| ==> h.place[a] == InPool && a in h.pool
  }

  lemma NewSim(m: Program, l: Lists, h: Held, sp: seq<Pos>)
    requires m.Valid() && |l.sims| == 2 && l.sims[1].next == NULL && |sp| == m.ids
    requires l.pool == SimPoolList(1, 1) && l.active == EMPTY && l.next == EMPTY
    requires h == Held([1], [], [], [InPool, InPool]) && forall k :: 0 <= k < |sp| ==> sp[k] == NIL
    ensures Sound(l, h) && HandIs(h, NULL) && AllInPool(l, h) && Resumable(m, sp, 0)
  {
    assert 1 in h.pool;
    assert ThreadLists.Elements(h.pool) == {1} && ThreadLists.Elements([]) == {};
  }

  lemma PoolOnly(l: Lists, h: Held)
    requires Sound(l, h) && AllInPool(l, h)
    ensures Active(l, h) == [] && Next(l, h) == [] && HandIs(h, NULL) && l.pool.head != NULL
  {
    assert 1 in h.pool;
  }

  lemma HandUsable(h: Held, thread: Addr)
    requires HandIs(h, thread)
    ensures thread != NULL ==> OutOfLists(h, thread)
  {
  }

  lemma NoneInHand(l: Lists, h0: Held, h: Held, thread: Addr)
    requires HandIs(h0, thread) && Sound(l, h) && l.active == EMPTY && l.next == EMPTY
    requires forall t: Addr :: OutOfLists(h, t) ==> OutOfLists(h0, t) && t != thread
    ensures HandIs(h, NULL) && AllInPool(l, h)
  {
    assert h.active == [] && h.next == [];
    forall a: Addr | 0 < a < |l.sims| ensures h.place[a] == InPool && a in h.pool {
      assert !OutOfLists(h, a);
      assert a in ThreadLists.Elements(h.pool);
    }
  }

  lemma AtEnd(text: Word, p: nat)
    requires Line(text) && p <= |text| && CharAt(text, p) == NUL
    ensures p == |text|
  {
  }

  // -------------------------------------------------------------- from one attempt to the next

  /** What the end of an attempt reports, and where the next one starts. */
  lemma AttemptReported(flags: Flags, held: (Pos, Pos), text: Word, i: nat, f: set<nat>, r: Expr,
                        p0: seq<(int, int)>, next: int)
    requires i < |text| && forall e: nat :: e in f <==> MatchesAt(r, text, i, e)
    requires HeldOk(flags, held, f, i)
    requires next == if f == {} || held.1 == NIL then i + 1 else held.1 + 1
    ensures i < next <= |text|
    ensures Earlier(r, text, next) <==> Earlier(r, text, i) || f != {}
    ensures var p1 := p0 + if flags.showLine || flags.invert then [] else Output(flags, held, |text|);
            && (f == {} ==> p1 == p0)
            && if flags.Individual()
               then p1 + Matches(r, text, next) == p0 + Matches(r, text, i) else p1 == p0
  {
    if held.1 != NIL {
      assert MatchesAt(r, text, i, held.1 + 1);
    }
    EarlierNext(r, text, i, next, f);
    hide Matches;
    hide Earlier;
    if flags.Individual() {
      HeldIsNext(r, text, i, held, f);
      assert (p0 + [held]) + Matches(r, text, next) == p0 + ([held] + Matches(r, text, next));
      assert p0 + [] == p0;
    }
  }

  /** An attempt without threads has found exactly the matches that begin where it started. */
  lemma AttemptOver(m: Program, text: Word, sp: seq<Pos>, i: nat, p: nat, done: set<Addr>, found: set<nat>, r: Expr)
    requires m.Valid() && Line(text) && Attempt(m, text, [], [], sp, i, p, done, found)
    requires Accepts(m.g, m.start, m.accept, r)
    ensures i < |text| && forall e: nat :: e in found <==> MatchesAt(r, text, i, e)
    ensures forall j :: Resumable(m, sp, j)
  {
    Exhausted(m, text, sp, i, p, done, found);
    forall e: nat ensures e in found <==> MatchesAt(r, text, i, e) {
      if i <= e <= |text| {
        LiveAccepts(m.g, m.start, m.accept, r, text, i, e);
      }
    }
  }

  lemma SameAttempt(m: Program, text: Word, a0: seq<Task>, n0: seq<Task>, sp: seq<Pos>, i: nat, p: nat, f: set<nat>,
                    a1: seq<Task>, n1: seq<Task>)
    requires m.Valid() && Attempt(m, text, a0, n0, sp, i, p, {}, f) && a1 == a0 && n1 == n0
    ensures Attempt(m, text, a1, n1, sp, i, p, {}, f)
  {
    hide Attempt;
  }

  lemma NowNone(l0: Lists, h0: Held, l1: Lists, h1: Held)
    requires SameHands(l0, h0, l1, h1, NULL) && HandIs(h0, NULL)
    ensures HandIs(h1, NULL)
  {
  }

  predicate Fewer(a: (nat, nat), b: (nat, nat)) { a.0 < b.0 || (a.0 == b.0 && a.1 < b.1) }

  /** The task reports an end, which is added to those found, and is the least of the others. */
  ghost predicate Reported(m: Program, text: Word, t: Task, i: nat, found: set<nat>, f: set<nat>) {
    && i <= End(t, i) <= |text| && FoundBelow(m, text, found, i, End(t, i)) && t.ip == m.accept
    && (if t.end < 0 then t.start == NIL && t.end == NIL else t.start == i <= t.end)
    && f == found + {End(t, i) as nat}
  }

  /** Dropping a reporting thread leaves as many threads that look at the character. */
  lemma FewerFirst(m: Program, t: Task, active: seq<Task>)
    ensures t.ip == m.accept ==> Consumers(m.accept, active) == Consumers(m.accept, [t] + active)
  {
    ConsumersFirst(m.accept, t, active);
  }

  lemma AttemptFound(m: Program, text: Word, active: seq<Task>, next: seq<Task>, sp: seq<Pos>,
                     i: nat, p: nat, done: set<Addr>, found: set<nat>)
    requires m.Valid() && Attempt(m, text, active, next, sp, i, p, done, found)
    ensures FoundOk(m, text, found, i)
  {
  }

  lemma InHandNow(h: Held, thread: Addr, status: int)
    requires HandIs(h, if status == 0 then NULL else thread) && (status != 0 ==> thread != NULL)
    ensures status != 0 ==> OutOfLists(h, thread)
  {
  }

  // -------------------------------------------------------------- many lines

  ghost predicate HasMatch(r: Expr, text: Word) { exists i: nat, e: nat :: i < |text| && MatchesAt(r, text, i, e) }

  /** How many of the lines match. */
  ghost function Matching(r: Expr, lines: seq<Word>): nat {
    if lines == [] then 0
    else Matching(r, lines[..|lines| - 1]) + if HasMatch(r, lines[|lines| - 1]) then 1 else 0
  }

  ghost function MatchingLines(r: Expr, lines: seq<Word>): set<int> {
    set k | 0 <= k < |lines| && HasMatch(r, lines[k])
  }

  lemma {:induction false} MatchingCounts(r: Expr, lines: seq<Word>)
    ensures Matching(r, lines) == |MatchingLines(r, lines)|
  {
    if lines != [] {
      var m := |lines| - 1;
      MatchingCounts(r, lines[..m]);
      LastLine(r, lines);
      assert m !in MatchingLines(r, lines[..m]);
      hide HasMatch;
      hide MatchingLines;
    }
  }

  lemma LastLine(r: Expr, lines: seq<Word>)
    requires lines != []
    ensures var m := |lines| - 1;
            MatchingLines(r, lines) == MatchingLines(r, lines[..m]) + if HasMatch(r, lines[m]) then {m} else {}
  {
    hide HasMatch;
  }

  /** What is printed for the lines, with -o and -g, with -v or with -q. */
  ghost function Report(flags: Flags, r: Expr, lines: seq<Word>): seq<(int, int)> {
    if lines == [] then []
    else
      var line := lines[|lines| - 1];
      Report(flags, r, lines[..|lines| - 1])
        + if flags.Individual() then Matches(r, line, 0) else Shown(flags, |line|, HasMatch(r, line))
  }

  lemma NoLines(flags: Flags, r: Expr, lines: seq<Word>, p: seq<(int, int)>)
    ensures p == p + Report(flags, r, lines[..0]) && Matching(r, lines[..0]) == 0
  {
  }

  lemma LineDone(flags: Flags, r: Expr, lines: seq<Word>, k: nat, p0: seq<(int, int)>, p1: seq<(int, int)>,
                 p2: seq<(int, int)>, matched: bool)
    requires k < |lines| && p1 == p0 + Report(flags, r, lines[..k]) && flags.Lasting()
    requires matched <==> HasMatch(r, lines[k])
    requires flags.Individual() && flags.mglobal ==> p2 == p1 + Matches(r, lines[k], 0)
    requires !flags.Individual() ==> p2 == p1 + Shown(flags, |lines[k]|, matched)
    ensures p2 == p0 + Report(flags, r, lines[..k + 1])
    ensures Matching(r, lines[..k + 1]) == Matching(r, lines[..k]) + if matched then 1 else 0
  {
    assert lines[..k + 1][..k] == lines[..k] && lines[..k + 1][k] == lines[k];
    hide Matches;
  }

  /** Stopping at the first match under -q leaves nothing out. */
  lemma {:induction false} LinesDone(flags: Flags, r: Expr, lines: seq<Word>, k: nat)
    requires k <= |lines| && (k == |lines| || (Matching(r, lines[..k]) != 0 && flags.silent))
    ensures Report(flags, r, lines[..k]) == Report(flags, r, lines)
    ensures Matching(r, lines[..k]) != 0 <==> Matching(r, lines) != 0
    ensures !flags.silent ==> Matching(r, lines[..k]) == Matching(r, lines)
    decreases |lines|
  {
    if k == |lines| {
      assert lines[..k] == lines;
    } else {
      var front := lines[..|lines| - 1];
      assert front[..k] == lines[..k];
      LinesDone(flags, r, front, k);
    }
  }

  lemma SameLine(r: Expr, q: Expr, text: Word)
    requires SameWords(r, q)
    ensures HasMatch(r, text) <==> HasMatch(q, text)
    ensures forall p0, p1 :: FirstReported(r, text, p0, p1) <==> FirstReported(q, text, p0, p1)
  {
    forall i: nat, e: nat ensures MatchesAt(r, text, i, e) <==> MatchesAt(q, text, i, e) {
      SameLongest(r, q, text, i, e);
    }
    hide MatchesAt;
    forall i: nat ensures Earlier(r, text, i) <==> Earlier(q, text, i) {}
    forall i: nat, e: nat ensures FirstAt(r, text, i, e) <==> FirstAt(q, text, i, e) {}
  }

  lemma {:induction false} SameReport(flags: Flags, r: Expr, q: Expr, lines: seq<Word>)
    requires SameWords(r, q)
    ensures Report(flags, r, lines) == Report(flags, q, lines) && Matching(r, lines) == Matching(q, lines)
  {
    if lines != [] {
      var line := lines[|lines| - 1];
      SameReport(flags, r, q, lines[..|lines| - 1]);
      SameMatches(r, q, line, 0);
      SameLine(r, q, line);
    }
  }
}
