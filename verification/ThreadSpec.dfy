/** What the thread lists of src/recognizer.c hold, as sequences of tasks, and how one step changes
    them. A match attempt started at position i is at position p when the character there is next. */
module ThreadSpec {
  import opened Bytes
  import opened Regex
  import opened NfaGraph
  import opened NfaAlloc
  import opened Nfa
  import opened EpsilonClosure
  import opened Simulation

  /** A position in the text, or NULL. */
  type Pos = int

  const NIL: Pos := -1

  /** A compiled expression: its nodes, their graph, entry and exit, and the nodes in use. */
  datatype Program = Program(nodes: seq<NFA>, g: Graph, start: Addr, accept: Addr, w: set<Addr>, ids: nat) {

    /** The list of a holds the stops that come next, without repeats; there is at least one. */
    ghost predicate Lists(a: Addr, c: set<Addr>) {
      a < |nodes| && Distinct(nodes[a].reachable) && Elements(nodes[a].reachable) == c && c <= w
      && nodes[a].reachable != []
    }

    ghost predicate Runs(a: Addr) {
      && a < |nodes| && Consuming(nodes[a].value) && a in g && g[a] == Match(LabelOf(nodes[a].value), nodes[a].out2)
      && Lists(a, Closure(g, nodes[a].out2, {}))
    }

    ghost predicate Valid() {
      && Lists(start, Closure(g, start, {}))
      && accept in w && accept < |nodes| && nodes[accept].value == ACCEPTING && accept in g && g[accept] == Accept
      && (forall a :: a in w && a != accept ==> Runs(a))
      && (forall a :: a in w ==> nodes[a].id < ids)
      && (forall a, b :: a in w && b in w && a != b ==> nodes[a].id != nodes[b].id)
    }
  }

  /** A line as the scanner leaves it: no NUL in it, and the end-of-line marker last. */
  ghost predicate Line(text: Word) {
    text != [] && text[|text| - 1] == EOL && forall k :: 0 <= k < |text| ==> text[k] != NUL
  }

  lemma LineIs(text: Word)
    ensures Line(text) <==> text != [] && text[|text| - 1] == 254 && forall k :: 0 <= k < |text| ==> text[k] != 0
  {
  }

  /** The character at a position; the text is followed by a NUL. */
  function CharAt(text: Word, p: Pos): Byte
    requires 0 <= p <= |text|
  {
    if p == |text| then NUL else text[p]
  }

  /** The lookahead test made before a thread is queued; `.` is not tested. */
  predicate Fits(v: Value, c: Byte) {
    match v
    case LITERAL(x) => x == c
    case RANGE(cs) => c < SIZE_OF_LOCALE && c in cs
    case _ => true
  }

  /** A thread: where it stands, and the first and last character it has consumed. */
  datatype Task = Task(ip: Addr, start: Pos, end: Pos)

  /** The two queues and active_threads_sp. */
  datatype Sim = Sim(active: seq<Task>, next: seq<Task>, sp: seq<Pos>)

  /** load_next: puts the task on node x in a queue unless it is there already or cannot go on. */
  function Queue(m: Program, text: Word, q: Sim, x: Addr, from: Task, toNext: bool, look: Pos): Sim
    requires x < |m.nodes| && m.nodes[x].id < |q.sp| && 0 <= look <= |text|
  {
    var n := m.nodes[x];
    var task := from.(ip := x);
    if n.value == ACCEPTING then q.(active := q.active + [task])
    else if q.sp[n.id] != look && Fits(n.value, CharAt(text, look)) then
      var s := q.(sp := q.sp[n.id := look]);
      if toNext then s.(next := q.next + [task]) else s.(active := q.active + [task])
    else q
  }

  /** On a node that consumes, a thread is added if and only if the node is not marked for the position and
      the character there fits: any for `.`. */
  lemma QueueAdds(m: Program, text: Word, q: Sim, x: Addr, t: Task, toNext: bool, look: Pos)
    requires x < |m.nodes| && m.nodes[x].id < |q.sp| && 0 <= look <= |text| && Consuming(m.nodes[x].value)
    ensures var r, v, c := Queue(m, text, q, x, t, toNext, look), m.nodes[x].value, CharAt(text, look);
            && q.active <= r.active && q.next <= r.next
            && (|r.active| + |r.next| == |q.active| + |q.next| + 1 <==>
                  && q.sp[m.nodes[x].id] != look
                  && (v.LITERAL? ==> c == v.c) && (v.RANGE? ==> c < 128 && c in v.cs))
            && (r != q ==> |r.active| + |r.next| == |q.active| + |q.next| + 1)
  {
  }

  /** A list of nodes that can be queued. */
  ghost predicate Queueable(m: Program, q: Sim, xs: seq<Addr>) {
    |q.sp| == m.ids && forall k :: 0 <= k < |xs| ==> xs[k] in m.w
  }

  /** Queues the task on each node of a list. */
  ghost function QueueAll(m: Program, text: Word, q: Sim, xs: seq<Addr>, from: Task, toNext: bool, look: Pos): Sim
    requires m.Valid() && Queueable(m, q, xs) && 0 <= look <= |text|
    ensures |QueueAll(m, text, q, xs, from, toNext, look).sp| == |q.sp|
  {
    if xs == [] then q
    else
      var s := QueueAll(m, text, q, xs[..|xs| - 1], from, toNext, look);
      Queue(m, text, s, xs[|xs| - 1], from, toNext, look)
  }

  lemma QueueAllStep(m: Program, text: Word, q: Sim, xs: seq<Addr>, x: Addr, t: Task, toNext: bool, look: Pos)
    requires m.Valid() && Queueable(m, q, xs + [x]) && 0 <= look <= |text|
    ensures Queueable(m, q, xs) && x in m.w && x < |m.nodes| && m.nodes[x].id < m.ids
    ensures QueueAll(m, text, q, xs + [x], t, toNext, look)
         == Queue(m, text, QueueAll(m, text, q, xs, t, toNext, look), x, t, toNext, look)
  {
    assert (xs + [x])[|xs|] == x && (xs + [x])[..|xs|] == xs;
    assert forall k :: 0 <= k < |xs| ==> (xs + [x])[k] == xs[k];
    if x != m.accept { assert m.Runs(x); }
  }

  lemma QueueAllNone(m: Program, text: Word, q: Sim, t: Task, toNext: bool, look: Pos)
    requires m.Valid() && |q.sp| == m.ids && 0 <= look <= |text|
    ensures QueueAll(m, text, q, [], t, toNext, look) == q
  {
  }

  // ---------------------------------------------------------------- the invariant of a match attempt

  /** The position a task has reached. */
  function End(t: Task, i: nat): Pos { if t.end < 0 then i else t.end + 1 }

  /** The task stands on a node that the text since i leads to, and knows what it consumed. */
  ghost predicate TaskOk(m: Program, text: Word, t: Task, i: nat) {
    && (if t.end < 0 then t.start == NIL && t.end == NIL else t.start == i && i <= t.end < |text|)
    && i <= End(t, i) <= |text| && t.ip in Live(m.g, m.start, text, i, End(t, i))
  }

  ghost predicate Stands(ts: seq<Task>, x: Addr) { exists k :: 0 <= k < |ts| && ts[k].ip == x }

  /** A thread is about to report that the text from i to e is accepted. */
  ghost predicate Reports(ts: seq<Task>, accept: Addr, i: nat, e: nat) {
    exists k :: 0 <= k < |ts| && ts[k].ip == accept && End(ts[k], i) == e
  }

  /** The threads in ts, all active or in hand, are where they should be at position p, and those about
      to report are in the order of their ends. */
  ghost predicate ActiveOk(m: Program, text: Word, ts: seq<Task>, i: nat, p: nat) {
    && (forall k :: 0 <= k < |ts| ==>
          TaskOk(m, text, ts[k], i) && (End(ts[k], i) == p || (ts[k].ip == m.accept && i <= End(ts[k], i) <= p + 1)))
    && InOrder(ts, m.accept, i)
  }

  ghost predicate InOrder(ts: seq<Task>, accept: Addr, i: nat) {
    forall j, k :: 0 <= j < k < |ts| && ts[j].ip == accept && ts[k].ip == accept ==> End(ts[j], i) <= End(ts[k], i)
  }

  /** All accepted ends below e are among those found. */
  ghost predicate FoundBelow(m: Program, text: Word, found: set<nat>, i: nat, e: Pos) {
    forall x :: i <= x < e && x <= |text| && m.accept in Live(m.g, m.start, text, i, x) ==> x in found
  }

  ghost predicate NextOk(m: Program, text: Word, ts: seq<Task>, i: nat, p: nat) {
    forall k :: 0 <= k < |ts| ==> TaskOk(m, text, ts[k], i) && End(ts[k], i) == p + 1 && ts[k].ip != m.accept
  }

  /** A node is marked only while a thread is queued there for that position. */
  ghost predicate Marks(m: Program, sp: seq<Pos>, active: seq<Task>, next: seq<Task>, p: nat)
    requires m.Valid()
  {
    |sp| == m.ids && forall x :: x in m.w && sp[m.nodes[x].id] != NIL ==>
      || (sp[m.nodes[x].id] == p && Stands(active, x))
      || (sp[m.nodes[x].id] == p + 1 && Stands(next, x))
  }

  /** Node x, which can go on at position look, has a thread in ts. */
  ghost predicate Covered(m: Program, text: Word, ts: seq<Task>, x: Addr, look: nat)
    requires x in m.w && m.Valid() && look <= |text|
  {
    x != m.accept && Fits(m.nodes[x].value, CharAt(text, look)) ==> Stands(ts, x)
  }

  /** The stepped node x has passed the attempt on to all its successors. */
  ghost predicate PassedOn(m: Program, text: Word, active: seq<Task>, next: seq<Task>, found: set<nat>, x: Addr,
                           i: nat, p: nat)
    requires m.Valid() && p < |text|
  {
    forall y :: y in Step(m.g, x, text[p]) && y in m.w ==>
      && Covered(m, text, next, y, p + 1)
      && (y == m.accept ==> p + 1 in found || Reports(active, m.accept, i, p + 1))
  }

  // ---------------------------------------------------------------- queueing

  lemma {:induction false} LiveIn(m: Program, text: Word, i: nat, p: nat)
    requires m.Valid() && i <= p <= |text|
    ensures Live(m.g, m.start, text, i, p) <= m.w
    decreases p
  {
    if p > i {
      LiveIn(m, text, i, p - 1);
      hide Closure;
      forall x | x in Live(m.g, m.start, text, i, p) ensures x in m.w {
        var a :| a in Live(m.g, m.start, text, i, p - 1) && x in Step(m.g, a, text[p - 1]);
        assert a != m.accept && m.Runs(a);
      }
    }
  }

  /** What one call of load_next leaves: nothing is removed, the node is covered, marks are right. */
  ghost predicate Queued(m: Program, text: Word, q: Sim, r: Sim, xs: seq<Addr>, t: Task, p: nat)
    requires m.Valid() && p < |text|
  {
    && q.active <= r.active && q.next <= r.next && |r.sp| == m.ids
    && (forall k :: |q.active| <= k < |r.active| ==> r.active[k] == t.(ip := m.accept) && m.accept in xs)
    && (forall k :: |q.next| <= k < |r.next| ==>
          r.next[k] == t.(ip := r.next[k].ip) && r.next[k].ip in xs && r.next[k].ip != m.accept)
    && (forall x :: x in xs && x in m.w ==> Covered(m, text, r.next, x, p + 1))
    && (m.accept in xs ==> exists k :: 0 <= k < |r.active| && r.active[k] == t.(ip := m.accept))
  }

  lemma StandsMore(ts: seq<Task>, us: seq<Task>, x: Addr)
    requires ts <= us && Stands(ts, x)
    ensures Stands(us, x)
  {
    var k :| 0 <= k < |ts| && ts[k].ip == x;
    assert us[k].ip == x;
  }

  lemma MarksMore(m: Program, sp: seq<Pos>, a0: seq<Task>, n0: seq<Task>, a1: seq<Task>, n1: seq<Task>, p: nat)
    requires m.Valid() && Marks(m, sp, a0, n0, p) && a0 <= a1 && n0 <= n1
    ensures Marks(m, sp, a1, n1, p)
  {
    forall x | x in m.w && sp[m.nodes[x].id] != NIL
      ensures || (sp[m.nodes[x].id] == p && Stands(a1, x)) || (sp[m.nodes[x].id] == p + 1 && Stands(n1, x))
    {
      if Stands(a0, x) { StandsMore(a0, a1, x); }
      if Stands(n0, x) { StandsMore(n0, n1, x); }
    }
  }

  lemma MarkNext(m: Program, sp: seq<Pos>, a: seq<Task>, n: seq<Task>, p: nat, x: Addr)
    requires m.Valid() && Marks(m, sp, a, n, p) && x in m.w && Stands(n, x)
    ensures Marks(m, sp[m.nodes[x].id := p + 1], a, n, p)
  {
  }

  lemma QueueOne(m: Program, text: Word, q: Sim, x: Addr, t: Task, p: nat)
    requires m.Valid() && p < |text| && x in m.w && Marks(m, q.sp, q.active, q.next, p) && x < |m.nodes|
    ensures var r := Queue(m, text, q, x, t, true, p + 1);
            Queued(m, text, q, r, [x], t, p) && Marks(m, r.sp, r.active, r.next, p)
  {
    var r := Queue(m, text, q, x, t, true, p + 1);
    MarksMore(m, q.sp, q.active, q.next, r.active, r.next, p);
    if x == m.accept {
      assert r.active[|q.active|] == t.(ip := m.accept);
    } else {
      assert m.Runs(x) && m.nodes[x].value != ACCEPTING;
      if r != q {
        assert r.next[|q.next|].ip == x;
        assert Stands(r.next, x);
        MarkNext(m, q.sp, r.active, r.next, p, x);
      } else if Fits(m.nodes[x].value, CharAt(text, p + 1)) {
        assert Stands(q.next, x);
      }
    }
  }

  lemma QueuedMore(m: Program, text: Word, q: Sim, s: Sim, r: Sim, xs: seq<Addr>, x: Addr, t: Task, p: nat)
    requires m.Valid() && p < |text| && Queued(m, text, q, s, xs, t, p) && Queued(m, text, s, r, [x], t, p)
    ensures Queued(m, text, q, r, xs + [x], t, p)
  {
    assert q.active <= r.active && q.next <= r.next;
    assert forall y :: y in xs + [x] <==> y in xs || y in [x];
    forall k | |q.next| <= k < |r.next|
      ensures r.next[k] == t.(ip := r.next[k].ip) && r.next[k].ip in xs + [x] && r.next[k].ip != m.accept
    {
      if k < |s.next| { assert r.next[k] == s.next[k]; }
    }
    forall k | |q.active| <= k < |r.active| ensures r.active[k] == t.(ip := m.accept) && m.accept in xs + [x] {
      if k < |s.active| { assert r.active[k] == s.active[k]; }
    }
    forall y | y in xs + [x] && y in m.w ensures Covered(m, text, r.next, y, p + 1) {
      if y in xs {
        assert Covered(m, text, s.next, y, p + 1);
        if Stands(s.next, y) { StandsMore(s.next, r.next, y); }
      } else {
        assert y in [x];
      }
    }
    if m.accept in xs {
      var k :| 0 <= k < |s.active| && s.active[k] == t.(ip := m.accept);
      assert r.active[k] == s.active[k];
    }
  }

  lemma {:induction false} QueueAllOk(m: Program, text: Word, q: Sim, xs: seq<Addr>, t: Task, p: nat)
    requires m.Valid() && p < |text| && Queueable(m, q, xs) && Marks(m, q.sp, q.active, q.next, p)
    ensures var r := QueueAll(m, text, q, xs, t, true, p + 1);
            Queued(m, text, q, r, xs, t, p) && Marks(m, r.sp, r.active, r.next, p)
    decreases |xs|
  {
    if xs == [] {
      NoneQueued(m, text, q, t, p);
    } else {
      QueueAllOk(m, text, q, xs[..|xs| - 1], t, p);
      LastQueued(m, text, q, xs, t, p);
    }
  }

  lemma NoneQueued(m: Program, text: Word, q: Sim, t: Task, p: nat)
    requires m.Valid() && p < |text| && |q.sp| == m.ids
    ensures Queued(m, text, q, QueueAll(m, text, q, [], t, true, p + 1), [], t, p)
    ensures QueueAll(m, text, q, [], t, true, p + 1) == q
  {
    hide Program.Valid;
  }

  lemma LastQueued(m: Program, text: Word, q: Sim, xs: seq<Addr>, t: Task, p: nat)
    requires m.Valid() && p < |text| && xs != [] && Queueable(m, q, xs)
    requires var s := QueueAll(m, text, q, xs[..|xs| - 1], t, true, p + 1);
             Queued(m, text, q, s, xs[..|xs| - 1], t, p) && Marks(m, s.sp, s.active, s.next, p)
    ensures var r := QueueAll(m, text, q, xs, t, true, p + 1);
            Queued(m, text, q, r, xs, t, p) && Marks(m, r.sp, r.active, r.next, p)
  {
    var front, x := xs[..|xs| - 1], xs[|xs| - 1];
    var s := QueueAll(m, text, q, front, t, true, p + 1);
    assert front + [x] == xs;
    InUse(m, x);
    QueueAllStep(m, text, q, front, x, t, true, p + 1);
    hide QueueAll;
    QueueOne(m, text, s, x, t, p);
    QueuedMore(m, text, q, s, Queue(m, text, s, x, t, true, p + 1), front, x, t, p);
    hide Queue;
    hide Queued;
    hide Marks;
    hide Program.Valid;
  }

  lemma InUse(m: Program, x: Addr)
    requires m.Valid() && x in m.w
    ensures x < |m.nodes| && m.nodes[x].id < m.ids && x in m.g
  {
  }

  // ---------------------------------------------------------------- a match attempt

  ghost predicate AllPassedOn(m: Program, text: Word, active: seq<Task>, next: seq<Task>, found: set<nat>,
                              done: set<Addr>, i: nat, p: nat)
    requires m.Valid() && i <= p < |text|
  {
    forall x :: x in done ==> x in Live(m.g, m.start, text, i, p) && PassedOn(m, text, active, next, found, x, i, p)
  }

  /** Every accepted end up to p is found or about to be reported, and nothing else is found. */
  ghost predicate EndsOk(m: Program, text: Word, active: seq<Task>, found: set<nat>, i: nat, p: nat)
    requires i <= p < |text|
  {
    && (forall e :: i <= e <= p && m.accept in Live(m.g, m.start, text, i, e) ==>
          e in found || Reports(active, m.accept, i, e))
    && (forall e :: e in found ==> i <= e <= p + 1 && m.accept in Live(m.g, m.start, text, i, e))
  }

  /** The stops occupied at p have a thread or have been stepped. */
  ghost predicate AllCovered(m: Program, text: Word, active: seq<Task>, done: set<Addr>, i: nat, p: nat)
    requires m.Valid() && i <= p < |text|
  {
    forall x :: x in Live(m.g, m.start, text, i, p) && x in m.w ==> x in done || Covered(m, text, active, x, p)
  }

  /** The attempt that started at i is at position p. */
  ghost predicate Attempt(m: Program, text: Word, active: seq<Task>, next: seq<Task>, sp: seq<Pos>,
                          i: nat, p: nat, done: set<Addr>, found: set<nat>)
    requires m.Valid()
  {
    && i <= p < |text| && ActiveOk(m, text, active, i, p) && NextOk(m, text, next, i, p)
    && Marks(m, sp, active, next, p) && AllCovered(m, text, active, done, i, p)
    && AllPassedOn(m, text, active, next, found, done, i, p) && EndsOk(m, text, active, found, i, p)
  }

  lemma ReportsMore(ts: seq<Task>, us: seq<Task>, accept: Addr, i: nat, e: nat)
    requires ts <= us && Reports(ts, accept, i, e)
    ensures Reports(us, accept, i, e)
  {
    var k :| 0 <= k < |ts| && ts[k].ip == accept && End(ts[k], i) == e;
    assert us[k] == ts[k];
  }

  /** Without its first thread, a list still reports all ends but the one of that thread. */
  lemma ReportsRest(h: Task, rest: seq<Task>, accept: Addr, i: nat, e: nat)
    requires Reports([h] + rest, accept, i, e) && !(h.ip == accept && End(h, i) == e)
    ensures Reports(rest, accept, i, e)
  {
    var k :| 0 <= k < |[h] + rest| && ([h] + rest)[k].ip == accept && End(([h] + rest)[k], i) == e;
    assert rest[k - 1] == ([h] + rest)[k];
  }

  lemma StandsRest(h: Task, rest: seq<Task>, x: Addr)
    requires Stands([h] + rest, x) && h.ip != x
    ensures Stands(rest, x)
  {
    var k :| 0 <= k < |[h] + rest| && ([h] + rest)[k].ip == x;
    assert rest[k - 1].ip == x;
  }

  /** More threads and more ends found: what was passed on stays so. */
  lemma PassedOnMore(m: Program, text: Word, a0: seq<Task>, n0: seq<Task>, f0: set<nat>,
                     a1: seq<Task>, n1: seq<Task>, f1: set<nat>, x: Addr, i: nat, p: nat)
    requires m.Valid() && p < |text| && PassedOn(m, text, a0, n0, f0, x, i, p) && n0 <= n1 && f0 <= f1
    requires Reports(a0, m.accept, i, p + 1) ==> Reports(a1, m.accept, i, p + 1) || p + 1 in f1
    ensures PassedOn(m, text, a1, n1, f1, x, i, p)
  {
    forall y | y in Step(m.g, x, text[p]) && y in m.w ensures Covered(m, text, n1, y, p + 1) {
      if Stands(n0, y) { StandsMore(n0, n1, y); }
    }
  }

  /** The mark of the stepped thread's node is cleared. */
  lemma MarksRest(m: Program, sp: seq<Pos>, h: Task, rest: seq<Task>, next: seq<Task>, p: nat)
    requires m.Valid() && Marks(m, sp, [h] + rest, next, p) && h.ip in m.w
    ensures Marks(m, sp[m.nodes[h.ip].id := NIL], rest, next, p)
  {
    forall x | x in m.w && x != h.ip && Stands([h] + rest, x) ensures Stands(rest, x) {
      StandsRest(h, rest, x);
    }
  }

  /** A thread on the accepting node reports the end it has reached. */
  lemma StepReports(m: Program, text: Word, h: Task, rest: seq<Task>, next: seq<Task>, sp: seq<Pos>,
                    i: nat, p: nat, done: set<Addr>, found: set<nat>)
    requires m.Valid() && Attempt(m, text, [h] + rest, next, sp, i, p, done, found) && h.ip == m.accept
    ensures i <= End(h, i) <= p + 1 && m.accept in Live(m.g, m.start, text, i, End(h, i))
    ensures FoundBelow(m, text, found, i, End(h, i))
    ensures Attempt(m, text, rest, next, sp[m.nodes[h.ip].id := NIL], i, p, done, found + {End(h, i)})
  {
    var more := found + {End(h, i)};
    RestOk(m, text, h, rest, i, p);
    MarksRest(m, sp, h, rest, next, p);
    RestCovered(m, text, h, rest, done, i, p);
    RestEnds(m, text, h, rest, found, i, p);
    RestPassedOn(m, text, h, rest, next, found, done, i, p);
    LeastReport(m, text, h, rest, found, i, p);
    hide FoundBelow;
    hide ActiveOk;
    hide NextOk;
    hide Marks;
    hide AllCovered;
    hide AllPassedOn;
    hide EndsOk;
  }

  lemma RestOk(m: Program, text: Word, h: Task, rest: seq<Task>, i: nat, p: nat)
    requires ActiveOk(m, text, [h] + rest, i, p)
    ensures TaskOk(m, text, h, i) && ActiveOk(m, text, rest, i, p) && i <= End(h, i) <= |text|
    ensures End(h, i) == p || (h.ip == m.accept && End(h, i) <= p + 1)
  {
    assert ([h] + rest)[0] == h;
    assert forall k :: 0 <= k < |rest| ==> rest[k] == ([h] + rest)[k + 1];
    hide Live;
  }

  /** The first thread to report has reached the least end that is not found yet. */
  lemma LeastReport(m: Program, text: Word, h: Task, rest: seq<Task>, found: set<nat>, i: nat, p: nat)
    requires i <= p < |text| && ActiveOk(m, text, [h] + rest, i, p) && EndsOk(m, text, [h] + rest, found, i, p)
    requires h.ip == m.accept
    ensures FoundBelow(m, text, found, i, End(h, i))
  {
    var ts := [h] + rest;
    assert ts[0] == h;
    hide Live;
    forall e: nat | Reports(ts, m.accept, i, e) ensures End(h, i) <= e {
      var k :| 0 <= k < |ts| && ts[k].ip == m.accept && End(ts[k], i) == e;
    }
    hide Reports;
  }

  lemma RestCovered(m: Program, text: Word, h: Task, rest: seq<Task>, done: set<Addr>, i: nat, p: nat)
    requires m.Valid() && i <= p < |text| && AllCovered(m, text, [h] + rest, done, i, p)
    ensures AllCovered(m, text, rest, done + {h.ip}, i, p)
    ensures h.ip == m.accept ==> AllCovered(m, text, rest, done, i, p)
  {
    hide Live;
    forall x | x in Live(m.g, m.start, text, i, p) && x in m.w && x != h.ip
      ensures x in done || Covered(m, text, rest, x, p)
    {
      if x != m.accept && Stands([h] + rest, x) { StandsRest(h, rest, x); }
    }
  }

  lemma RestEnds(m: Program, text: Word, h: Task, rest: seq<Task>, found: set<nat>, i: nat, p: nat)
    requires i <= p < |text| && EndsOk(m, text, [h] + rest, found, i, p)
    requires h.ip == m.accept && TaskOk(m, text, h, i) && End(h, i) <= p + 1
    ensures EndsOk(m, text, rest, found + {End(h, i)}, i, p)
  {
    hide Live;
    forall e | Reports([h] + rest, m.accept, i, e) ensures e == End(h, i) || Reports(rest, m.accept, i, e) {
      if e != End(h, i) { ReportsRest(h, rest, m.accept, i, e); }
    }
  }

  lemma RestPassedOn(m: Program, text: Word, h: Task, rest: seq<Task>, next: seq<Task>, found: set<nat>,
                     done: set<Addr>, i: nat, p: nat)
    requires m.Valid() && i <= p < |text| && AllPassedOn(m, text, [h] + rest, next, found, done, i, p)
    requires 0 <= End(h, i)
    ensures AllPassedOn(m, text, rest, next, found + {End(h, i)}, done, i, p)
  {
    var more := found + {End(h, i)};
    hide PassedOn;
    hide Live;
    forall x | x in done ensures PassedOn(m, text, rest, next, more, x, i, p) {
      if Reports([h] + rest, m.accept, i, p + 1) && End(h, i) != p + 1 {
        ReportsRest(h, rest, m.accept, i, p + 1);
      }
      PassedOnMore(m, text, [h] + rest, next, found, rest, next, more, x, i, p);
    }
  }

  /** A thread whose node does not accept the character is dropped. */
  lemma StepStops(m: Program, text: Word, h: Task, rest: seq<Task>, next: seq<Task>, sp: seq<Pos>,
                  i: nat, p: nat, done: set<Addr>, found: set<nat>)
    requires m.Valid() && Attempt(m, text, [h] + rest, next, sp, i, p, done, found) && h.ip != m.accept
    requires Step(m.g, h.ip, text[p]) == {}
    ensures h.ip in m.w
    ensures Attempt(m, text, rest, next, sp[m.nodes[h.ip].id := NIL], i, p, done + {h.ip}, found)
  {
    AfterStep(m, text, h, rest, next, sp, i, p, done, found);
    forall x | x in done + {h.ip} ensures PassedOn(m, text, rest, next, found, x, i, p) {
      if x in done {
        PassedOnMore(m, text, [h] + rest, next, found, rest, next, found, x, i, p);
      }
    }
  }

  lemma FirstOk(m: Program, text: Word, h: Task, rest: seq<Task>, next: seq<Task>, sp: seq<Pos>,
                i: nat, p: nat, done: set<Addr>, found: set<nat>)
    requires m.Valid() && Attempt(m, text, [h] + rest, next, sp, i, p, done, found)
    ensures TaskOk(m, text, h, i) && h.ip in m.w && i <= p < |text| && |sp| == m.ids
  {
    assert ([h] + rest)[0] == h;
    LiveIn(m, text, i, End(h, i));
  }

  /** What holds of the other threads when one has been stepped. */
  lemma AfterStep(m: Program, text: Word, h: Task, rest: seq<Task>, next: seq<Task>, sp: seq<Pos>,
                  i: nat, p: nat, done: set<Addr>, found: set<nat>)
    requires m.Valid() && Attempt(m, text, [h] + rest, next, sp, i, p, done, found) && h.ip != m.accept
    ensures TaskOk(m, text, h, i) && End(h, i) == p && h.ip in m.w && h.ip in Live(m.g, m.start, text, i, p)
    ensures ActiveOk(m, text, rest, i, p) && Marks(m, sp[m.nodes[h.ip].id := NIL], rest, next, p)
    ensures AllCovered(m, text, rest, done + {h.ip}, i, p) && EndsOk(m, text, rest, found, i, p)
    ensures forall e :: Reports([h] + rest, m.accept, i, e) ==> Reports(rest, m.accept, i, e)
  {
    LiveIn(m, text, i, p);
    RestOk(m, text, h, rest, i, p);
    MarksRest(m, sp, h, rest, next, p);
    RestCovered(m, text, h, rest, done, i, p);
    hide ActiveOk;
    hide AllCovered;
    hide Marks;
    hide NextOk;
    hide AllPassedOn;
    forall e | Reports([h] + rest, m.accept, i, e) ensures Reports(rest, m.accept, i, e) {
      ReportsRest(h, rest, m.accept, i, e);
    }
  }

  /** update_match */
  function Consumed(t: Task, p: Pos): Task {
    if t.start < 0 then t.(start := p, end := p) else t.(end := p)
  }

  /** A task that consumes the character at p is at p + 1 on every successor. */
  lemma ConsumedOk(m: Program, text: Word, t: Task, i: nat, p: nat, x: Addr)
    requires p < |text| && TaskOk(m, text, t, i) && End(t, i) == p && x in Step(m.g, t.ip, text[p])
    ensures var u := Consumed(t, p).(ip := x); TaskOk(m, text, u, i) && End(u, i) == p + 1
  {
  }

  /** A thread whose node accepts the character goes on to all successors. */
  lemma StepPasses(m: Program, text: Word, h: Task, rest: seq<Task>, next: seq<Task>, sp: seq<Pos>,
                   i: nat, p: nat, done: set<Addr>, found: set<nat>, xs: seq<Addr>)
    requires m.Valid() && Attempt(m, text, [h] + rest, next, sp, i, p, done, found) && h.ip != m.accept
    requires Elements(xs) == Step(m.g, h.ip, text[p]) && forall k :: 0 <= k < |xs| ==> xs[k] in m.w
    ensures h.ip in m.w && Queueable(m, Sim(rest, next, sp[m.nodes[h.ip].id := NIL]), xs)
    ensures var r := QueueAll(m, text, Sim(rest, next, sp[m.nodes[h.ip].id := NIL]), xs, Consumed(h, p), true, p + 1);
            && Attempt(m, text, r.active, r.next, r.sp, i, p, done + {h.ip}, found)
            && rest <= r.active && forall k :: |rest| <= k < |r.active| ==> r.active[k].ip == m.accept
  {
    AfterStep(m, text, h, rest, next, sp, i, p, done, found);
    var q := Sim(rest, next, sp[m.nodes[h.ip].id := NIL]);
    var t := Consumed(h, p);
    QueueAllOk(m, text, q, xs, t, p);
    var r := QueueAll(m, text, q, xs, t, true, p + 1);
    assert rest <= r.active && next <= r.next;
    assert forall k :: |rest| <= k < |r.active| ==> r.active[k].ip == m.accept;
    hide QueueAll;
    hide Queued;
    hide Program.Valid;
    hide TaskOk;
    hide ActiveOk;
    hide NextOk;
    hide Marks;
    hide AllCovered;
    hide EndsOk;
    hide Step;
    hide Live;
    hide AllPassedOn;
    NewTasksOk(m, text, q, r, h, i, p, xs);
    CoveredMore(m, text, rest, r.active, done + {h.ip}, i, p);
    EndsMore(m, text, rest, r.active, found, i, p);
    SteppedPassedOn(m, text, q, r, h, i, p, xs, found);
    PassedOnAll(m, text, h, rest, next, r.active, r.next, done, found, i, p);
  }

  lemma CoveredMore(m: Program, text: Word, a0: seq<Task>, a1: seq<Task>, done: set<Addr>, i: nat, p: nat)
    requires m.Valid() && i <= p < |text| && AllCovered(m, text, a0, done, i, p) && a0 <= a1
    ensures AllCovered(m, text, a1, done, i, p)
  {
    forall x | x in Live(m.g, m.start, text, i, p) && x in m.w ensures x in done || Covered(m, text, a1, x, p) {
      if Stands(a0, x) { StandsMore(a0, a1, x); }
    }
  }

  lemma EndsMore(m: Program, text: Word, a0: seq<Task>, a1: seq<Task>, found: set<nat>, i: nat, p: nat)
    requires m.Valid() && i <= p < |text| && EndsOk(m, text, a0, found, i, p) && a0 <= a1
    ensures EndsOk(m, text, a1, found, i, p)
  {
    forall e | Reports(a0, m.accept, i, e) ensures Reports(a1, m.accept, i, e) {
      ReportsMore(a0, a1, m.accept, i, e);
    }
  }

  lemma PassedOnAll(m: Program, text: Word, h: Task, rest: seq<Task>, next: seq<Task>, a1: seq<Task>, n1: seq<Task>,
                    done: set<Addr>, found: set<nat>, i: nat, p: nat)
    requires m.Valid() && i <= p < |text| && AllPassedOn(m, text, [h] + rest, next, found, done, i, p)
    requires forall e :: Reports([h] + rest, m.accept, i, e) ==> Reports(rest, m.accept, i, e)
    requires rest <= a1 && next <= n1 && PassedOn(m, text, a1, n1, found, h.ip, i, p)
    requires h.ip in Live(m.g, m.start, text, i, p)
    ensures AllPassedOn(m, text, a1, n1, found, done + {h.ip}, i, p)
  {
    hide PassedOn;
    forall x | x in done ensures PassedOn(m, text, a1, n1, found, x, i, p) {
      if Reports(rest, m.accept, i, p + 1) { ReportsMore(rest, a1, m.accept, i, p + 1); }
      PassedOnMore(m, text, [h] + rest, next, found, a1, n1, found, x, i, p);
    }
  }

  lemma NewTasksOk(m: Program, text: Word, q: Sim, r: Sim, h: Task, i: nat, p: nat, xs: seq<Addr>)
    requires m.Valid() && p < |text| && TaskOk(m, text, h, i) && End(h, i) == p
    requires Elements(xs) == Step(m.g, h.ip, text[p]) && Queued(m, text, q, r, xs, Consumed(h, p), p)
    requires ActiveOk(m, text, q.active, i, p) && NextOk(m, text, q.next, i, p)
    ensures ActiveOk(m, text, r.active, i, p) && NextOk(m, text, r.next, i, p)
  {
    hide Step;
    hide Live;
    forall k | 0 <= k < |r.active| ensures TaskOk(m, text, r.active[k], i)
      && (End(r.active[k], i) == p || (r.active[k].ip == m.accept && i <= End(r.active[k], i) <= p + 1))
    {
      if k < |q.active| {
        assert r.active[k] == q.active[k];
      } else {
        assert m.accept in Elements(xs);
        ConsumedOk(m, text, h, i, p, m.accept);
      }
    }
    StillInOrder(q.active, r.active, Consumed(h, p).(ip := m.accept), m.accept, i, p);
    forall k | 0 <= k < |r.next| ensures TaskOk(m, text, r.next[k], i)
      && End(r.next[k], i) == p + 1 && r.next[k].ip != m.accept
    {
      if k < |q.next| {
        assert r.next[k] == q.next[k];
      } else {
        assert r.next[k].ip in Elements(xs);
        ConsumedOk(m, text, h, i, p, r.next[k].ip);
      }
    }
  }

  /** A thread that reports the next position goes behind those that report no later one. */
  lemma StillInOrder(a0: seq<Task>, a1: seq<Task>, t: Task, accept: Addr, i: nat, p: nat)
    requires InOrder(a0, accept, i) && a0 <= a1 && End(t, i) == p + 1
    requires forall k :: 0 <= k < |a0| ==> End(a0[k], i) <= p + 1
    requires forall k :: |a0| <= k < |a1| ==> a1[k] == t
    ensures InOrder(a1, accept, i)
  {
    assert forall k :: 0 <= k < |a0| ==> a1[k] == a0[k];
  }

  lemma SteppedPassedOn(m: Program, text: Word, q: Sim, r: Sim, h: Task, i: nat, p: nat, xs: seq<Addr>, found: set<nat>)
    requires m.Valid() && p < |text| && TaskOk(m, text, h, i) && End(h, i) == p
    requires Elements(xs) == Step(m.g, h.ip, text[p]) && Queued(m, text, q, r, xs, Consumed(h, p), p)
    ensures PassedOn(m, text, r.active, r.next, found, h.ip, i, p)
  {
    forall y | y in Step(m.g, h.ip, text[p]) && y in m.w
      ensures Covered(m, text, r.next, y, p + 1) && (y == m.accept ==> Reports(r.active, m.accept, i, p + 1))
    {
      assert y in Elements(xs) && y in xs;
      if y == m.accept {
        ConsumedOk(m, text, h, i, p, y);
        var k :| 0 <= k < |r.active| && r.active[k] == Consumed(h, p).(ip := m.accept);
      }
    }
  }

  // ---------------------------------------------------------------- from one position to the next

  /** A node that accepts a character passes the lookahead test for it. */
  lemma AcceptsFits(m: Program, x: Addr, c: Byte)
    requires m.Valid() && x in m.w && Step(m.g, x, c) != {}
    ensures x != m.accept && Fits(m.nodes[x].value, c)
  {
    if x != m.accept { assert m.Runs(x); }
  }

  lemma NotFitting(m: Program, x: Addr, c: Byte)
    requires m.Valid() && x in m.w && (x == m.accept || !Fits(m.nodes[x].value, c))
    ensures Step(m.g, x, c) == {}
  {
    if x != m.accept { assert m.Runs(x); }
  }

  /** No node accepts the end-of-line marker. */
  lemma EndOfLine(m: Program, x: Addr)
    requires m.Valid() && x in m.w
    ensures Step(m.g, x, EOL) == {}
  {
    if x != m.accept { assert m.Runs(x); }
  }

  /** So no attempt gets past it. */
  lemma NoneAtEnd(m: Program, text: Word, i: nat)
    requires m.Valid() && Line(text) && i < |text|
    ensures Live(m.g, m.start, text, i, |text|) == {}
  {
    LiveIn(m, text, i, |text| - 1);
    forall a | a in Live(m.g, m.start, text, i, |text| - 1) ensures Step(m.g, a, EOL) == {} {
      EndOfLine(m, a);
    }
  }

  /** With no active thread left, everything live at the next position has a thread there. */
  lemma NextCovered(m: Program, text: Word, next: seq<Task>, sp: seq<Pos>, i: nat, p: nat, done: set<Addr>,
                    found: set<nat>)
    requires m.Valid() && Attempt(m, text, [], next, sp, i, p, done, found)
    ensures forall x :: x in Live(m.g, m.start, text, i, p + 1) && x in m.w ==>
              Covered(m, text, next, x, p + 1) && (x == m.accept ==> p + 1 in found)
  {
    LiveIn(m, text, i, p);
    forall x | x in Live(m.g, m.start, text, i, p + 1) && x in m.w
      ensures Covered(m, text, next, x, p + 1) && (x == m.accept ==> p + 1 in found)
    {
      var a :| a in Live(m.g, m.start, text, i, p) && x in Step(m.g, a, text[p]);
      AcceptsFits(m, a, text[p]);
      assert !Stands([], a);
      assert PassedOn(m, text, [], next, found, a, i, p);
    }
  }

  /** swap_next_w_active and the step to the next character. */
  lemma NextPosition(m: Program, text: Word, next: seq<Task>, sp: seq<Pos>, i: nat, p: nat, done: set<Addr>,
                     found: set<nat>)
    requires m.Valid() && Line(text) && Attempt(m, text, [], next, sp, i, p, done, found) && next != []
    ensures p + 1 < |text| && Attempt(m, text, next, [], sp, i, p + 1, {}, found)
  {
    NextCovered(m, text, next, sp, i, p, done, found);
    NotAtEnd(m, text, next, i, p);
    NextMarks(m, sp, next, p);
    NextActive(m, text, next, i, p);
    NextEnds(m, text, next, found, i, p);
    hide NextOk;
    hide Marks;
    hide ActiveOk;
    hide PassedOn;
    hide EndsOk;
    hide Program.Valid;
    hide Live;
    hide Covered;
  }

  lemma NotAtEnd(m: Program, text: Word, next: seq<Task>, i: nat, p: nat)
    requires m.Valid() && Line(text) && i <= p < |text| && NextOk(m, text, next, i, p) && next != []
    ensures p + 1 < |text|
  {
    NoneAtEnd(m, text, i);
    assert TaskOk(m, text, next[0], i);
  }

  lemma NextEnds(m: Program, text: Word, next: seq<Task>, found: set<nat>, i: nat, p: nat)
    requires i <= p && p + 1 < |text| && EndsOk(m, text, [], found, i, p)
    requires m.accept in Live(m.g, m.start, text, i, p + 1) ==> p + 1 in found
    ensures EndsOk(m, text, next, found, i, p + 1)
  {
    hide Live;
    forall e | i <= e <= p + 1 && m.accept in Live(m.g, m.start, text, i, e) ensures e in found {
      if e <= p { assert !Reports([], m.accept, i, e); }
    }
  }

  lemma NextActive(m: Program, text: Word, next: seq<Task>, i: nat, p: nat)
    requires NextOk(m, text, next, i, p)
    ensures ActiveOk(m, text, next, i, p + 1) && NextOk(m, text, [], i, p + 1)
  {
  }

  lemma NextMarks(m: Program, sp: seq<Pos>, next: seq<Task>, p: nat)
    requires m.Valid() && Marks(m, sp, [], next, p)
    ensures Marks(m, sp, next, [], p + 1)
  {
  }

  lemma {:induction false} DeadStays(m: Program, text: Word, i: nat, p: nat, e: nat)
    requires i <= p <= e <= |text| && Live(m.g, m.start, text, i, p) == {} && i < p
    ensures Live(m.g, m.start, text, i, e) == {}
    decreases e
  {
    if e > p { DeadStays(m, text, i, p, e - 1); }
  }

  /** When both queues are empty, exactly the accepted ends have been found, and no mark is left. */
  lemma Exhausted(m: Program, text: Word, sp: seq<Pos>, i: nat, p: nat, done: set<Addr>, found: set<nat>)
    requires m.Valid() && Line(text) && Attempt(m, text, [], [], sp, i, p, done, found)
    ensures forall e :: e in found <==> i <= e <= |text| && m.accept in Live(m.g, m.start, text, i, e)
    ensures forall x :: x in m.w ==> sp[m.nodes[x].id] == NIL
  {
    NextCovered(m, text, [], sp, i, p, done, found);
    LiveIn(m, text, i, p + 1);
    if p + 2 <= |text| {
      assert Live(m.g, m.start, text, i, p + 2) == {} by {
        var c := text[p + 1];
        forall x | x in Live(m.g, m.start, text, i, p + 1) ensures Step(m.g, x, c) == {} {
          assert Covered(m, text, [], x, p + 1) && !Stands([], x);
          NotFitting(m, x, c);
        }
      }
    }
    forall e | i <= e <= |text| && m.accept in Live(m.g, m.start, text, i, e) ensures e in found {
      if e > p + 1 { DeadStays(m, text, i, p + 2, e); }
    }
  }

  // ---------------------------------------------------------------- the start of an attempt

  /** One round of load_start_states: range nodes are tested but not marked. */
  function LoadOne(m: Program, text: Word, q: Sim, x: Addr, i: nat): Sim
    requires x < |m.nodes| && m.nodes[x].id < |q.sp| && i <= |text|
  {
    var t := Task(x, NIL, NIL);
    if m.nodes[x].value.RANGE? then
      if Fits(m.nodes[x].value, CharAt(text, i)) then q.(active := q.active + [t]) else q
    else Queue(m, text, q, x, t, false, i)
  }

  /** load_start_states on empty queues, for the first n nodes of the start node's list. */
  ghost function LoadStart(m: Program, text: Word, sp: seq<Pos>, n: nat, i: nat): Sim
    requires m.Valid() && |sp| == m.ids && n <= |First(m)| && i <= |text|
    ensures |LoadStart(m, text, sp, n, i).sp| == m.ids
  {
    if n == 0 then Sim([], [], sp)
    else
      FirstInUse(m, n - 1);
      LoadOne(m, text, LoadStart(m, text, sp, n - 1, i), First(m)[n - 1], i)
  }

  ghost function First(m: Program): seq<Addr>
    requires m.Valid()
  {
    m.nodes[m.start].reachable
  }

  lemma FirstInUse(m: Program, k: nat)
    requires m.Valid() && k < |First(m)|
    ensures First(m)[k] in Closure(m.g, m.start, {}) && First(m)[k] in m.w
    ensures First(m)[k] < |m.nodes| && m.nodes[First(m)[k]].id < m.ids
  {
    assert First(m)[k] in Elements(First(m));
    InUse(m, First(m)[k]);
  }

  /** Marks left by an earlier run: at most at first nodes that are `.`, for another position. */
  ghost predicate Stale(m: Program, sp: seq<Pos>, x: Addr, i: nat)
    requires m.Valid() && x in m.w && |sp| == m.ids
  {
    x in Closure(m.g, m.start, {}) && m.nodes[x].value == ANY && sp[m.nodes[x].id] != i
  }

  ghost predicate Resumable(m: Program, sp: seq<Pos>, i: nat)
    requires m.Valid()
  {
    |sp| == m.ids && forall x :: x in m.w ==> sp[m.nodes[x].id] == NIL || Stale(m, sp, x, i)
  }

  /** Loaded threads have consumed nothing and stand on first nodes. */
  ghost predicate LoadedTasks(m: Program, active: seq<Task>) {
    forall k :: 0 <= k < |active| ==>
      active[k] == Task(active[k].ip, NIL, NIL) && active[k].ip in Closure(m.g, m.start, {})
  }

  ghost predicate LoadedMarks(m: Program, text: Word, q: Sim, n: nat, i: nat)
    requires m.Valid() && n <= |First(m)| && i <= |text|
  {
    |q.sp| == m.ids && forall x :: x in m.w && q.sp[m.nodes[x].id] != NIL ==>
      || (q.sp[m.nodes[x].id] == i && Stands(q.active, x) && Marked(m, text, x, i))
      || (x !in First(m)[..n] && Stale(m, q.sp, x, i))
  }

  /** The first n nodes have been loaded. */
  ghost predicate Loading(m: Program, text: Word, q: Sim, n: nat, i: nat)
    requires m.Valid() && n <= |First(m)| && i <= |text|
  {
    && q.next == [] && LoadedTasks(m, q.active) && LoadedMarks(m, text, q, n, i)
    && forall k :: 0 <= k < n ==> First(m)[k] in m.w && LoadedAt(m, text, q.active, First(m)[k], i)
  }

  ghost predicate LoadedAt(m: Program, text: Word, active: seq<Task>, x: Addr, i: nat)
    requires m.Valid() && x in m.w && i <= |text|
  {
    Covered(m, text, active, x, i) && (x == m.accept ==> Reports(active, m.accept, i, i))
  }

  ghost predicate Marked(m: Program, text: Word, x: Addr, i: nat)
    requires m.Valid() && x in m.w && i <= |text|
  {
    && x in Closure(m.g, m.start, {}) && x != m.accept
    && !m.nodes[x].value.RANGE? && Fits(m.nodes[x].value, CharAt(text, i))
  }

  lemma {:induction false} StartLoads(m: Program, text: Word, sp: seq<Pos>, n: nat, i: nat)
    requires m.Valid() && Resumable(m, sp, i) && n <= |First(m)| && i <= |text|
    ensures Loading(m, text, LoadStart(m, text, sp, n, i), n, i)
  {
    if n == 0 {
      NoneLoaded(m, text, sp, i);
    } else {
      StartLoads(m, text, sp, n - 1, i);
      NextLoads(m, text, sp, n - 1, i);
    }
  }

  lemma NoneLoaded(m: Program, text: Word, sp: seq<Pos>, i: nat)
    requires m.Valid() && Resumable(m, sp, i) && i <= |text|
    ensures Loading(m, text, LoadStart(m, text, sp, 0, i), 0, i)
  {
    hide Program.Valid;
  }

  lemma NextLoads(m: Program, text: Word, sp: seq<Pos>, n: nat, i: nat)
    requires m.Valid() && |sp| == m.ids && n < |First(m)| && i <= |text|
    requires Loading(m, text, LoadStart(m, text, sp, n, i), n, i)
    ensures Loading(m, text, LoadStart(m, text, sp, n + 1, i), n + 1, i)
  {
    FirstInUse(m, n);
    LoadsOne(m, text, LoadStart(m, text, sp, n, i), n, i);
    hide LoadOne;
    hide Loading;
    hide Program.Valid;
  }

  lemma LoadsOne(m: Program, text: Word, q: Sim, n: nat, i: nat)
    requires m.Valid() && n < |First(m)| && i <= |text| && Loading(m, text, q, n, i)
    requires First(m)[n] in Closure(m.g, m.start, {}) && First(m)[n] in m.w && First(m)[n] < |m.nodes|
    requires m.nodes[First(m)[n]].id < m.ids
    ensures Loading(m, text, LoadOne(m, text, q, First(m)[n], i), n + 1, i)
  {
    var x, r := First(m)[n], LoadOne(m, text, q, First(m)[n], i);
    LoadsTask(m, text, q, x, i);
    LoadsMark(m, text, q, n, i);
    hide LoadOne;
    forall k | 0 <= k < n ensures LoadedAt(m, text, r.active, First(m)[k], i) {
      LoadedMore(m, text, q.active, r.active, First(m)[k], i);
    }
  }

  lemma LoadedMore(m: Program, text: Word, a0: seq<Task>, a1: seq<Task>, x: Addr, i: nat)
    requires m.Valid() && x in m.w && i <= |text| && a0 <= a1 && LoadedAt(m, text, a0, x, i)
    ensures LoadedAt(m, text, a1, x, i)
  {
    if Stands(a0, x) { StandsMore(a0, a1, x); }
    if Reports(a0, m.accept, i, i) { ReportsMore(a0, a1, m.accept, i, i); }
  }

  lemma LoadsTask(m: Program, text: Word, q: Sim, x: Addr, i: nat)
    requires m.Valid() && i <= |text| && LoadedTasks(m, q.active) && q.next == [] && |q.sp| == m.ids
    requires x in m.w && x in Closure(m.g, m.start, {}) && x < |m.nodes| && m.nodes[x].id < m.ids
    requires q.sp[m.nodes[x].id] == i ==> Stands(q.active, x)
    ensures var r := LoadOne(m, text, q, x, i);
            && r.next == [] && q.active <= r.active && LoadedTasks(m, r.active) && LoadedAt(m, text, r.active, x, i)
  {
    var r, t := LoadOne(m, text, q, x, i), Task(x, NIL, NIL);
    hide Closure;
    if r.active != q.active {
      assert r.active == q.active + [t] && r.active[|q.active|] == t;
      assert Stands(r.active, x);
      assert x == m.accept ==> Reports(r.active, m.accept, i, i);
    } else {
      assert x != m.accept;
      assert m.Runs(x);
    }
  }

  /** A mark is set only where a thread is queued. */
  lemma LoadOneMark(m: Program, text: Word, q: Sim, x: Addr, i: nat)
    requires m.Valid() && i <= |text| && x in m.w && x < |m.nodes| && m.nodes[x].id < |q.sp|
    ensures var r := LoadOne(m, text, q, x, i);
            && q.active <= r.active
            && (r.sp == q.sp || (r.sp == q.sp[m.nodes[x].id := i] && Stands(r.active, x) && x != m.accept
                                 && !m.nodes[x].value.RANGE? && Fits(m.nodes[x].value, CharAt(text, i))))
  {
    var r := LoadOne(m, text, q, x, i);
    assert x != m.accept ==> m.Runs(x);
    hide Closure;
    if r.sp != q.sp {
      assert r.active[|q.active|].ip == x;
    }
  }

  lemma LoadsMark(m: Program, text: Word, q: Sim, n: nat, i: nat)
    requires m.Valid() && n < |First(m)| && i <= |text| && LoadedMarks(m, text, q, n, i)
    requires First(m)[n] in Closure(m.g, m.start, {}) && First(m)[n] in m.w && First(m)[n] < |m.nodes|
    requires m.nodes[First(m)[n]].id < m.ids
    ensures q.sp[m.nodes[First(m)[n]].id] == i ==> Stands(q.active, First(m)[n])
    ensures LoadedMarks(m, text, LoadOne(m, text, q, First(m)[n], i), n + 1, i)
  {
    var x, r := First(m)[n], LoadOne(m, text, q, First(m)[n], i);
    LoadOneMark(m, text, q, x, i);
    hide LoadOne;
    hide Closure;
    assert First(m)[..n + 1] == First(m)[..n] + [x];
    forall y | y in m.w && r.sp[m.nodes[y].id] != NIL
      ensures || (r.sp[m.nodes[y].id] == i && Stands(r.active, y) && Marked(m, text, y, i))
              || (y !in First(m)[..n + 1] && Stale(m, r.sp, y, i))
    {
      if Stands(q.active, y) { StandsMore(q.active, r.active, y); }
    }
  }

  /** Loading the first nodes starts an attempt. */
  lemma Started(m: Program, text: Word, sp: seq<Pos>, i: nat)
    requires m.Valid() && Resumable(m, sp, i) && i < |text|
    ensures var q := LoadStart(m, text, sp, |First(m)|, i);
            q.next == [] && Attempt(m, text, q.active, [], q.sp, i, i, {}, {})
  {
    var q := LoadStart(m, text, sp, |First(m)|, i);
    StartLoads(m, text, sp, |First(m)|, i);
    hide LoadStart;
    LoadedOk(m, text, q, i);
    forall x | x in Closure(m.g, m.start, {}) ensures x in m.w && LoadedAt(m, text, q.active, x, i) {
      assert x in Elements(First(m));
      var k :| 0 <= k < |First(m)| && First(m)[k] == x;
    }
  }

  lemma LoadedOk(m: Program, text: Word, q: Sim, i: nat)
    requires m.Valid() && i < |text| && Loading(m, text, q, |First(m)|, i)
    ensures ActiveOk(m, text, q.active, i, i) && NextOk(m, text, [], i, i) && Marks(m, q.sp, q.active, [], i)
  {
    hide Closure;
    forall x | x in m.w && x in Closure(m.g, m.start, {}) ensures x in First(m)[..|First(m)|] {
      assert x in Elements(First(m));
    }
  }

  /** Loading at the end of the line leaves marks that do no harm to a run on another line. */
  lemma ResumableLater(m: Program, text: Word, sp: seq<Pos>)
    requires m.Valid() && Resumable(m, sp, |text|) && text != []
    ensures Resumable(m, LoadStart(m, text, sp, |First(m)|, |text|).sp, 0)
  {
    var q := LoadStart(m, text, sp, |First(m)|, |text|);
    StartLoads(m, text, sp, |First(m)|, |text|);
    hide LoadStart;
    forall x | x in m.w && q.sp[m.nodes[x].id] != NIL ensures Stale(m, q.sp, x, 0) {
      assert x in Closure(m.g, m.start, {}) ==> x in Elements(First(m)) && x in First(m)[..|First(m)|];
      if x != m.accept { assert m.Runs(x); }
    }
  }

  /** The first node x is loaded: it can go on, and no mark for this position is in the way. */
  ghost predicate Loadable(m: Program, text: Word, sp: seq<Pos>, x: Addr, i: nat)
    requires m.Valid() && x in m.w && |sp| == m.ids && i <= |text|
  {
    Fits(m.nodes[x].value, CharAt(text, i)) && (m.nodes[x].value.RANGE? || sp[m.nodes[x].id] != i)
  }

  ghost predicate LoadedExactly(m: Program, text: Word, sp: seq<Pos>, q: Sim, n: nat, i: nat)
    requires m.Valid() && |sp| == m.ids && i <= |text| && n <= |First(m)|
  {
    && |q.sp| == m.ids && (forall k :: 0 <= k < |q.active| ==> q.active[k].ip in First(m)[..n])
    && (forall k :: n <= k < |First(m)| && First(m)[k] in m.w ==>
          q.sp[m.nodes[First(m)[k]].id] == sp[m.nodes[First(m)[k]].id])
    && (forall k :: 0 <= k < n && First(m)[k] in m.w && First(m)[k] != m.accept ==>
          (Stands(q.active, First(m)[k]) <==> Loadable(m, text, sp, First(m)[k], i)))
  }

  lemma {:induction false} LoadsExactly(m: Program, text: Word, sp: seq<Pos>, n: nat, i: nat)
    requires m.Valid() && |sp| == m.ids && i <= |text| && n <= |First(m)|
    ensures LoadedExactly(m, text, sp, LoadStart(m, text, sp, n, i), n, i)
  {
    if n == 0 {
      NoneLoadedExactly(m, text, sp, i);
    } else {
      LoadsExactly(m, text, sp, n - 1, i);
      NextLoadsExactly(m, text, sp, n - 1, i);
    }
  }

  lemma NoneLoadedExactly(m: Program, text: Word, sp: seq<Pos>, i: nat)
    requires m.Valid() && |sp| == m.ids && i <= |text|
    ensures LoadedExactly(m, text, sp, LoadStart(m, text, sp, 0, i), 0, i)
  {
    hide Program.Valid;
  }

  lemma NextLoadsExactly(m: Program, text: Word, sp: seq<Pos>, n: nat, i: nat)
    requires m.Valid() && |sp| == m.ids && n < |First(m)| && i <= |text|
    requires LoadedExactly(m, text, sp, LoadStart(m, text, sp, n, i), n, i)
    ensures LoadedExactly(m, text, sp, LoadStart(m, text, sp, n + 1, i), n + 1, i)
  {
    FirstInUse(m, n);
    LoadOneExactly(m, text, sp, LoadStart(m, text, sp, n, i), n, i);
    hide LoadOne;
    hide LoadedExactly;
    hide Program.Valid;
  }

  /** What one round adds: a task on x, and perhaps a mark there. */
  lemma LoadOneAdds(m: Program, text: Word, q: Sim, x: Addr, i: nat)
    requires m.Valid() && i <= |text| && x in m.w && x < |m.nodes| && m.nodes[x].id < |q.sp|
    ensures var r := LoadOne(m, text, q, x, i);
            && (r.active == q.active || r.active == q.active + [Task(x, NIL, NIL)])
            && (r.sp == q.sp || r.sp == q.sp[m.nodes[x].id := i])
            && (x != m.accept ==> (r.active != q.active <==>
                  Fits(m.nodes[x].value, CharAt(text, i)) && (m.nodes[x].value.RANGE? || q.sp[m.nodes[x].id] != i)))
  {
    assert x != m.accept ==> m.Runs(x);
    hide Closure;
  }

  lemma LoadOneExactly(m: Program, text: Word, sp: seq<Pos>, q: Sim, n: nat, i: nat)
    requires m.Valid() && |sp| == m.ids && i <= |text| && n < |First(m)| && LoadedExactly(m, text, sp, q, n, i)
    requires First(m)[n] in m.w && First(m)[n] < |m.nodes| && m.nodes[First(m)[n]].id < m.ids
    ensures LoadedExactly(m, text, sp, LoadOne(m, text, q, First(m)[n], i), n + 1, i)
  {
    var x, r := First(m)[n], LoadOne(m, text, q, First(m)[n], i);
    LoadOneAdds(m, text, q, x, i);
    hide LoadOne;
    hide Closure;
    assert First(m)[..n + 1] == First(m)[..n] + [x];
    assert x !in First(m)[..n];
    forall k | 0 <= k < n && First(m)[k] in m.w && First(m)[k] != m.accept
      ensures Stands(r.active, First(m)[k]) <==> Stands(q.active, First(m)[k])
    {
      StandsToo(q.active, r.active, x, First(m)[k]);
    }
    assert !Stands(q.active, x);
    if r.active != q.active {
      assert r.active[|q.active|].ip == x;
    }
  }

  lemma StandsToo(a: seq<Task>, b: seq<Task>, x: Addr, y: Addr)
    requires (b == a || b == a + [Task(x, NIL, NIL)]) && x != y
    ensures Stands(b, y) <==> Stands(a, y)
  {
    if Stands(a, y) { StandsMore(a, b, y); }
    if Stands(b, y) {
      var j :| 0 <= j < |b| && b[j].ip == y;
      assert a[j].ip == y;
    }
  }

  ghost predicate Unmarked(m: Program, text: Word, sp: seq<Pos>, x: Addr, i: nat)
    requires m.Valid() && x in m.w && |sp| == m.ids && i <= |text|
  {
    sp[m.nodes[x].id] == i ==> x == m.accept || m.nodes[x].value.RANGE? || !Fits(m.nodes[x].value, CharAt(text, i))
  }

  /** Which marks do harm: loading at i leaves out a first node that could go on if and only if it is
      marked for i and not a range. After a run that stopped early, there can be such a mark. */
  lemma LoadsAllIff(m: Program, text: Word, sp: seq<Pos>, i: nat)
    requires m.Valid() && |sp| == m.ids && i <= |text|
    ensures var q := LoadStart(m, text, sp, |First(m)|, i);
            (forall x :: x in Closure(m.g, m.start, {}) && x in m.w ==> Covered(m, text, q.active, x, i))
            <==> (forall x :: x in Closure(m.g, m.start, {}) && x in m.w ==> Unmarked(m, text, sp, x, i))
  {
    var q := LoadStart(m, text, sp, |First(m)|, i);
    LoadsExactly(m, text, sp, |First(m)|, i);
    hide LoadStart;
    hide Closure;
    forall x | x in Closure(m.g, m.start, {}) && x in m.w && x != m.accept
      ensures Stands(q.active, x) <==> Loadable(m, text, sp, x, i)
    {
      assert x in Elements(First(m));
      var k :| 0 <= k < |First(m)| && First(m)[k] == x;
    }
    hide Stands;
  }

  // ---------------------------------------------------------------- progress

  /** The threads that have still to look at the current character. */
  function Consumers(accept: Addr, ts: seq<Task>): nat {
    if ts == [] then 0
    else (if ts[|ts| - 1].ip == accept then 0 else 1) + Consumers(accept, ts[..|ts| - 1])
  }

  lemma {:induction false} ConsumersMore(accept: Addr, ts: seq<Task>, us: seq<Task>)
    requires ts <= us && forall k :: |ts| <= k < |us| ==> us[k].ip == accept
    ensures Consumers(accept, us) == Consumers(accept, ts)
    decreases |us|
  {
    if us == ts {
      assert us == ts;
    } else {
      assert ts <= us[..|us| - 1];
      ConsumersMore(accept, ts, us[..|us| - 1]);
    }
  }

  lemma {:induction false} ConsumersFirst(accept: Addr, h: Task, ts: seq<Task>)
    ensures Consumers(accept, [h] + ts) == (if h.ip == accept then 0 else 1) + Consumers(accept, ts)
    decreases |ts|
  {
    var us := [h] + ts;
    if ts == [] {
      assert us[..|us| - 1] == [];
    } else {
      assert us[..|us| - 1] == [h] + ts[..|ts| - 1];
      ConsumersFirst(accept, h, ts[..|ts| - 1]);
    }
  }
}
