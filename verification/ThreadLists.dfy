/** The threads of src/recognizer.c and the three intrusive lists they move between: the pool of
    spare threads, the active ones and those for the next character. Threads are kept in a table
    that grows; a pointer is an index into it. */
module ThreadLists {
  import opened NfaAlloc
  import opened ThreadSpec

  /** NFASim */
  datatype NFASim = NFASim(ip: Addr, status: int, start: Pos, end: Pos, next: Addr)

  datatype SimPoolList = SimPoolList(head: Addr, tail: Addr)

  const EMPTY := SimPoolList(NULL, NULL)

  /** The table and the lists of NFASimCtrl. */
  datatype Lists = Lists(sims: seq<NFASim>, pool: SimPoolList, active: SimPoolList, next: SimPoolList)

  // ---------------------------------------------------------------- one list

  /** The list runs through r: it is acyclic, and its tail is its last thread. */
  ghost predicate Linked(sims: seq<NFASim>, l: SimPoolList, r: seq<Addr>) {
    && Distinct(r) && (forall i :: 0 <= i < |r| ==> 0 < r[i] < |sims|)
    && if r == [] then l == EMPTY
       else l.head == r[0] && l.tail == r[|r| - 1] && sims[r[|r| - 1]].next == NULL
            && forall i :: 0 <= i < |r| - 1 ==> sims[r[i]].next == r[i + 1]
  }

  /** Only the links of threads in r may have changed. */
  ghost predicate Relinked(s0: seq<NFASim>, s1: seq<NFASim>, r: set<Addr>) {
    && |s1| == |s0|
    && (forall a :: 0 <= a < |s0| ==> s1[a] == s0[a].(next := s1[a].next))
    && (forall a :: 0 <= a < |s0| && a !in r ==> s1[a] == s0[a])
  }

  /** sim_pool_shift */
  method SimPoolShift(sims: seq<NFASim>, pool: SimPoolList, ghost r: seq<Addr>)
      returns (ret: Addr, s: seq<NFASim>, l: SimPoolList)
    requires Linked(sims, pool, r)
    ensures r == [] ==> ret == NULL && s == sims && l == pool
    ensures r != [] ==> 0 < r[0] < |sims| && ret == r[0] && Relinked(sims, s, {ret}) && Linked(s, l, r[1..])
  {
    ret, s, l := NULL, sims, pool;
    if pool.head != NULL {
      ret := pool.head;
      if pool.head == pool.tail {
        assert |r| == 1;
        l := EMPTY;
      } else {
        l := pool.(head := sims[ret].next);
      }
      s := sims[ret := sims[ret].(next := NULL)];
    }
  }

  /** sim_pool_append */
  method SimPoolAppend(sims: seq<NFASim>, pool: SimPoolList, thread: Addr, ghost r: seq<Addr>)
      returns (s: seq<NFASim>, l: SimPoolList)
    requires Linked(sims, pool, r) && 0 < thread < |sims| && thread !in r
    ensures Linked(s, l, r + [thread]) && Relinked(sims, s, Elements(r) + {thread})
  {
    s, l := sims, pool;
    if pool.head == NULL {
      l := SimPoolList(thread, thread);
    } else {
      s := s[pool.tail := s[pool.tail].(next := thread)];
      l := l.(tail := thread);
    }
    s := s[thread := s[thread].(next := NULL)];
  }

  function Elements(r: seq<Addr>): set<Addr> { set a | a in r }

  // ---------------------------------------------------------------- all threads

  datatype Place = InPool | InActive | InNext | InHand

  /** Where each thread is, and the order of the lists. */
  datatype Held = Held(pool: seq<Addr>, active: seq<Addr>, next: seq<Addr>, place: seq<Place>)

  /** Every thread is in exactly one place, and each list holds exactly the threads placed there. The
      table has at least one thread; its entry 0 stands for NULL. */
  ghost predicate Placed(h: Held) {
    forall a :: 0 < a < |h.place| ==>
      && (a in Elements(h.pool) <==> h.place[a] == InPool)
      && (a in Elements(h.active) <==> h.place[a] == InActive)
      && (a in Elements(h.next) <==> h.place[a] == InNext)
  }

  ghost predicate Sound(l: Lists, h: Held) {
    && |h.place| == |l.sims| && 1 < |l.sims| && Placed(h)
    && Linked(l.sims, l.pool, h.pool) && Linked(l.sims, l.active, h.active) && Linked(l.sims, l.next, h.next)
  }

  ghost predicate OutOfLists(h: Held, t: Addr) { 0 < t < |h.place| && h.place[t] == InHand }

  lemma SoundSize(l: Lists, h: Held)
    requires Sound(l, h)
    ensures |h.place| == |l.sims| && 1 < |l.sims|
  {
  }

  /** The only thread in no list is t; none is, if t is NULL. */
  ghost predicate HandIs(h: Held, t: Addr) {
    && (t != NULL ==> OutOfLists(h, t))
    && forall a: Addr :: OutOfLists(h, a) ==> a == t
  }

  lemma HandAfter(l0: Lists, h0: Held, l1: Lists, h1: Held, t: Addr)
    requires SameHands(l0, h0, l1, h1, t) && HandIs(h0, t)
    ensures OutOfLists(h1, t) ==> HandIs(h1, t)
    ensures !OutOfLists(h1, t) ==> HandIs(h1, NULL)
  {
  }

  lemma HandNow(l0: Lists, h0: Held, l1: Lists, h1: Held, t: Addr)
    requires SameHands(l0, h0, l1, h1, t) && HandIs(h0, NULL)
    ensures OutOfLists(h1, t) ==> HandIs(h1, t)
    ensures !OutOfLists(h1, t) ==> HandIs(h1, NULL)
  {
  }

  function TaskOf(n: NFASim): Task { Task(n.ip, n.start, n.end) }

  ghost function Tasks(sims: seq<NFASim>, r: seq<Addr>): (ts: seq<Task>)
    requires forall i :: 0 <= i < |r| ==> r[i] < |sims|
    ensures |ts| == |r| && forall i :: 0 <= i < |r| ==> ts[i] == TaskOf(sims[r[i]])
  {
    seq(|r|, i requires 0 <= i < |r| => TaskOf(sims[r[i]]))
  }

  /** The threads in hand are the same, but for those in `but`, and so is what they know. */
  ghost predicate SameHands(l0: Lists, h0: Held, l1: Lists, h1: Held, but: Addr) {
    && |l0.sims| == |h0.place| <= |h1.place| == |l1.sims|
    && (forall a: Addr :: OutOfLists(h0, a) && a != but ==> OutOfLists(h1, a) && l1.sims[a] == l0.sims[a])
    && (forall a: Addr :: OutOfLists(h1, a) && a != but ==> OutOfLists(h0, a))
  }

  lemma HandsBoth(l0: Lists, h0: Held, l1: Lists, h1: Held, l2: Lists, h2: Held, t: Addr)
    requires SameHands(l0, h0, l1, h1, t) && SameHands(l1, h1, l2, h2, t)
    ensures SameHands(l0, h0, l2, h2, t)
  {
  }

  /** A thread that was not in hand before and is not now does not count. */
  lemma HandsAll(l0: Lists, h0: Held, l1: Lists, h1: Held, t: Addr)
    requires SameHands(l0, h0, l1, h1, t) && !OutOfLists(h0, t) && !OutOfLists(h1, t)
    ensures SameHands(l0, h0, l1, h1, NULL)
  {
  }

  lemma HandsMore(l0: Lists, h0: Held, l1: Lists, h1: Held, t: Addr)
    requires SameHands(l0, h0, l1, h1, NULL)
    ensures SameHands(l0, h0, l1, h1, t)
  {
  }

  lemma HandsItself(l: Lists, h: Held, t: Addr)
    requires |h.place| == |l.sims|
    ensures SameHands(l, h, l, h, t)
  {
  }

  lemma StillInHand(l0: Lists, h0: Held, l1: Lists, h1: Held, but: Addr, t: Addr)
    requires SameHands(l0, h0, l1, h1, but) && OutOfLists(h0, t) && t != but
    ensures OutOfLists(h1, t) && t < |l0.sims| && t < |l1.sims| && l1.sims[t] == l0.sims[t]
  {
  }

  ghost function Active(l: Lists, h: Held): seq<Task>
    requires Sound(l, h)
  {
    Tasks(l.sims, h.active)
  }

  ghost function Next(l: Lists, h: Held): seq<Task>
    requires Sound(l, h)
  {
    Tasks(l.sims, h.next)
  }

  /** Relinking threads that a list does not hold leaves it alone. */
  lemma ListKept(s0: seq<NFASim>, s1: seq<NFASim>, r: set<Addr>, l: SimPoolList, q: seq<Addr>)
    requires Relinked(s0, s1, r) && Linked(s0, l, q) && r !! Elements(q)
    ensures Linked(s1, l, q) && Tasks(s1, q) == Tasks(s0, q)
  {
    forall i | 0 <= i < |q| ensures s1[q[i]] == s0[q[i]] {
      assert q[i] in Elements(q);
    }
  }

  /** A thread of one list is in no other. */
  lemma Apart(l: Lists, h: Held)
    requires Sound(l, h)
    ensures Elements(h.pool) !! Elements(h.active) && Elements(h.pool) !! Elements(h.next)
    ensures Elements(h.active) !! Elements(h.next)
  {
    forall a | a in Elements(h.pool) + Elements(h.active) + Elements(h.next) ensures 0 < a < |h.place| {}
  }

  lemma OutIsOut(l: Lists, h: Held, t: Addr)
    requires Sound(l, h) && OutOfLists(h, t)
    ensures t !in Elements(h.pool) && t !in Elements(h.active) && t !in Elements(h.next) && 0 < t < |l.sims|
    ensures t !in h.pool && t !in h.active && t !in h.next
  {
  }

  lemma Rest(r: seq<Addr>)
    requires Distinct(r) && r != []
    ensures Elements(r[1..]) == Elements(r) - {r[0]}
  {
    assert r == [r[0]] + r[1..];
  }

  lemma More(r: seq<Addr>, t: Addr)
    ensures Elements(r + [t]) == Elements(r) + {t}
  {
  }

  /** Relinking threads of a list, and moving t, changes no other thread in hand. */
  lemma HandsKept(l0: Lists, h0: Held, l1: Lists, h1: Held, t: Addr, p: Place, r: set<Addr>)
    requires |l0.sims| == |h0.place| && t < |h0.place| && h1.place == h0.place[t := p]
    requires Relinked(l0.sims, l1.sims, r) && forall a: Addr :: a in r && a != t ==> !OutOfLists(h0, a)
    ensures SameHands(l0, h0, l1, h1, t)
  {
  }

  lemma InLists(l: Lists, h: Held)
    requires Sound(l, h)
    ensures forall a: Addr :: a in Elements(h.pool) + Elements(h.active) + Elements(h.next) ==> !OutOfLists(h, a)
  {
    forall a | a in Elements(h.pool) + Elements(h.active) + Elements(h.next) ensures 0 < a < |h.place| {}
  }

  /** sim_pool_append to thread_pool */
  method AppendPool(l0: Lists, ghost h0: Held, t: Addr) returns (l: Lists, ghost h: Held)
    requires Sound(l0, h0) && OutOfLists(h0, t)
    ensures Sound(l, h) && !OutOfLists(h, t) && SameHands(l0, h0, l, h, t) && |l.sims| == |l0.sims|
    ensures Active(l, h) == Active(l0, h0) && Next(l, h) == Next(l0, h0)
    ensures h.pool == h0.pool + [t] && l.active == l0.active && l.next == l0.next
  {
    Apart(l0, h0);
    OutIsOut(l0, h0, t);
    InLists(l0, h0);
    ghost var r := Elements(h0.pool) + {t};
    var sims, list := SimPoolAppend(l0.sims, l0.pool, t, h0.pool);
    l := l0.(sims := sims, pool := list);
    h := h0.(pool := h0.pool + [t], place := h0.place[t := InPool]);
    PoolMore(h0, t);
    HandsKept(l0, h0, l, h, t, InPool, r);
    ListKept(l0.sims, l.sims, r, l0.active, h0.active);
    ListKept(l0.sims, l.sims, r, l0.next, h0.next);
    hide Linked;
    hide Elements;
    hide Placed;
    hide Relinked;
    hide SameHands;
  }

  lemma PoolMore(h: Held, t: Addr)
    requires Placed(h) && OutOfLists(h, t)
    ensures Placed(h.(pool := h.pool + [t], place := h.place[t := InPool]))
  {
    More(h.pool, t);
    hide Elements;
  }

  /** sim_pool_append to active_threads */
  method AppendActive(l0: Lists, ghost h0: Held, t: Addr) returns (l: Lists, ghost h: Held)
    requires Sound(l0, h0) && OutOfLists(h0, t)
    ensures Sound(l, h) && !OutOfLists(h, t) && SameHands(l0, h0, l, h, t) && |l.sims| == |l0.sims|
    ensures Active(l, h) == Active(l0, h0) + [TaskOf(l0.sims[t])] && Next(l, h) == Next(l0, h0)
    ensures l.sims[t].status == l0.sims[t].status
  {
    Apart(l0, h0);
    OutIsOut(l0, h0, t);
    InLists(l0, h0);
    ghost var r := Elements(h0.active) + {t};
    var sims, list := SimPoolAppend(l0.sims, l0.active, t, h0.active);
    l := l0.(sims := sims, active := list);
    h := h0.(active := h0.active + [t], place := h0.place[t := InActive]);
    ActiveMore(h0, t);
    HandsKept(l0, h0, l, h, t, InActive, r);
    ListKept(l0.sims, l.sims, r, l0.pool, h0.pool);
    ListKept(l0.sims, l.sims, r, l0.next, h0.next);
    TasksMore(l0.sims, l.sims, r, h0.active, t);
    hide Linked;
    hide Elements;
    hide Placed;
    hide SameHands;
  }

  lemma ActiveMore(h: Held, t: Addr)
    requires Placed(h) && OutOfLists(h, t)
    ensures Placed(h.(active := h.active + [t], place := h.place[t := InActive]))
  {
    More(h.active, t);
    hide Elements;
  }

  lemma TasksMore(s0: seq<NFASim>, s1: seq<NFASim>, r: set<Addr>, q: seq<Addr>, t: Addr)
    requires Relinked(s0, s1, r) && t < |s0| && forall i :: 0 <= i < |q| ==> q[i] < |s0|
    ensures Tasks(s1, q + [t]) == Tasks(s0, q) + [TaskOf(s0[t])]
  {
  }

  /** sim_pool_append to next_threads */
  method AppendNext(l0: Lists, ghost h0: Held, t: Addr) returns (l: Lists, ghost h: Held)
    requires Sound(l0, h0) && OutOfLists(h0, t)
    ensures Sound(l, h) && !OutOfLists(h, t) && SameHands(l0, h0, l, h, t) && |l.sims| == |l0.sims|
    ensures Active(l, h) == Active(l0, h0) && Next(l, h) == Next(l0, h0) + [TaskOf(l0.sims[t])]
    ensures l.sims[t].status == l0.sims[t].status
  {
    Apart(l0, h0);
    OutIsOut(l0, h0, t);
    InLists(l0, h0);
    ghost var r := Elements(h0.next) + {t};
    var sims, list := SimPoolAppend(l0.sims, l0.next, t, h0.next);
    l := l0.(sims := sims, next := list);
    h := h0.(next := h0.next + [t], place := h0.place[t := InNext]);
    NextMore(h0, t);
    HandsKept(l0, h0, l, h, t, InNext, r);
    ListKept(l0.sims, l.sims, r, l0.pool, h0.pool);
    ListKept(l0.sims, l.sims, r, l0.active, h0.active);
    TasksMore(l0.sims, l.sims, r, h0.next, t);
    hide Linked;
    hide Elements;
    hide Placed;
    hide SameHands;
  }

  lemma NextMore(h: Held, t: Addr)
    requires Placed(h) && OutOfLists(h, t)
    ensures Placed(h.(next := h.next + [t], place := h.place[t := InNext]))
  {
    More(h.next, t);
    hide Elements;
  }

  /** sim_pool_shift from active_threads: NULL when it is empty. */
  method ShiftActive(l0: Lists, ghost h0: Held) returns (l: Lists, ghost h: Held, t: Addr)
    requires Sound(l0, h0)
    ensures Sound(l, h) && SameHands(l0, h0, l, h, t) && |l.sims| == |l0.sims|
    ensures Next(l, h) == Next(l0, h0)
    ensures Active(l0, h0) == [] ==> t == NULL && l == l0 && h == h0
    ensures Active(l0, h0) != [] ==> OutOfLists(h, t) && !OutOfLists(h0, t) && 0 < t < |l.sims|
    ensures Active(l0, h0) != [] ==> Active(l0, h0) == [TaskOf(l.sims[t])] + Active(l, h)
  {
    Apart(l0, h0);
    InLists(l0, h0);
    var ret, sims, list := SimPoolShift(l0.sims, l0.active, h0.active);
    l, t, h := l0.(sims := sims, active := list), ret, h0;
    if h0.active != [] {
      h := h0.(active := h0.active[1..], place := h0.place[ret := InHand]);
      ActiveLess(h0);
      HandsKept(l0, h0, l, h, ret, InHand, {ret});
      assert ret in Elements(h0.active);
      ListKept(l0.sims, l.sims, {ret}, l0.pool, h0.pool);
      ListKept(l0.sims, l.sims, {ret}, l0.next, h0.next);
      TasksLess(l0.sims, l.sims, {ret}, h0.active);
      hide Linked;
      hide Elements;
      hide Placed;
      hide SameHands;
    }
  }

  lemma ActiveLess(h: Held)
    requires Placed(h) && Distinct(h.active) && h.active != [] && 0 < h.active[0] < |h.place|
    ensures Placed(h.(active := h.active[1..], place := h.place[h.active[0] := InHand]))
    ensures h.place[h.active[0]] == InActive
  {
    Rest(h.active);
    assert h.active[0] in Elements(h.active);
    hide Elements;
  }

  lemma TasksLess(s0: seq<NFASim>, s1: seq<NFASim>, r: set<Addr>, q: seq<Addr>)
    requires Relinked(s0, s1, r) && q != [] && forall i :: 0 <= i < |q| ==> q[i] < |s0|
    ensures Tasks(s0, q) == [TaskOf(s1[q[0]])] + Tasks(s1, q[1..])
  {
  }

  lemma PoolLess(h: Held)
    requires Placed(h) && Distinct(h.pool) && h.pool != [] && 0 < h.pool[0] < |h.place|
    ensures Placed(h.(pool := h.pool[1..], place := h.place[h.pool[0] := InHand]))
    ensures h.place[h.pool[0]] == InPool
  {
    Rest(h.pool);
    assert h.pool[0] in Elements(h.pool);
    hide Elements;
  }

  /** A thread from the pool, or a new one when the pool is empty. */
  method TakeThread(l0: Lists, ghost h0: Held) returns (l: Lists, ghost h: Held, t: Addr)
    requires Sound(l0, h0)
    ensures Sound(l, h) && OutOfLists(h, t) && !OutOfLists(h0, t) && SameHands(l0, h0, l, h, t)
    ensures Active(l, h) == Active(l0, h0) && Next(l, h) == Next(l0, h0)
    ensures h0.pool != [] ==> t == h0.pool[0] && h.pool == h0.pool[1..] && |l.sims| == |l0.sims|
    ensures h0.pool == [] ==> t == |l0.sims| && h.pool == [] && |l.sims| == |l0.sims| + 1
  {
    PoolEnds(l0, h0);
    if l0.pool.head != NULL {
      l, h, t := ShiftPool(l0, h0);
    } else {
      l, h, t := NewThread(l0, h0);
    }
  }

  lemma PoolEnds(l: Lists, h: Held)
    requires Sound(l, h)
    ensures l.pool.head == NULL <==> h.pool == []
  {
  }

  method ShiftPool(l0: Lists, ghost h0: Held) returns (l: Lists, ghost h: Held, t: Addr)
    requires Sound(l0, h0) && l0.pool.head != NULL
    ensures Sound(l, h) && OutOfLists(h, t) && !OutOfLists(h0, t) && SameHands(l0, h0, l, h, t)
    ensures Active(l, h) == Active(l0, h0) && Next(l, h) == Next(l0, h0)
    ensures h0.pool != [] && t == h0.pool[0] && h.pool == h0.pool[1..] && |l.sims| == |l0.sims|
  {
    Apart(l0, h0);
    InLists(l0, h0);
    var sims, list;
    t, sims, list := SimPoolShift(l0.sims, l0.pool, h0.pool);
    l := l0.(sims := sims, pool := list);
    h := h0.(pool := h0.pool[1..], place := h0.place[t := InHand]);
    PoolLess(h0);
    HandsKept(l0, h0, l, h, t, InHand, {t});
    assert t in Elements(h0.pool);
    ListKept(l0.sims, l.sims, {t}, l0.active, h0.active);
    ListKept(l0.sims, l.sims, {t}, l0.next, h0.next);
    hide Linked;
    hide Elements;
    hide Placed;
    hide SameHands;
  }

  method NewThread(l0: Lists, ghost h0: Held) returns (l: Lists, ghost h: Held, t: Addr)
    requires Sound(l0, h0)
    ensures Sound(l, h) && OutOfLists(h, t) && !OutOfLists(h0, t) && SameHands(l0, h0, l, h, t)
    ensures Active(l, h) == Active(l0, h0) && Next(l, h) == Next(l0, h0)
    ensures t == |l0.sims| && h.pool == h0.pool && |l.sims| == |l0.sims| + 1
  {
    t := |l0.sims|;
    l := l0.(sims := l0.sims + [NFASim(NULL, 0, NIL, NIL, NULL)]);
    h := h0.(place := h0.place + [InHand]);
    LinkedMore(l0.sims, l.sims, l0.pool, h0.pool);
    LinkedMore(l0.sims, l.sims, l0.active, h0.active);
    LinkedMore(l0.sims, l.sims, l0.next, h0.next);
    NewInNone(l0, h0);
    NewPlaced(h0);
    NewInHand(l0, h0, l, h);
    hide Linked;
    hide Elements;
    hide Placed;
    hide SameHands;
    hide Tasks;
  }

  lemma NewInNone(l: Lists, h: Held)
    requires Sound(l, h)
    ensures |l.sims| !in Elements(h.pool) && |l.sims| !in Elements(h.active) && |l.sims| !in Elements(h.next)
  {
  }

  lemma NewInHand(l0: Lists, h0: Held, l: Lists, h: Held)
    requires |l0.sims| == |h0.place| > 0 && l0.sims <= l.sims && |l.sims| == |l0.sims| + 1
    requires h.place == h0.place + [InHand]
    ensures SameHands(l0, h0, l, h, |l0.sims|) && OutOfLists(h, |l0.sims|) && !OutOfLists(h0, |l0.sims|)
  {
  }

  lemma NewPlaced(h: Held)
    requires Placed(h) && 0 < |h.place|
    requires |h.place| !in Elements(h.pool) && |h.place| !in Elements(h.active) && |h.place| !in Elements(h.next)
    ensures Placed(h.(place := h.place + [InHand]))
  {
    hide Elements;
  }

  lemma LinkedMore(s0: seq<NFASim>, s1: seq<NFASim>, l: SimPoolList, q: seq<Addr>)
    requires Linked(s0, l, q) && s0 <= s1
    ensures Linked(s1, l, q) && Tasks(s1, q) == Tasks(s0, q)
  {
  }

  /** Writes to a thread in hand. */
  method SetThread(l0: Lists, ghost h: Held, t: Addr, n: NFASim) returns (l: Lists)
    requires Sound(l0, h) && OutOfLists(h, t)
    ensures Sound(l, h) && SameHands(l0, h, l, h, t) && l.sims[t] == n && |l.sims| == |l0.sims|
    ensures Active(l, h) == Active(l0, h) && Next(l, h) == Next(l0, h)
  {
    l := l0.(sims := l0.sims[t := n]);
    OutIsOut(l0, h, t);
    OthersKept(l0.sims, l.sims, t, l0.pool, h.pool);
    OthersKept(l0.sims, l.sims, t, l0.active, h.active);
    OthersKept(l0.sims, l.sims, t, l0.next, h.next);
    hide Linked;
    hide Elements;
    hide Placed;
  }

  lemma OthersKept(s0: seq<NFASim>, s1: seq<NFASim>, t: Addr, l: SimPoolList, q: seq<Addr>)
    requires Linked(s0, l, q) && |s1| == |s0| && t !in q && forall a :: 0 <= a < |s0| && a != t ==> s1[a] == s0[a]
    ensures Linked(s1, l, q) && Tasks(s1, q) == Tasks(s0, q)
  {
  }

  /** swap_next_w_active, when no thread is active */
  method SwapNextWithActive(l0: Lists, ghost h0: Held) returns (l: Lists, ghost h: Held)
    requires Sound(l0, h0) && Active(l0, h0) == []
    ensures Sound(l, h) && |l.sims| == |l0.sims| && Active(l, h) == Next(l0, h0) && Next(l, h) == []
    ensures SameHands(l0, h0, l, h, NULL)
  {
    l := l0.(active := l0.next, next := EMPTY);
    h := h0.(active := h0.next, next := [],
             place := seq(|h0.place|, a requires 0 <= a < |h0.place| =>
               if h0.place[a] == InNext then InActive else h0.place[a]));
    assert h0.active == [];
    hide Linked;
  }

  /** Hangs the second list onto the first. */
  method Splice(sims: seq<NFASim>, a: SimPoolList, b: SimPoolList, ghost r: seq<Addr>, ghost q: seq<Addr>)
      returns (s: seq<NFASim>, l: SimPoolList)
    requires Linked(sims, a, r) && Linked(sims, b, q) && Elements(r) !! Elements(q)
    ensures Linked(s, l, r + q) && Relinked(sims, s, Elements(r))
  {
    s := sims;
    if a.head == NULL {
      assert r + q == q;
      l := b;
    } else if b.head == NULL {
      assert r + q == r;
      l := a;
    } else {
      assert r[|r| - 1] in Elements(r);
      forall i, j | 0 <= i < |r| && 0 <= j < |q| ensures r[i] != q[j] {
        assert r[i] in Elements(r) && q[j] in Elements(q);
      }
      s := sims[a.tail := sims[a.tail].(next := b.head)];
      l := SimPoolList(a.head, b.tail);
    }
  }

  /** release_all_threads: active threads, those for the next character and the one in hand go
      back to the pool, in that order. */
  method ReleaseAll(l0: Lists, ghost h0: Held, thread: Addr) returns (l: Lists, ghost h: Held)
    requires Sound(l0, h0) && (thread != NULL ==> OutOfLists(h0, thread))
    ensures Sound(l, h) && l.active == EMPTY && l.next == EMPTY && |l.sims| == |l0.sims|
    ensures h.pool == h0.pool + h0.active + h0.next + if thread == NULL then [] else [thread]
    ensures forall t: Addr :: OutOfLists(h, t) ==> OutOfLists(h0, t) && t != thread
  {
    l, h := ReleaseQueues(l0, h0);
    hide *;
    if thread != NULL {
      ghost var l1, h1 := l, h;
      l, h := AppendPool(l, h, thread);
      OutBefore(l1, h1, l, h, thread);
    } else {
      assert h.pool + [] == h.pool;
      NoneIsNull(h);
    }
  }

  lemma OutBefore(l0: Lists, h0: Held, l: Lists, h: Held, thread: Addr)
    requires SameHands(l0, h0, l, h, thread) && !OutOfLists(h, thread)
    ensures forall t: Addr :: OutOfLists(h, t) ==> OutOfLists(h0, t) && t != thread
  {
  }

  lemma NoneIsNull(h: Held)
    ensures !OutOfLists(h, NULL)
  {
  }

  method ReleaseQueues(l0: Lists, ghost h0: Held) returns (l: Lists, ghost h: Held)
    requires Sound(l0, h0)
    ensures Sound(l, h) && l.active == EMPTY && l.next == EMPTY && |l.sims| == |l0.sims|
    ensures h.pool == h0.pool + h0.active + h0.next
    ensures forall t: Addr :: OutOfLists(h, t) <==> OutOfLists(h0, t)
  {
    Apart(l0, h0);
    Joined(h0.pool, h0.active);
    hide Elements;
    hide Linked;
    hide Relinked;
    hide Placed;
    hide OutOfLists;
    ghost var r := h0.pool + h0.active;
    var sims, pool := Splice(l0.sims, l0.pool, l0.active, h0.pool, h0.active);
    ListKept(l0.sims, sims, Elements(h0.pool), l0.next, h0.next);
    var sims2, all := Splice(sims, pool, l0.next, r, h0.next);
    l := Lists(sims2, all, EMPTY, EMPTY);
    h := Released(h0);
    SplicedSound(l0, h0, sims, sims2, all, l);
    hide Sound;
  }

  ghost function Released(h: Held): Held {
    Held(h.pool + h.active + h.next, [], [],
         seq(|h.place|, a requires 0 <= a < |h.place| => if h.place[a] == InHand then InHand else InPool))
  }

  lemma SplicedSound(l0: Lists, h0: Held, s1: seq<NFASim>, s2: seq<NFASim>, all: SimPoolList, l: Lists)
    requires Sound(l0, h0) && Relinked(l0.sims, s1, Elements(h0.pool))
    requires Relinked(s1, s2, Elements(h0.pool + h0.active))
    requires Linked(s2, all, h0.pool + h0.active + h0.next) && l == Lists(s2, all, EMPTY, EMPTY)
    ensures Sound(l, Released(h0)) && |l.sims| == |l0.sims|
    ensures forall t: Addr :: OutOfLists(Released(h0), t) <==> OutOfLists(h0, t)
  {
    Joined(h0.pool, h0.active);
    Joined(h0.pool + h0.active, h0.next);
    hide Elements;
    hide Relinked;
    assert |s1| == |l0.sims| && |s2| == |s1| by {
      SameSize(l0.sims, s1, Elements(h0.pool));
      SameSize(s1, s2, Elements(h0.pool + h0.active));
    }
    hide Linked;
    NothingIn();
    assert Linked(s2, EMPTY, []) by { EmptyLinked(s2); }
    assert Placed(Released(h0));
  }

  lemma SameSize(s0: seq<NFASim>, s1: seq<NFASim>, r: set<Addr>)
    requires Relinked(s0, s1, r)
    ensures |s1| == |s0|
  {
  }

  lemma NothingIn()
    ensures Elements([]) == {}
  {
  }

  lemma EmptyLinked(s: seq<NFASim>)
    ensures Linked(s, EMPTY, [])
  {
  }

  lemma Joined(r: seq<Addr>, q: seq<Addr>)
    ensures Elements(r + q) == Elements(r) + Elements(q)
  {
  }

  lemma NextHead(l: Lists, h: Held)
    requires Sound(l, h)
    ensures l.next.head == NULL <==> Next(l, h) == []
  {
  }

  /** When no thread is queued or in hand, the pool is not empty. */
  lemma PoolHead(l: Lists, h: Held)
    requires Sound(l, h) && HandIs(h, NULL) && Active(l, h) == [] && Next(l, h) == []
    ensures l.pool.head != NULL
  {
    assert !OutOfLists(h, 1);
    assert h.active == [] && h.next == [];
    assert 1 in Elements(h.pool);
  }
}
