/** The simulation of src/recognizer.c on one line at a time, without keyword prefilter, intervals,
    backreferences, anchors and case folding. */
module Recognizer {
  import opened Bytes
  import opened Regex
  import opened NfaConstruct
  import opened NfaAlloc
  import opened ThreadSpec
  import opened ThreadLists
  import opened LongestMatches
  import opened RunSpec

  class NFASimCtrl {
    const nodes: seq<NFA>
    const startState: Addr
    const flags: Flags
    ghost const m: Program

    var text: Word                 // the line, up to its NUL
    var curPos: Pos
    var lists: Lists
    var sp: seq<Pos>               // active_threads_sp
    var held: (Pos, Pos)           // first and last position of the match held
    var printed: seq<(int, int)>   // first and last positions of what new_match has put out
    ghost var h: Held

    /** new_nfa_sim: one thread, in the pool, and no marks. */
    constructor (nodes: seq<NFA>, startState: Addr, ids: nat, flags: Flags, ghost m: Program)
      requires m.Valid() && nodes == m.nodes && startState == m.start && ids == m.ids
      ensures this.m == m && this.flags == flags && HandOk(NULL) && AllInPool(lists, h) && |lists.sims| == 2
      ensures Resumable(m, sp, 0) && printed == []
    {
      this.nodes, this.startState, this.flags, this.m := nodes, startState, flags, m;
      text, curPos, held, printed := [], 0, (NIL, NIL), [];
      var list := SimPoolList(1, 1);
      lists := Lists([NFASim(NULL, 0, NIL, NIL, NULL), NFASim(startState, 0, NIL, NIL, NULL)], list, EMPTY, EMPTY);
      sp := seq(ids, i => NIL);
      h := Held([1], [], [], [InPool, InPool]);
      new;
      NewSim(m, lists, h, sp);
      hide Sound;
      hide Program.Valid;
      hide AllInPool;
      hide Resumable;
      hide HandIs;
    }

    ghost predicate Valid()
      reads this`lists, this`h, this`sp
    {
      && m.Valid() && nodes == m.nodes && startState == m.start
      && Sound(lists, h) && |h.place| == |lists.sims| && |sp| == m.ids
    }

    ghost function Q(): Sim
      requires Valid()
      reads this`lists, this`h, this`sp
    {
      Sim(Active(lists, h), Next(lists, h), sp)
    }

    /** load_next: a thread that is not queued keeps status -1. */
    method LoadNext(sim: Addr, nfa: Addr, toNext: bool, look: Pos)
      requires Valid() && OutOfLists(h, sim) && nfa in m.w && 0 <= look <= |text|
      requires nfa < |nodes| && nodes[nfa].id < m.ids
      modifies this`lists, this`h, this`sp
      ensures Valid() && SameHands(old(lists), old(h), lists, h, sim) && sim < |lists.sims|
      ensures Q() == Queue(m, text, old(Q()), nfa, TaskOf(old(lists.sims[sim])), toNext, look)
      ensures OutOfLists(h, sim) ==> Q() == old(Q()) && lists.sims[sim].status == -1
      ensures !OutOfLists(h, sim) ==> lists.sims[sim].status == 0
    {
      hide Sound;
      hide Program.Valid;
      var n := nodes[nfa];
      var s := lists.sims[sim];
      if n.value == ACCEPTING {
        lists := SetThread(lists, h, sim, s.(ip := nfa, status := 0));
        lists, h := AppendActive(lists, h, sim);
      } else {
        var fits := true;
        lists := SetThread(lists, h, sim, s.(status := -1));
        if sp[n.id] != look {
          if n.value.LITERAL? {
            fits := n.value.c == CharAt(text, look);
          } else if n.value.RANGE? {
            fits := IsLiteralInRange(n.value.cs, CharAt(text, look));
          }
          if fits {
            sp := sp[n.id := look];
            lists := SetThread(lists, h, sim, s.(ip := nfa, status := 0));
            if toNext {
              lists, h := AppendNext(lists, h, sim);
            } else {
              lists, h := AppendActive(lists, h, sim);
            }
          }
        }
      }
    }

    /** Puts a new thread where it can go on, or back into the pool. */
    method LoadClone(clone: Addr, nfa: Addr, toNext: bool, look: Pos)
      requires Valid() && OutOfLists(h, clone) && nfa in m.w && 0 <= look <= |text|
      requires nfa < |nodes| && nodes[nfa].id < m.ids
      modifies this`lists, this`h, this`sp
      ensures Valid() && SameHands(old(lists), old(h), lists, h, clone) && !OutOfLists(h, clone)
      ensures Q() == Queue(m, text, old(Q()), nfa, TaskOf(old(lists.sims[clone])), toNext, look)
    {
      ghost var l0, h0 := lists, h;
      hide Sound;
      hide Program.Valid;
      hide SameHands;
      hide Queue;
      LoadNext(clone, nfa, toNext, look);
      if lists.sims[clone].status == -1 {
        ghost var l1, h1 := lists, h;
        lists, h := AppendPool(lists, h, clone);
        HandsBoth(l0, h0, l1, h1, lists, h, clone);
      }
    }

    /** A thread at node nfa that knows what sim knows. */
    method NewClone(nfa: Addr, sim: Addr) returns (clone: Addr)
      requires Valid() && OutOfLists(h, sim)
      modifies this`lists, this`h
      ensures Valid() && SameHands(old(lists), old(h), lists, h, clone) && Q() == old(Q())
      ensures OutOfLists(h, clone) && !OutOfLists(old(h), clone)
      ensures TaskOf(lists.sims[clone]) == TaskOf(old(lists.sims[sim])).(ip := nfa)
    {
      ghost var l0, h0 := lists, h;
      hide Sound;
      hide Program.Valid;
      hide SameHands;
      lists, h, clone := TakeThread(lists, h);
      StillInHand(l0, h0, lists, h, clone, sim);
      ghost var l1, h1 := lists, h;
      var s := lists.sims[sim];
      lists := SetThread(lists, h, clone, lists.sims[clone].(status := 0, ip := nfa, start := s.start, end := s.end));
      HandsBoth(l0, h0, l1, h1, lists, h, clone);
    }

    /** thread_clone: a copy of the thread for another node, if the lookahead test lets it through. */
    method ThreadClone(nfa: Addr, sim: Addr, toNext: bool, look: Pos)
      requires Valid() && OutOfLists(h, sim) && nfa in m.w && 0 <= look <= |text|
      requires nfa < |nodes| && nodes[nfa].id < m.ids
      modifies this`lists, this`h, this`sp
      ensures Valid() && SameHands(old(lists), old(h), lists, h, NULL)
      ensures Q() == Queue(m, text, old(Q()), nfa, TaskOf(old(lists.sims[sim])), toNext, look)
    {
      ghost var l0, h0, q0, t := lists, h, Q(), TaskOf(lists.sims[sim]);
      HandsItself(l0, h0, NULL);
      QueueFrom(m, text, q0, nfa, t.(ip := nfa), t, toNext, look);
      assert nodes == m.nodes;
      hide Sound;
      hide Program.Valid;
      hide SameHands;
      if nodes[nfa].value.LITERAL? && nodes[nfa].value.c != CharAt(text, look) {
        return;
      }
      if nodes[nfa].value.RANGE? && !IsLiteralInRange(nodes[nfa].value.cs, CharAt(text, look)) {
        return;
      }
      hide *;
      var clone := NewClone(nfa, sim);
      ghost var l1, h1 := lists, h;
      LoadClone(clone, nfa, toNext, look);
      HandsBoth(l0, h0, l1, h1, lists, h, clone);
      HandsAll(l0, h0, lists, h, clone);
    }

    /** process_adjacents: clones for all successors but the first, which the thread itself takes. */
    method ProcessAdjacents(sim: Addr, nfa: Addr, look: Pos)
      requires Valid() && OutOfLists(h, sim) && nfa in m.w && nfa != m.accept && 0 <= look <= |text|
      modifies this`lists, this`h, this`sp
      ensures Valid() && SameHands(old(lists), old(h), lists, h, sim) && sim < |lists.sims|
      ensures Q() == QueuedAll(m, text, old(Q()), nfa, TaskOf(old(lists.sims[sim])), look)
      ensures OutOfLists(h, sim) ==> lists.sims[sim].status == -1
      ensures !OutOfLists(h, sim) ==> lists.sims[sim].status == 0
    {
      ghost var l0, h0, q0, t := lists, h, Q(), TaskOf(lists.sims[sim]);
      ghost var xs := m.nodes[nfa].reachable;
      HandsItself(l0, h0, NULL);
      QueuedNone(m, text, q0, nfa, t, look);
      assert nodes == m.nodes;
      hide *;
      var i := 1;
      while i < |nodes[nfa].reachable|
        invariant 1 <= i <= |xs| && Valid() && SameHands(l0, h0, lists, h, NULL)
        invariant Q() == QueuedTo(m, text, q0, nfa, i, t, look)
      {
        ghost var l1, h1 := lists, h;
        StillInHand(l0, h0, l1, h1, NULL, sim);
        QueuedNext(m, text, q0, nfa, i, t, look);
        ThreadClone(nodes[nfa].reachable[i], sim, true, look);
        HandsBoth(l0, h0, l1, h1, lists, h, NULL);
        i := i + 1;
      }
      assert i == |xs|;
      ghost var l2, h2 := lists, h;
      StillInHand(l0, h0, l2, h2, NULL, sim);
      QueuedLast(m, text, q0, nfa, t, look);
      HandsMore(l0, h0, l2, h2, sim);
      LoadNext(sim, nodes[nfa].reachable[0], true, look);
      HandsBoth(l0, h0, l2, h2, lists, h, sim);
    }

    method SetStatus(sim: Addr, status: int)
      requires Valid() && OutOfLists(h, sim)
      modifies this`lists
      ensures Valid() && OutOfLists(h, sim) && SameHands(old(lists), h, lists, h, sim) && sim < |lists.sims|
      ensures Q() == old(Q()) && lists.sims[sim].status == status
      ensures TaskOf(lists.sims[sim]) == TaskOf(old(lists.sims[sim]))
    {
      hide Sound;
      hide Program.Valid;
      lists := SetThread(lists, h, sim, lists.sims[sim].(status := status));
    }

    /** update_match */
    method UpdateMatch(sim: Addr)
      requires Valid() && OutOfLists(h, sim) && 0 <= curPos
      modifies this`lists
      ensures Valid() && OutOfLists(h, sim) && SameHands(old(lists), h, lists, h, sim) && sim < |lists.sims|
      ensures Q() == old(Q()) && TaskOf(lists.sims[sim]) == Consumed(TaskOf(old(lists.sims[sim])), curPos)
    {
      hide Sound;
      hide Program.Valid;
      var s := lists.sims[sim];
      if s.start < 0 {
        lists := SetThread(lists, h, sim, s.(start := curPos, end := curPos));
      } else {
        lists := SetThread(lists, h, sim, s.(end := curPos));
      }
    }

    /** The thread consumes the current character. */
    method Consume(sim: Addr)
      requires Valid() && OutOfLists(h, sim) && 0 <= curPos < |text|
      requires lists.sims[sim].ip in m.w && lists.sims[sim].ip != m.accept
      modifies this`lists, this`h, this`sp
      ensures Valid() && SameHands(old(lists), old(h), lists, h, sim) && sim < |lists.sims|
      ensures var t := TaskOf(old(lists.sims[sim]));
              Q() == QueuedAll(m, text, old(Q()), t.ip, Consumed(t, curPos), curPos + 1)
      ensures OutOfLists(h, sim) ==> lists.sims[sim].status == -1
      ensures !OutOfLists(h, sim) ==> lists.sims[sim].status == 0
    {
      hide Sound;
      hide Program.Valid;
      hide SameHands;
      hide QueuedAll;
      ghost var l0, h0 := lists, h;
      UpdateMatch(sim);
      ghost var l1, h1 := lists, h;
      ProcessAdjacents(sim, lists.sims[sim].ip, curPos + 1);
      HandsBoth(l0, h0, l1, h1, lists, h, sim);
    }

    /** The node accepts the character. */
    method StepOn(sim: Addr, ghost v: Value, ghost c: Byte) returns (status: int)
      requires Valid() && OutOfLists(h, sim) && 0 <= curPos < |text|
      requires lists.sims[sim].ip in m.w && lists.sims[sim].ip != m.accept && lists.sims[sim].ip < |nodes|
      requires v == nodes[lists.sims[sim].ip].value && c == CharAt(text, curPos) && c != NUL && AcceptsInput(v, c)
      modifies this`lists, this`h, this`sp
      ensures Valid() && SameHands(old(lists), old(h), lists, h, sim) && sim < |lists.sims|
      ensures Dispatched(m, text, old(Q()), TaskOf(old(lists.sims[sim])), curPos, Q(), status)
      ensures status in {-1, 0} && (status == 0 <==> !OutOfLists(h, sim))
    {
      ghost var q0, t := Q(), TaskOf(lists.sims[sim]);
      assert nodes == m.nodes && m.Valid() && t.ip == lists.sims[sim].ip && |q0.sp| == m.ids;
      hide *;
      Consume(sim);
      status := lists.sims[sim].status;
      DispatchedOn(m, text, q0, t, curPos, Q(), status, v, c);
    }

    /** The node does not accept it, or there is nothing left to accept. */
    method StepOff(sim: Addr, status: int, ghost v: Value, ghost c: Byte)
      requires Valid() && OutOfLists(h, sim) && 0 <= curPos <= |text|
      requires lists.sims[sim].ip in m.w && lists.sims[sim].ip < |nodes|
      requires v == nodes[lists.sims[sim].ip].value && c == CharAt(text, curPos)
      requires if c == NUL || v == ACCEPTING then status == 1 else status == -1 && !AcceptsInput(v, c)
      modifies this`lists
      ensures Valid() && SameHands(old(lists), h, lists, h, sim) && sim < |lists.sims| && OutOfLists(h, sim)
      ensures Dispatched(m, text, old(Q()), TaskOf(old(lists.sims[sim])), curPos, Q(), status)
      ensures TaskOf(lists.sims[sim]) == TaskOf(old(lists.sims[sim]))
    {
      ghost var q0, t := Q(), TaskOf(lists.sims[sim]);
      assert nodes == m.nodes && m.Valid() && t.ip == lists.sims[sim].ip && |q0.sp| == m.ids;
      hide *;
      SetStatus(sim, status);
      DispatchedStop(m, text, q0, t, curPos, status, v, c);
    }

    /** thread_step: 1 reports a match, -1 gives the thread up, 0 has queued it again. */
    method ThreadStep(sim: Addr) returns (status: int)
      requires Valid() && OutOfLists(h, sim) && 0 <= curPos <= |text| && lists.sims[sim].ip in m.w
      modifies this`lists, this`h, this`sp
      ensures Valid() && SameHands(old(lists), old(h), lists, h, sim) && sim < |lists.sims|
      ensures Stepped(m, text, old(Q()), TaskOf(old(lists.sims[sim])), curPos, Q(), status)
      ensures status == 0 <==> !OutOfLists(h, sim)
      ensures status == 1 ==> TaskOf(lists.sims[sim]) == TaskOf(old(lists.sims[sim]))
    {
      ghost var q0, t := Q(), TaskOf(lists.sims[sim]);
      NumberInUse(m, t.ip);
      hide Sound;
      hide Program.Valid;
      hide SameHands;
      hide Dispatched;
      var ip := lists.sims[sim].ip;
      sp := sp[nodes[ip].id := NIL];
      status := Dispatch(sim);
    }

    method Dispatch(sim: Addr) returns (status: int)
      requires Valid() && OutOfLists(h, sim) && 0 <= curPos <= |text| && lists.sims[sim].ip in m.w
      requires lists.sims[sim].ip < |nodes|
      modifies this`lists, this`h, this`sp
      ensures Valid() && SameHands(old(lists), old(h), lists, h, sim) && sim < |lists.sims|
      ensures Dispatched(m, text, old(Q()), TaskOf(old(lists.sims[sim])), curPos, Q(), status)
      ensures status == 0 <==> !OutOfLists(h, sim)
      ensures status == 1 ==> TaskOf(lists.sims[sim]) == TaskOf(old(lists.sims[sim]))
    {
      var ip := lists.sims[sim].ip;
      NumberInUse(m, ip);
      assert nodes == m.nodes;
      hide *;
      var v, c := nodes[ip].value, CharAt(text, curPos);
      HasInput(text, curPos);
      if c != NUL && v != ACCEPTING && AcceptsInput(v, c) {
        status := StepOn(sim, v, c);
      } else {
        status := if c == NUL || v == ACCEPTING then 1 else -1;
        StepOff(sim, status, v, c);
      }
    }

    /** One round of load_start_states. */
    method LoadStartState(x: Addr, look: Pos)
      requires Valid() && 0 <= look <= |text| && x in m.w && x < |nodes| && nodes[x].id < m.ids
      modifies this`lists, this`h, this`sp
      ensures Valid() && SameHands(old(lists), old(h), lists, h, NULL)
      ensures Q() == LoadOne(m, text, old(Q()), x, look)
    {
      ghost var l0, h0 := lists, h;
      hide Sound;
      hide Program.Valid;
      hide SameHands;
      hide Queue;
      var clone;
      lists, h, clone := TakeThread(lists, h);
      ghost var l1, h1 := lists, h;
      lists := SetThread(lists, h, clone, lists.sims[clone].(ip := x, status := 0, start := NIL, end := NIL));
      HandsBoth(l0, h0, l1, h1, lists, h, clone);
      ghost var l2, h2 := lists, h;
      if nodes[x].value.RANGE? {
        if !IsLiteralInRange(nodes[x].value.cs, CharAt(text, look)) {
          lists, h := AppendPool(lists, h, clone);
        } else {
          lists, h := AppendActive(lists, h, clone);
        }
        HandsBoth(l0, h0, l2, h2, lists, h, clone);
      } else {
        LoadClone(clone, x, false, look);
        HandsBoth(l0, h0, l2, h2, lists, h, clone);
      }
      HandsAll(l0, h0, lists, h, clone);
    }

    /** load_start_states, when both queues are empty */
    method LoadStartStates(look: nat)
      requires Valid() && look <= |text| && Q().active == [] && Q().next == []
      modifies this`lists, this`h, this`sp
      ensures Valid() && SameHands(old(lists), old(h), lists, h, NULL)
      ensures Loaded(m, text, old(sp), look, Q())
    {
      ghost var l0, h0, sp0 := lists, h, sp;
      HandsItself(l0, h0, NULL);
      NoneLoadedYet(m, text, Q(), look);
      var list := nodes[startState].reachable;
      assert list == First(m) && Q().sp == sp0;
      hide *;
      LoadList(list, look, sp0);
      AllLoaded(m, text, sp0, list, |list|, look, Q());
    }

    method LoadNth(list: seq<Addr>, i: nat, look: nat, ghost sp0: seq<Pos>)
      requires Valid() && list == First(m) && i < |list| && Loads(m, text, sp0, i, look, Q())
      modifies this`lists, this`h, this`sp
      ensures Valid() && SameHands(old(lists), old(h), lists, h, NULL)
      ensures Loads(m, text, sp0, i + 1, look, Q())
    {
      ghost var q := Q();
      FirstUsable(m, text, sp0, list, i, look, q);
      assert nodes == m.nodes && m.Valid();
      hide *;
      LoadStartState(list[i], look);
      NextLoaded(m, text, sp0, list, i, look, q, Q());
    }

    method LoadList(list: seq<Addr>, look: nat, ghost sp0: seq<Pos>)
      requires Valid() && list == First(m) && Loads(m, text, sp0, 0, look, Q())
      modifies this`lists, this`h, this`sp
      ensures Valid() && SameHands(old(lists), old(h), lists, h, NULL)
      ensures Loads(m, text, sp0, |list|, look, Q())
    {
      ghost var l0, h0 := lists, h;
      HandsItself(l0, h0, NULL);
      hide *;
      for i := 0 to |list|
        invariant Valid() && SameHands(l0, h0, lists, h, NULL)
        invariant Loads(m, text, sp0, i, look, Q())
      {
        ghost var l1, h1 := lists, h;
        LoadNth(list, i, look, sp0);
        HandsBoth(l0, h0, l1, h1, lists, h, NULL);
      }
    }

    // -------------------------------------------------------------- a run

    /** The thread in hand, if there is one. */
    ghost function Front(thread: Addr): seq<Task>
      requires thread < |lists.sims|
      reads this`lists
    {
      if thread == NULL then [] else [TaskOf(lists.sims[thread])]
    }

    ghost predicate HandOk(thread: Addr)
      reads this`lists, this`h, this`sp
    {
      Valid() && HandIs(h, thread) && thread < |lists.sims|
    }

    /** The attempt that started at i is under way, with the given thread in hand. */
    ghost predicate Running(thread: Addr, i: nat, done: set<Addr>, found: set<nat>)
      reads this`lists, this`h, this`sp, this`text, this`curPos
    {
      && HandOk(thread) && Line(text) && 0 <= curPos && (thread == NULL ==> Q().active == [])
      && Attempt(m, text, Front(thread) + Q().active, Q().next, sp, i, curPos, done, found)
    }

    /** The same between two threads: the one in hand has been stepped. */
    ghost predicate Stepping(i: nat, done: set<Addr>, found: set<nat>)
      reads this`lists, this`h, this`sp, this`text, this`curPos
    {
      && Valid() && Line(text) && 0 <= curPos
      && Attempt(m, text, Q().active, Q().next, sp, i, curPos, done, found)
    }

    /** How much the threads ts have still to do. */
    ghost function Work(ts: seq<Task>): (nat, nat) { (Consumers(m.accept, ts), |ts|) }

    ghost function Left(thread: Addr): (nat, nat)
      requires HandOk(thread)
      reads this`lists, this`h, this`sp
    {
      Work(Front(thread) + Q().active)
    }

    /** The work left when the thread in hand has been stepped. */
    ghost function Rest(): (nat, nat)
      requires Valid()
      reads this`lists, this`h, this`sp
    {
      Work(Q().active)
    }

    /** Goes on to the next active thread, if there is one. */
    method Continue(thread: Addr, status: int, ghost i: nat, ghost d: set<Addr>, ghost f: set<nat>)
        returns (next: Addr)
      requires HandOk(if status == 0 then NULL else thread) && (status != 0 ==> thread != NULL)
      requires Stepping(i, d, f)
      modifies this`lists, this`h
      ensures Running(next, i, d, f) && HandOk(next) && Left(next) == old(Rest())
    {
      hide Valid;
      hide HandIs;
      hide Attempt;
      hide Consumers;
      next := NextThread(thread, status);
    }

    /** release_thread, or only sim_pool_shift when the thread has been queued again. */
    method NextThread(thread: Addr, status: int) returns (next: Addr)
      requires HandOk(if status == 0 then NULL else thread) && (status != 0 ==> thread != NULL)
      modifies this`lists, this`h
      ensures HandOk(next) && Q().next == old(Q().next)
      ensures Front(next) + Q().active == old(Q().active) && (next == NULL ==> Q().active == [])
    {
      hide Sound;
      hide Program.Valid;
      hide SameHands;
      hide HandIs;
      hide OutOfLists;
      assert status != 0 ==> OutOfLists(h, thread) by { InHandNow(h, thread, status); }
      if status != 0 {
        ghost var l0, h0 := lists, h;
        lists, h := AppendPool(lists, h, thread);
        HandAfter(l0, h0, lists, h, thread);
      }
      ghost var l1, h1 := lists, h;
      lists, h, next := ShiftActive(lists, h);
      HandNow(l1, h1, lists, h, next);
      SoundSize(lists, h);
      assert [] + Q().active == Q().active;
    }

    /** One thread looks at the current character. */
    method RunThread(thread: Addr, ghost i: nat, ghost done: set<Addr>, ghost found: set<nat>)
        returns (status: int, ghost d: set<Addr>, ghost f: set<nat>)
      requires Running(thread, i, done, found) && thread != NULL
      modifies this`lists, this`h, this`sp
      ensures HandOk(if status == 0 then NULL else thread) && thread < |lists.sims|
      ensures Stepping(i, d, f) && FoundOk(m, text, f, i)
      ensures if status == 1 then Reported(m, text, TaskOf(lists.sims[thread]), i, found, f) else f == found
      ensures Valid() && Fewer(Rest(), old(Left(thread)))
    {
      ghost var l0, h0, q0, t := lists, h, Q(), TaskOf(lists.sims[thread]);
      FewerFirst(m, t, q0.active);
      FirstOk(m, text, t, q0.active, q0.next, q0.sp, i, curPos, done, found);
      InHandNow(h, thread, 1);
      SoundSize(lists, h);
      hide Sound;
      hide Program.Valid;
      hide SameHands;
      hide HandIs;
      hide OutOfLists;
      hide Attempt;
      hide Stepped;
      hide Consumers;
      status := ThreadStep(thread);
      HandAfter(l0, h0, lists, h, thread);
      AfterThreadStep(m, text, t, q0, Q(), status, i, curPos, done, found);
      d, f := done, found;
      if status == 1 {
        f := found + {End(t, i) as nat};
      } else {
        d := done + {t.ip};
      }
      AttemptFound(m, text, Q().active, Q().next, sp, i, curPos, d, f);
    }

    /** new_match, without file names and line numbers */
    method NewMatch()
      modifies this`printed
      ensures printed == old(printed) + Output(flags, held, |text|)
    {
      if !flags.silent && held.0 != NIL && held.0 <= held.1 {
        printed := printed + [if flags.showLine then (0, |text| - 2) else held];
      }
    }

    /** Notes the match that the thread reports; quit says that the run is over. */
    method Match(thread: Addr, ghost i: nat, ghost found: set<nat>, ghost f: set<nat>) returns (quit: bool)
      requires thread < |lists.sims| && Reported(m, text, TaskOf(lists.sims[thread]), i, found, f)
      requires HeldOk(flags, held, found, i)
      modifies this`held, this`printed
      ensures HeldOk(flags, held, f, i) && f != {} && (quit <==> !flags.mglobal && !flags.invert)
      ensures LeastAdded(m, text, i, found, f)
      ensures printed == old(printed) + if quit && flags.Individual() then Output(flags, held, |text|) else []
    {
      quit := false;
      if flags.Individual() {
        UpdateHolds(held, found, TaskOf(lists.sims[thread]), i);
        held := UpdateLongest(held, (lists.sims[thread].start, lists.sims[thread].end));
        if !flags.mglobal {
          NewMatch();
          quit := true;
        }
      } else if !flags.invert && !flags.mglobal {
        quit := true;
      }
    }

    /** One round of the loop over the active threads. */
    method RunOne(thread: Addr, ghost i: nat, ghost done: set<Addr>, ghost found: set<nat>)
        returns (next: Addr, matched: bool, quit: bool, ghost d: set<Addr>, ghost f: set<nat>)
      requires Running(thread, i, done, found) && HeldOk(flags, held, found, i) && thread != NULL
      modifies this`lists, this`h, this`sp, this`held, this`printed
      ensures if quit then HandOk(next) else Running(next, i, d, f)
      ensures !quit ==> Fewer(Left(next), old(Left(thread)))
      ensures HeldOk(flags, held, f, i) && FoundOk(m, text, f, i) && (if matched then f != {} else f == found)
      ensures quit <==> matched && !flags.mglobal && !flags.invert
      ensures quit ==> LeastAdded(m, text, i, found, f)
      ensures printed == old(printed) + if quit && flags.Individual() then Output(flags, held, |text|) else []
    {
      hide *;
      var status;
      status, d, f := RunThread(thread, i, done, found);
      matched, quit, next := false, false, thread;
      if status == 1 {
        matched := true;
        quit := Match(thread, i, found, f);
      }
      if !quit {
        next := Continue(thread, status, i, d, f);
      }
    }

    /** The loop over the active threads. */
    method RunThreads(first: Addr, ghost i: nat, ghost done: set<Addr>, ghost found: set<nat>)
        returns (thread: Addr, matched: bool, quit: bool, ghost d: set<Addr>, ghost f: set<nat>)
      requires Running(first, i, done, found) && HeldOk(flags, held, found, i) && FoundOk(m, text, found, i)
      modifies this`lists, this`h, this`sp, this`held, this`printed
      ensures if quit then HandOk(thread) else thread == NULL && Running(NULL, i, d, f)
      ensures quit <==> matched && !flags.mglobal && !flags.invert
      ensures quit ==> LeastAdded(m, text, i, found, f)
      ensures HeldOk(flags, held, f, i) && FoundOk(m, text, f, i) && (if matched then f != {} else f == found)
      ensures printed == old(printed) + if quit && flags.Individual() then Output(flags, held, |text|) else []
    {
      thread, matched, quit, d, f := first, false, false, done, found;
      assert HandOk(first);
      hide FoundOk;
      hide LeastAdded;
      hide Running;
      hide HandOk;
      hide HeldOk;
      hide Output;
      hide Left;
      hide Flags.Individual;
      while thread != NULL && !quit
        invariant HandOk(thread)
        invariant if quit then HandOk(thread) else Running(thread, i, d, f)
        invariant HeldOk(flags, held, f, i) && FoundOk(m, text, f, i) && (if matched then f != {} else f == found)
        invariant quit <==> matched && !flags.mglobal && !flags.invert
        invariant quit ==> LeastAdded(m, text, i, found, f)
        invariant printed == old(printed) + if quit && flags.Individual() then Output(flags, held, |text|) else []
        decreases !quit, Left(thread).0, Left(thread).1
      {
        var now;
        thread, now, quit, d, f := RunOne(thread, i, d, f);
        matched := matched || now;
      }
    }

    /** Takes over the lists and goes to position p. */
    method SetLists(l: Lists, ghost hh: Held, p: nat)
      requires Valid() && Sound(l, hh) && |hh.place| == |l.sims|
      modifies this`lists, this`h, this`curPos
      ensures Valid() && Q() == Sim(Active(l, hh), Next(l, hh), sp) && h == hh && curPos == p
    {
      hide Sound;
      hide Program.Valid;
      lists, h, curPos := l, hh, p;
    }

    /** swap_next_w_active and the step to the next character */
    method Advance(ghost i: nat, ghost d: set<Addr>, ghost f: set<nat>) returns (thread: Addr)
      requires Running(NULL, i, d, f) && lists.next.head != NULL
      modifies this`lists, this`h, this`curPos
      ensures Running(thread, i, {}, f) && curPos == old(curPos) + 1 <= |text|
    {
      hide Attempt;
      hide Sound;
      hide HandIs;
      hide Program.Valid;
      hide Active;
      hide Next;
      ghost var l0, h0, next := lists, h, Q().next;
      NextHead(lists, h);
      assert Front(NULL) + Q().active == [];
      NextPosition(m, text, next, sp, i, curPos, d, f);
      var p := curPos + 1;
      assert Attempt(m, text, next, [], sp, i, p, {}, f);
      assert Valid() && m.Valid() && Line(text) && Sound(lists, h) && Active(lists, h) == [] && HandIs(h, NULL);
      assert Next(lists, h) == next;
      hide *;
      var l;
      ghost var hh;
      l, hh := SwapNextWithActive(lists, h);
      NowNone(l0, h0, l, hh);
      SoundSize(l, hh);
      SameAttempt(m, text, next, [], sp, i, p, f, Active(l, hh), Next(l, hh));
      SetLists(l, hh, p);
      ReadyForStep(i, {}, f);
      thread := Continue(NULL, 0, i, {}, f);
    }

    lemma ReadyForStep(i: nat, d: set<Addr>, f: set<nat>)
      requires Valid() && HandIs(h, NULL) && Line(text) && 0 <= curPos
      ensures HandOk(NULL)
      ensures Attempt(m, text, Q().active, Q().next, Q().sp, i, curPos, d, f) ==> Stepping(i, d, f)
    {
      SoundSize(lists, h);
      hide Attempt;
      hide Sound;
      hide Program.Valid;
      hide Line;
    }

    /** load_start_states and the shift of the first thread */
    method StartThreads(i: nat) returns (thread: Addr)
      requires HandOk(NULL) && Q().active == [] && Q().next == [] && Line(text) && i <= |text| && curPos == i
      requires Resumable(m, sp, i)
      modifies this`lists, this`h, this`sp
      ensures HandOk(thread)
      ensures if i < |text| then Running(thread, i, {}, {}) else Resumable(m, sp, 0)
    {
      ghost var l0, h0, sp0 := lists, h, sp;
      assert Valid() && HandIs(h, NULL) && m.Valid();
      hide *;
      LoadStartStates(i);
      NowNone(l0, h0, lists, h);
      LoadedStarts(m, text, sp0, i, Q());
      ReadyForStep(i, {}, {});
      assert Q().sp == sp by { QueuesNow(); }
      if i < |text| {
        thread := Continue(NULL, 0, i, {}, {});
      } else {
        thread := NextThread(NULL, 0);
      }
    }

    lemma QueuesNow()
      requires Valid()
      ensures Q().sp == sp
    {
    }

    /** reset_thread: the pool is never found empty. */
    method ResetThread(i: nat) returns (thread: Addr)
      requires HandOk(NULL) && Q().active == [] && Q().next == [] && Line(text) && i <= |text| && curPos == i
      requires Resumable(m, sp, i) && lists.pool.head != NULL
      modifies this`lists, this`h, this`sp
      ensures HandOk(thread)
      ensures if i < |text| then Running(thread, i, {}, {}) else Resumable(m, sp, 0)
    {
      thread := StartThreads(i);
    }

    /** update_input_pointer: on by one, or behind the match held. */
    method UpdateInputPointer(currentRun: bool, inputPointer: nat) returns (next: int)
      ensures next == if !currentRun || held.1 == NIL then inputPointer + 1 else held.1 + 1
    {
      if !currentRun || held.1 == NIL {
        next := inputPointer + 1;
      } else {
        next := held.1 + 1;
      }
    }

    /** Both queues are empty: reports what is held and starts the next attempt. */
    method EndAttempt(i: nat, currentRun: bool, ghost d: set<Addr>, ghost f: set<nat>, ghost r: Expr)
        returns (thread: Addr, next: nat)
      requires Running(NULL, i, d, f) && HeldOk(flags, held, f, i)
      requires lists.next.head == NULL && (currentRun <==> f != {})
      requires Accepts(m.g, m.start, m.accept, r)
      modifies this`lists, this`h, this`sp, this`curPos, this`held, this`printed
      ensures i < next <= |text| && HandOk(thread) && held == (NIL, NIL)
      ensures if next < |text| then Running(thread, next, {}, {}) else Resumable(m, sp, 0)
      ensures Earlier(r, text, next) <==> Earlier(r, text, i) || f != {}
      ensures if flags.Individual() then printed + Matches(r, text, next) == old(printed) + Matches(r, text, i)
              else printed == old(printed)
      ensures f == {} ==> printed == old(printed)
    {
      hide Attempt;
      hide Sound;
      hide HandIs;
      hide Program.Valid;
      hide Active;
      hide Next;
      hide Resumable;
      hide HoldsLongest;
      hide Matches;
      hide Earlier;
      hide MatchesAt;
      ghost var p0, out := printed, if flags.showLine || flags.invert then [] else Output(flags, held, |text|);
      NextHead(lists, h);
      assert Front(NULL) + Q().active == [];
      AttemptOver(m, text, sp, i, curPos, d, f, r);
      PoolHead(lists, h);
      if !flags.showLine && !flags.invert {
        NewMatch();
      }
      var pointer := UpdateInputPointer(currentRun, i);
      AttemptReported(flags, held, text, i, f, r, p0, pointer);
      next, curPos, held := pointer, pointer, (NIL, NIL);
      thread := ResetThread(next);
    }

    /** release_all_threads: every thread is in the pool again. */
    method Release(thread: Addr)
      requires HandOk(thread)
      modifies this`lists, this`h
      ensures HandOk(NULL) && AllInPool(lists, h)
    {
      ghost var h0 := h;
      HandUsable(h, thread);
      hide Sound;
      hide Program.Valid;
      hide HandIs;
      hide OutOfLists;
      hide AllInPool;
      lists, h := ReleaseAll(lists, h, thread);
      SoundSize(lists, h);
      NoneInHand(lists, h0, h, thread);
    }

    /** Ready for a line: every thread is in the pool, and no mark is in the way. */
    ghost predicate Ready()
      reads this`lists, this`h, this`sp, this`text, this`curPos, this`held
    {
      HandOk(NULL) && AllInPool(lists, h) && Line(text) && curPos == 0 && held == (NIL, NIL)
    }

    /** reset_nfa_sim */
    method ResetNfaSim(line: Word)
      requires HandOk(NULL) && AllInPool(lists, h) && Line(line)
      modifies this`text, this`curPos, this`held
      ensures Ready() && text == line
    {
      hide HandOk;
      hide AllInPool;
      hide Line;
      text, curPos, held := line, 0, (NIL, NIL);
    }

    /** What is known between two rounds. */
    ghost predicate Known(r: Expr, p0: seq<(int, int)>, i: nat, f: set<nat>, matched: bool, currentRun: bool,
                          quit: bool)
      reads this`text, this`held, this`printed
    {
      && SoFar(flags, r, text, p0, printed, i, f, matched, quit) && HeldOk(flags, held, f, i) && FoundOk(m, text, f, i)
      && (currentRun <==> f != {})
    }

    lemma KnownParts(r: Expr, p0: seq<(int, int)>, i: nat, f: set<nat>, matched: bool, currentRun: bool, quit: bool)
      requires Known(r, p0, i, f, matched, currentRun, quit)
      ensures SoFar(flags, r, text, p0, printed, i, f, matched, quit) && HeldOk(flags, held, f, i)
      ensures FoundOk(m, text, f, i) && (currentRun <==> f != {})
    {
    }

    lemma NowKnown(r: Expr, p0: seq<(int, int)>, i: nat, f: set<nat>, matched: bool, currentRun: bool, quit: bool)
      requires SoFar(flags, r, text, p0, printed, i, f, matched, quit) && HeldOk(flags, held, f, i)
      requires FoundOk(m, text, f, i) && (currentRun <==> f != {})
      ensures Known(r, p0, i, f, matched, currentRun, quit)
    {
    }

    /** The end of an attempt, as far as the printed matches are concerned too. */
    method EndRound(i: nat, matched: bool, currentRun: bool, ghost d: set<Addr>, ghost f: set<nat>,
                    ghost p0: seq<(int, int)>, ghost r: Expr)
        returns (thread: Addr, next: nat)
      requires Running(NULL, i, d, f) && Accepts(m.g, m.start, m.accept, r) && lists.next.head == NULL
      requires Known(r, p0, i, f, matched, currentRun, false)
      modifies this`lists, this`h, this`sp, this`curPos, this`held, this`printed
      ensures i < next <= |text| && HandOk(thread) && Known(r, p0, next, {}, matched, false, false)
      ensures if next < |text| then Running(thread, next, {}, {}) else Resumable(m, sp, 0)
    {
      ghost var p1 := printed;
      KnownParts(r, p0, i, f, matched, currentRun, false);
      hide *;
      thread, next := EndAttempt(i, currentRun, d, f, r);
      SoFarAttempt(flags, r, text, p0, p1, printed, i, f, next, matched);
      NothingHeld(flags, m, text, next);
      NowKnown(r, p0, next, {}, matched, false, false);
    }

    /** All threads look at the character. */
    method StepRound(first: Addr, i: nat, wasRun: bool, wasMatched: bool, ghost done: set<Addr>, ghost found: set<nat>,
                     ghost p0: seq<(int, int)>, ghost r: Expr)
        returns (thread: Addr, currentRun: bool, matched: bool, quit: bool, ghost d: set<Addr>, ghost f: set<nat>)
      requires Running(first, i, done, found) && Accepts(m.g, m.start, m.accept, r) && i < |text|
      requires Known(r, p0, i, found, wasMatched, wasRun, false)
      modifies this`lists, this`h, this`sp, this`held, this`printed
      ensures if quit then HandOk(thread) else thread == NULL && Running(NULL, i, d, f)
      ensures Known(r, p0, i, f, matched, currentRun, quit)
    {
      ghost var p1 := printed;
      KnownParts(r, p0, i, found, wasMatched, wasRun, false);
      hide *;
      var now;
      thread, now, quit, d, f := RunThreads(first, i, done, found);
      currentRun, matched := now || wasRun, now || wasMatched;
      SoFarThreads(m, flags, held, r, text, p0, p1, printed, i, found, f, wasMatched, now, quit);
      NowKnown(r, p0, i, f, matched, currentRun, quit);
    }

    /** One round of the main loop: all threads look at a character, then the next one is due, or the
        next attempt. */
    method Round(first: Addr, i: nat, wasRun: bool, wasMatched: bool, ghost done: set<Addr>, ghost found: set<nat>,
                 ghost p0: seq<(int, int)>, ghost r: Expr)
        returns (thread: Addr, next: nat, currentRun: bool, matched: bool, quit: bool,
                 ghost d: set<Addr>, ghost f: set<nat>)
      requires Running(first, i, done, found) && Accepts(m.g, m.start, m.accept, r) && i < |text|
      requires Known(r, p0, i, found, wasMatched, wasRun, false)
      modifies this`lists, this`h, this`sp, this`curPos, this`held, this`printed
      ensures next <= |text| && HandOk(thread) && Known(r, p0, next, f, matched, currentRun, quit)
      ensures !quit && next < |text| ==> Running(thread, next, d, f)
      ensures !quit && next >= |text| ==> Resumable(m, sp, 0)
      ensures quit || next > i || (next == i && old(curPos) < curPos <= |text|)
    {
      hide *;
      next := i;
      thread, currentRun, matched, quit, d, f := StepRound(first, i, wasRun, wasMatched, done, found, p0, r);
      if !quit {
        if lists.next.head != NULL {
          thread := Advance(i, d, f);
          d := {};
          RunningUsable(thread, i, d, f);
        } else {
          thread, next := EndRound(i, matched, currentRun, d, f, p0, r);
          currentRun, d, f := false, {}, {};
        }
      }
    }

    lemma RunningUsable(thread: Addr, i: nat, d: set<Addr>, f: set<nat>)
      requires Running(thread, i, d, f)
      ensures HandOk(thread)
    {
    }

    lemma AtStart(r: Expr)
      requires Ready()
      ensures HandOk(NULL) && Q().active == [] && Q().next == [] && Line(text) && curPos == 0 && m.Valid()
      ensures Known(r, printed, 0, {}, false, false, false)
    {
      PoolOnly(lists, h);
      RunStarts(flags, r, text, printed);
      NothingHeld(flags, m, text, 0);
      NowKnown(r, printed, 0, {}, false, false, false);
      hide Sound;
      hide Program.Valid;
      hide AllInPool;
    }

    /** The main loop of run_nfa. */
    method RunRounds(ghost r: Expr) returns (thread: Addr, inputPointer: nat, matched: bool, quit: bool,
                     ghost f: set<nat>)
      requires Ready() && Resumable(m, sp, 0) && Accepts(m.g, m.start, m.accept, r)
      modifies this`lists, this`h, this`sp, this`curPos, this`held, this`printed
      ensures HandOk(thread) && inputPointer <= |text| && (quit || inputPointer == |text|)
      ensures SoFar(flags, r, text, old(printed), printed, inputPointer, f, matched, quit)
      ensures !quit ==> Resumable(m, sp, 0)
    {
      ghost var p0, d := printed, {};
      hide *;
      AtStart(r);
      thread := StartThreads(0);
      var currentRun := false;
      inputPointer, matched, quit, f := 0, false, false, {};
      while !quit && CharAt(text, inputPointer) != NUL
        invariant inputPointer <= |text| && HandOk(thread)
        invariant Known(r, p0, inputPointer, f, matched, currentRun, quit)
        invariant !quit && inputPointer < |text| ==> Running(thread, inputPointer, d, f)
        invariant !quit && inputPointer >= |text| ==> Resumable(m, sp, 0)
        decreases !quit, |text| - inputPointer, |text| - curPos
      {
        HasInput(text, inputPointer);
        thread, inputPointer, currentRun, matched, quit, d, f :=
          Round(thread, inputPointer, currentRun, matched, d, f, p0, r);
      }
      KnownParts(r, p0, inputPointer, f, matched, currentRun, quit);
      if !quit {
        AtEnd(text, inputPointer);
      }
    }

    /** run_nfa: whether the line has a match. With -o -g exactly its longest matches are printed, from left
        to right, with -o a match that begins first; otherwise the line, if it is to be shown. */
    method RunNfa(ghost r: Expr) returns (matched: bool)
      requires Ready() && Resumable(m, sp, 0) && Accepts(m.g, m.start, m.accept, r)
      modifies this`lists, this`h, this`sp, this`curPos, this`held, this`printed
      ensures matched <==> HasMatch(r, text)
      ensures flags.Individual() && flags.mglobal ==> printed == old(printed) + Matches(r, text, 0)
      ensures flags.Individual() && !flags.mglobal ==> FirstReported(r, text, old(printed), printed)
      ensures !flags.Individual() ==> printed == old(printed) + Shown(flags, |text|, matched)
      ensures !flags.Individual() ==> LineShown(flags, text, matched, old(printed), printed)
      ensures HandOk(NULL) && AllInPool(lists, h)
      ensures !matched || flags.mglobal || flags.invert ==> Resumable(m, sp, 0)
    {
      ghost var p0 := printed;
      assert Line(text);
      hide *;
      var thread, inputPointer, quit;
      ghost var f;
      thread, inputPointer, matched, quit, f := RunRounds(r);
      ghost var p1 := printed;
      ghost var p2 := Finished(flags, |text|, matched, p1);
      RunOver(flags, r, text, p0, p1, p2, inputPointer, f, matched, quit);
      Finish(thread, matched);
      assert printed == p2 && old(printed) == p0;
    }

    /** The end of run_nfa: releases the threads and shows the line, if it is to be shown. */
    method Finish(thread: Addr, matched: bool)
      requires HandOk(thread)
      modifies this`lists, this`h, this`held, this`printed
      ensures HandOk(NULL) && AllInPool(lists, h)
      ensures printed == Finished(flags, |text|, matched, old(printed))
    {
      hide HandOk;
      hide AllInPool;
      hide Output;
      Release(thread);
      if (!matched && flags.invert) || (matched && flags.showLine) {
        held := (0, |text| - 2);
        NewMatch();
      }
    }

    /** Line k of a file, after the lines before it. */
    method ProcessLine(lines: seq<Word>, k: nat, before: nat, ghost p0: seq<(int, int)>, ghost r: Expr)
        returns (status: nat)
      requires HandOk(NULL) && AllInPool(lists, h) && Resumable(m, sp, 0) && Accepts(m.g, m.start, m.accept, r)
      requires k < |lines| && Line(lines[k]) && flags.Lasting()
      requires printed == p0 + Report(flags, r, lines[..k]) && before == Matching(r, lines[..k])
      modifies this`lists, this`h, this`sp, this`text, this`curPos, this`held, this`printed
      ensures HandOk(NULL) && AllInPool(lists, h)
      ensures status == 0 || flags.mglobal || flags.invert ==> Resumable(m, sp, 0)
      ensures printed == p0 + Report(flags, r, lines[..k + 1]) && status == Matching(r, lines[..k + 1])
    {
      ghost var p1 := printed;
      assert m.Valid();
      hide *;
      ResetNfaSim(lines[k]);
      var matched := RunNfa(r);
      LineDone(flags, r, lines, k, p0, p1, printed, matched);
      status := before + if matched then 1 else 0;
    }

    /** process_file, its loop over the lines, all on the same threads and marks. */
    method ProcessFile(lines: seq<Word>, ghost r: Expr) returns (status: nat)
      requires HandOk(NULL) && AllInPool(lists, h) && Resumable(m, sp, 0) && Accepts(m.g, m.start, m.accept, r)
      requires (forall k :: 0 <= k < |lines| ==> Line(lines[k])) && flags.Lasting()
      modifies this`lists, this`h, this`sp, this`text, this`curPos, this`held, this`printed
      ensures HandOk(NULL) && AllInPool(lists, h)
      ensures status == 0 || flags.mglobal || flags.invert ==> Resumable(m, sp, 0)
      ensures printed == old(printed) + Report(flags, r, lines)
      ensures if flags.silent then status != 0 <==> Matching(r, lines) != 0 else status == Matching(r, lines)
    {
      ghost var p0 := printed;
      NoLines(flags, r, lines, p0);
      assert m.Valid();
      hide *;
      status := 0;
      var k := 0;
      while k < |lines| && !(status != 0 && flags.silent)
        invariant 0 <= k <= |lines| && HandOk(NULL) && AllInPool(lists, h)
        invariant status == 0 || flags.mglobal || flags.invert ==> Resumable(m, sp, 0)
        invariant printed == p0 + Report(flags, r, lines[..k]) && status == Matching(r, lines[..k])
      {
        status := ProcessLine(lines, k, status, p0, r);
        k := k + 1;
      }
      LinesDone(flags, r, lines, k);
    }
  }
}
