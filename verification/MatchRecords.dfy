/** The match list of src/match_record.c: a circular doubly linked list of records, and a second
    such ring of records to reuse. Clearing splices the whole list into the pool. */
module MatchRecords {

  /** One match; `beg` and `end` are positions in the searched text. */
  class MatchRecord {
    var beg: int
    var end: int
    var next: MatchRecord?
    var prev: MatchRecord?

    constructor () {
      beg, end, next, prev := 0, 0, null, null;
    }
  }

  /** Neighbours in s point at each other. */
  ghost predicate Chain(s: seq<MatchRecord>)
    reads s
  {
    && (forall i {:trigger s[i].next} :: 0 <= i < |s| - 1 ==> s[i].next == s[i + 1])
    && (forall i {:trigger s[i].prev} :: 0 < i < |s| ==> s[i].prev == s[i - 1])
  }

  /** The records of s form a ring, starting at `head` (null for no records). */
  ghost predicate Ring(head: MatchRecord?, s: seq<MatchRecord>)
    reads s
  {
    && head == First(s)
    && (s != [] ==> s[|s| - 1].next == s[0] && s[0].prev == s[|s| - 1])
    && Chain(s) && Distinct(s)
  }

  ghost function First(s: seq<MatchRecord>): MatchRecord? { if s == [] then null else s[0] }

  /** A ring none of whose links changed. */
  twostate lemma RingKept(s: seq<MatchRecord>)
    requires old(Ring(First(s), s))
    requires forall r :: r in s ==> r.next == old(r.next) && r.prev == old(r.prev)
    ensures Ring(First(s), s)
  {
    assert forall i :: 0 <= i < |s| ==> s[i] in s;
  }

  lemma ChainJoin(s: seq<MatchRecord>, t: seq<MatchRecord>)
    requires Chain(s) && Chain(t) && s != [] && t != []
    requires s[|s| - 1].next == t[0] && t[0].prev == s[|s| - 1]
    ensures Chain(s + t)
  {
    var u := s + t;
    forall i | 0 <= i < |u| - 1 ensures u[i].next == u[i + 1] {
      assert u[i] == if i < |s| then s[i] else t[i - |s|];
    }
    forall i | 0 < i < |u| ensures u[i].prev == u[i - 1] {
      assert u[i] == if i < |s| then s[i] else t[i - |s|];
    }
  }

  /** Only a ring of one record has its head behind its head. */
  lemma RingEnds(head: MatchRecord?, s: seq<MatchRecord>)
    requires Ring(head, s) && s != []
    ensures head == s[0] && (head.next == head <==> |s| == 1)
  {
  }

  ghost predicate Distinct(s: seq<MatchRecord>) { forall i, j :: 0 <= i < j < |s| ==> s[i] != s[j] }

  ghost predicate Disjoint(s: seq<MatchRecord>, t: seq<MatchRecord>) { forall r :: r in s ==> r !in t }

  lemma DistinctJoin(s: seq<MatchRecord>, t: seq<MatchRecord>)
    requires Distinct(s) && Distinct(t) && Disjoint(s, t)
    ensures Distinct(s + t)
  {
    forall i, j | 0 <= i < j < |s + t| ensures (s + t)[i] != (s + t)[j] {
      if i < |s| <= j {
        assert s[i] in s && t[j - |s|] in t;
      }
    }
  }

  class MatchList {
    var head: MatchRecord?
    var pool: MatchRecord?
    var matchCount: int
    ghost var live: seq<MatchRecord>
    ghost var spare: seq<MatchRecord>
    ghost var spans: seq<(int, int)>  // what the live records say, oldest first

    ghost predicate Valid()
      reads this, live, spare
    {
      && Ring(head, live) && Ring(pool, spare) && Disjoint(live, spare) && matchCount == |live| == |spans|
      && forall i :: 0 <= i < |live| ==> (live[i].beg, live[i].end) == spans[i]
    }

    ghost function Repr(): set<MatchRecord>
      reads this
    {
      set r | r in live + spare
    }

    constructor ()
      ensures Valid() && live == [] && spare == [] && spans == []
    {
      head, pool, matchCount, live, spare, spans := null, null, 0, [], [], [];
    }

    /** new_match_record: reuse a spare record if there is one, and append it to the ring. */
    method Add(beg: int, end: int) returns (ghost added: MatchRecord)
      requires Valid()
      modifies this, live, spare
      ensures Valid()
      ensures spans == old(spans) + [(beg, end)]
      ensures live == old(live) + [added] && if old(spare) == [] then fresh(added) else added == old(spare)[0]
      ensures spare == if old(spare) == [] then [] else old(spare)[1..]
      ensures fresh(Repr() - old(Repr()))
    {
      hide Ring;
      var newMatch := Obtain();
      newMatch.beg := beg;
      newMatch.end := end;
      assert Valid() && allocated(spare) && forall n :: n in spare ==> n !in live;
      label L:
      Link(newMatch);
      RingKept@L(spare);
      added := newMatch;
      assert Disjoint(live, spare);
      matchCount := matchCount + 1;
      spans := spans + [(beg, end)];
      assert Ring(head, live) && Ring(pool, spare);
    }

    /** A record to fill in: the first spare one, or a new one. */
    method Obtain() returns (newMatch: MatchRecord)
      requires Valid()
      modifies `pool, `spare, spare`next, spare`prev
      ensures Valid() && newMatch !in live && newMatch !in spare && pool == First(spare)
      ensures if old(spare) == [] then fresh(newMatch) && spare == []
              else newMatch == old(spare)[0] && spare == old(spare)[1..]
    {
      assert allocated(live) && forall i :: 0 <= i < |live| ==> live[i] in live && live[i] !in spare;
      if pool == null {
        newMatch := new MatchRecord();
      } else {
        newMatch := TakeSpare();
      }
    }

    /** Unlinks the first record of the pool. */
    method TakeSpare() returns (r: MatchRecord)
      requires Ring(pool, spare) && pool != null
      modifies `pool, `spare, spare`next, spare`prev
      ensures Ring(pool, spare) && spare == old(spare)[1..] && r == old(spare)[0]
    {
      RingEnds(pool, spare);
      r := pool;
      if pool.next == pool {
        pool := null;
      } else {
        pool.prev.next := pool.next;
        pool.next.prev := pool.prev;
        pool := pool.next;
      }
      spare := spare[1..];
    }

    /** Links a record in behind the last one. */
    method Link(r: MatchRecord)
      requires Ring(head, live) && r !in live
      modifies `head, `live, live`next, live`prev, r`next, r`prev
      ensures Ring(head, live) && live == old(live) + [r]
    {
      if head == null {
        r.next := r;
        r.prev := r;
        head := r;
      } else {
        RingEnds(head, live);
        r.next := head;
        r.prev := head.prev;
        head.prev.next := r;
        head.prev := r;
        assert Chain(live) by {
          assert forall i {:trigger live[i].next} :: 0 <= i < |live| - 1 ==> live[i] != live[|live| - 1];
          assert forall i {:trigger live[i].prev} :: 0 < i < |live| ==> live[i] != live[0];
        }
        ChainJoin(live, [r]);
      }
      live := live + [r];
    }

    /** match_record_clear: the live ring becomes the tail of the pool ring. */
    method Clear()
      requires Valid()
      modifies this, live, spare
      ensures Valid()
      ensures live == [] && spans == [] && spare == old(spare) + old(live)
    {
      if head == null {
        return;
      }
      RingEnds(head, live);
      if pool == null {
        pool := head;
      } else {
        Splice();
      }
      head := null;
      matchCount := 0;
      spare, live, spans := spare + live, [], [];
    }

    /** Opens both rings and joins them into one that still starts at the pool's first record. */
    method Splice()
      requires Ring(head, live) && Ring(pool, spare) && Disjoint(live, spare) && live != [] && spare != []
      modifies live`next, live`prev, spare`next, spare`prev
      ensures Ring(pool, spare + live)
    {
      RingEnds(head, live);
      RingEnds(pool, spare);
      ghost var a, b := |spare|, |live|;
      assert forall i :: 0 <= i < a ==> spare[i] in spare && spare[i] !in live;
      assert forall i :: 0 <= i < b ==> live[i] in live && live[i] !in spare;
      JoinEnds(live[b - 1], spare[a - 1]);
      DistinctJoin(spare, live);
      assert Chain(spare) by {
        assert forall i {:trigger spare[i].next} :: 0 <= i < a - 1 ==> spare[i] != spare[a - 1];
        assert forall i {:trigger spare[i].prev} :: 0 < i < a ==> spare[i] != spare[0];
      }
      assert Chain(live) by {
        assert forall i {:trigger live[i].next} :: 0 <= i < b - 1 ==> live[i] != live[b - 1];
        assert forall i {:trigger live[i].prev} :: 0 < i < b ==> live[i] != live[0];
      }
      ChainJoin(spare, live);
    }

    /** The four link updates of a splice: both rings are opened before their first records. */
    method JoinEnds(ghost liveLast: MatchRecord, ghost spareLast: MatchRecord)
      requires head != null && pool != null && head.prev == liveLast && pool.prev == spareLast
      requires liveLast.next == head && spareLast.next == pool && head != pool && liveLast != spareLast
      requires head.next == head ==> liveLast == head
      modifies head`prev, pool`prev, liveLast`next, spareLast`next
      ensures head.prev == spareLast && spareLast.next == head && liveLast.next == pool && pool.prev == liveLast
    {
      if head.next == head {
        head.prev := pool.prev;
        pool.prev.next := head;
        head.next := pool;
        pool.prev := head;
      } else {
        // the two rings become one, live records first
        var tmp := head.prev;
        head.prev.next := pool;
        pool.prev.next := head;
        head.prev := pool.prev;
        pool.prev := tmp;
      }
    }
  }
}
