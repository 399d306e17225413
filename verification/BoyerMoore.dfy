/** The Boyer-Moore search object of src/boyer_moore.c: pattern, shift tables (the bad-character
    one in a red-black tree), recorded matches and the cursor of bm_next_match. */
module BoyerMoore {
  import opened Bytes
  import opened SuffixTables
  import opened BoyerMooreSpec
  import opened MatchRecords
  import opened RedBlackTree
  import opened KeyTable

  /** The distance from the end of each key's last occurrence among the first n bytes. */
  ghost function Shifts(p: Pattern, n: nat): map<int, int>
    requires n <= |p|
  {
    if n == 0 then map[] else Shifts(p, n - 1)[Signed(p[n - 1]) := |p| - n]
  }

  lemma {:induction false} ShiftsLast(p: Pattern, n: nat, key: int)
    requires n <= |p|
    ensures key in Shifts(p, n) <==> LastKey(p, n, key) >= 0
    ensures key in Shifts(p, n) ==> Shifts(p, n)[key] == |p| - 1 - LastKey(p, n, key)
  {
    if 0 < n { ShiftsLast(p, n - 1, key); }
  }

  /** The spans recorded for a list of match positions. */
  function Spans(js: seq<int>, m: int): (r: seq<(int, int)>)
    ensures |r| == |js|
  {
    seq(|js|, i requires 0 <= i < |js| => (js[i], js[i] + m - 1))
  }

  /** Each span holds the pattern. */
  lemma SpansMatch(p: Pattern, t: Text)
    ensures forall k {:trigger Spans(Scan(p, t, 0), |p|)[k]} :: 0 <= k < |Scan(p, t, 0)| ==>
              var (first, last) := Spans(Scan(p, t, 0), |p|)[k]; 0 <= first <= last < |t| && t[first..last + 1] == p
  {
    var js := Scan(p, t, 0);
    forall k | 0 <= k < |js| ensures Occurs(p, t, js[k]) {
      ScanFindsOnly(p, t, 0, js[k]);
    }
  }

  class BMObj {
    const pattern: Pattern
    const goodSuffix: array<int>
    const badChar: RBTree
    const matches: MatchList
    var iter: MatchRecord?     // the record whose next field the C iterator points at
    ghost var yielded: nat     // how many matches the current iteration has returned

    ghost predicate TablesValid()
      reads badChar, badChar.Repr(), goodSuffix
    {
      && badChar.Valid() && Holds(badChar, Shifts(pattern, |pattern| - 1))
      && goodSuffix.Length == |pattern|
      && forall i :: 0 <= i < |pattern| ==> goodSuffix[i] == GoodShift(pattern, i)
    }

    ghost predicate CursorValid()
      reads this, matches
    {
      && yielded <= |matches.live|
      && iter == if yielded == 0 then null else matches.live[yielded - 1]
    }

    ghost predicate Valid()
      reads this, badChar, badChar.Repr(), goodSuffix
      reads matches, matches.live, matches.spare
    {
      TablesValid() && matches.Valid() && CursorValid()
    }

    /** new_bm_obj followed by bm_init_obj. */
    constructor (pattern: Pattern)
      requires FitsChar(pattern)
      ensures Valid() && this.pattern == pattern && matches.live == [] && yielded == 0
      ensures fresh(goodSuffix) && fresh(badChar) && fresh(matches)
    {
      hide RBTree.Valid;
      hide Holds;
      hide IsGoodShift;
      hide MatchList.Valid;
      hide RBTree.Repr;
      hide GoodShift;
      this.pattern := pattern;
      var good := new int[|pattern|];
      ComputeGoodSuffix(pattern, good);
      var list := new MatchList();
      var table := ComputeBadChar(pattern);
      assert allocated(table.Repr());
      goodSuffix, matches, badChar := good, list, table;
      iter, yielded := null, 0;
    }

    /** bm_get_char_shift */
    method GetCharShift(c: Byte) returns (s: int)
      requires TablesValid()
      ensures s == CharShift(pattern, c) && IsCharShift(pattern, c, s)
    {
      CharShiftIs(pattern, c);
      ShiftsLast(pattern, |pattern| - 1, c);
      assert allocated(badChar.Repr());
      var shift, _ := badChar.Search(c);
      assert Holds(badChar, Shifts(pattern, |pattern| - 1));
      if shift == null {
        s := |pattern|;
      } else {
        s := shift.data;
      }
    }

    /** The shift the search loop chooses after a mismatch at i on byte c. */
    method StepAfter(i: int, c: Byte) returns (s: int)
      requires TablesValid() && 0 <= i < |pattern|
      ensures s == Step(pattern, i, c)
    {
      hide RBTree.Valid;
      assert allocated(goodSuffix);
      var badCharShift := GetCharShift(c);
      badCharShift := badCharShift - |pattern| + i + 1;
      if badCharShift == |pattern| {
        s := badCharShift;
      } else {
        var goodSuffixShift := goodSuffix[i];
        s := if goodSuffixShift >= badCharShift then goodSuffixShift else badCharShift;
      }
    }

    /** Records the match at j. */
    method Record(j: int)
      requires Valid()
      modifies matches, matches.Repr()
      ensures Valid() && old(matches.live) <= matches.live && fresh(matches.Repr() - old(matches.Repr()))
      ensures matches.spans == old(matches.spans) + [(j, j + |pattern| - 1)]
    {
      hide RBTree.Valid;
      hide MatchList.Valid;
      hide Holds;
      assert allocated(badChar.Repr());
      var _ := matches.Add(j, j + |pattern| - 1);
      assert TablesValid();
    }

    /** The body of the search loop: compares the window at j and says where to go next. */
    method Window(input: Text, j: nat) returns (next: int)
      requires Valid() && j + |pattern| <= |input|
      modifies matches, matches.Repr()
      ensures Valid() && next == j + Advance(pattern, input, j)
      ensures old(matches.live) <= matches.live && fresh(matches.Repr() - old(matches.Repr()))
      ensures matches.spans == old(matches.spans)
                             + if Matched(pattern, input, j) then [(j, j + |pattern| - 1)] else []
    {
      hide RBTree.Valid;
      hide MatchList.Valid;
      hide Holds;
      var i := |pattern| - 1;
      while i >= 0 && pattern[i] == input[i + j]
        invariant -1 <= i < |pattern|
        invariant Mismatch(pattern, input, j, i) == Mismatch(pattern, input, j, |pattern| - 1)
      {
        i := i - 1;
      }
      if i < 0 {
        Record(j);
        next := j + goodSuffix[0];
      } else {
        assert allocated(badChar.Repr()) && allocated(matches.Repr());
        var shift := StepAfter(i, input[i + j]);
        assert Valid();
        next := j + shift;
      }
    }

    /** bm_search: appends a record for each position it stops at; for a pattern that hides no byte
        these are the occurrences, in increasing order. */
    method Search(input: Text)
      requires Valid()
      modifies matches, matches.Repr()
      ensures Valid()
      ensures matches.spans == old(matches.spans) + Spans(Scan(pattern, input, 0), |pattern|)
      ensures !HiddenByte(pattern) ==>
                matches.spans == old(matches.spans) + Spans(Occurrences(pattern, input), |pattern|)
      ensures forall k :: |old(matches.spans)| <= k < |matches.spans| ==>
                var (first, last) := matches.spans[k]; 0 <= first <= last < |input| && input[first..last + 1] == pattern
      ensures old(matches.live) <= matches.live && fresh(matches.Repr() - old(matches.Repr()))
    {
      hide RBTree.Valid;
      hide MatchList.Valid;
      hide Holds;
      hide Scan;
      hide OccurrencesFrom;
      hide Advance;
      var j := 0;
      ghost var found := [];
      while j <= |input| - |pattern|
        invariant 0 <= j && Valid() && old(matches.live) <= matches.live
        invariant fresh(matches.Repr() - old(matches.Repr()))
        invariant matches.spans == old(matches.spans) + Spans(found, |pattern|)
        invariant found + Scan(pattern, input, j) == Scan(pattern, input, 0)
        decreases |input| - j
      {
        OneWindow(pattern, input, j, Advance(pattern, input, j));
        if Matched(pattern, input, j) {
          found := found + [j];
        }
        j := Window(input, j);
      }
      NoWindow(pattern, input, j);
      SpansMatch(pattern, input);
      if !HiddenByte(pattern) {
        ScanFindsAll(pattern, input, 0);
      }
    }

    /** bm_next_match: the next recorded match, or null once after the last one. */
    method NextMatch() returns (ret: MatchRecord?)
      requires Valid()
      modifies `iter, `yielded
      ensures Valid()
      ensures if old(yielded) < |matches.live|
              then ret == matches.live[old(yielded)] && yielded == old(yielded) + 1
              else ret == null && yielded == 0
    {
      ret := null;
      if matches.head != null {
        RingEnds(matches.head, matches.live);
        if iter == null {
          iter := matches.head;
          ret := matches.head;
          yielded := 1;
        } else {
          if iter.next == matches.head {
            iter := null;
            yielded := 0;
          } else {
            ret := iter.next;
            iter := iter.next;
            yielded := yielded + 1;
          }
        }
      }
    }

    /** bm_clear_matches */
    method ClearMatches()
      requires Valid()
      modifies this`iter, this`yielded, matches, matches.Repr()
      ensures Valid() && matches.live == [] && matches.spans == [] && yielded == 0
      ensures matches.spare == old(matches.spare) + old(matches.live) && matches.Repr() == old(matches.Repr())
    {
      hide RBTree.Valid;
      assert allocated(badChar.Repr());
      matches.Clear();
      iter := null;
      yielded := 0;
    }

    /** Asks for matches until there are no more, as the recognizer does for a line. */
    method Drain() returns (starts: seq<int>)
      requires Valid() && yielded == 0
      modifies `iter, `yielded
      ensures Valid() && yielded == 0
      ensures |starts| == |matches.spans| && forall k :: 0 <= k < |starts| ==> starts[k] == matches.spans[k].0
    {
      starts := [];
      var mr := NextMatch();
      while mr != null
        invariant Valid() && |starts| <= |matches.live|
        invariant forall k :: 0 <= k < |starts| ==> starts[k] == matches.spans[k].0
        invariant mr != null ==> |starts| < |matches.live| && mr == matches.live[|starts|] && yielded == |starts| + 1
        invariant mr == null ==> |starts| == |matches.live| && yielded == 0
        decreases |matches.live| - |starts|, mr != null
      {
        starts := starts + [mr.beg];
        mr := NextMatch();
      }
    }
  }

  /** One line: search it, read off the matches, clear. */
  method SearchLine(bm: BMObj, line: Text) returns (starts: seq<int>)
    requires bm.Valid() && bm.matches.spans == [] && bm.yielded == 0
    modifies bm`iter, bm`yielded, bm.matches, bm.matches.Repr()
    ensures bm.Valid() && bm.matches.spans == [] && bm.yielded == 0
    ensures fresh(bm.matches.Repr() - old(bm.matches.Repr()))
    ensures starts == Scan(bm.pattern, line, 0)
    ensures !HiddenByte(bm.pattern) ==> starts == Occurrences(bm.pattern, line)
  {
    hide RBTree.Valid;
    hide MatchList.Valid;
    hide Holds;
    hide OccurrencesFrom;
    bm.Search(line);
    starts := bm.Drain();
    bm.ClearMatches();
  }

  /** Any number of search-and-clear rounds on one object: each line yields what its own scan finds, its
      occurrences in increasing order if the pattern hides no byte, whatever records earlier lines left in
      the pool. */
  method SearchLines(bm: BMObj, lines: seq<Text>) returns (found: seq<seq<int>>)
    requires bm.Valid() && bm.matches.spans == [] && bm.yielded == 0
    modifies bm`iter, bm`yielded, bm.matches, bm.matches.Repr()
    ensures bm.Valid() && bm.matches.spans == []
    ensures |found| == |lines| && forall k :: 0 <= k < |lines| ==> found[k] == Scan(bm.pattern, lines[k], 0)
    ensures !HiddenByte(bm.pattern) ==>
              forall k :: 0 <= k < |lines| ==> found[k] == Occurrences(bm.pattern, lines[k])
  {
    hide BMObj.Valid;
    hide Occurrences;
    found := [];
    for n := 0 to |lines|
      invariant bm.Valid() && bm.matches.spans == [] && bm.yielded == 0
      invariant fresh(bm.matches.Repr() - old(bm.matches.Repr()))
      invariant |found| == n && forall k :: 0 <= k < n ==> found[k] == Scan(bm.pattern, lines[k], 0)
      invariant !HiddenByte(bm.pattern) ==> forall k :: 0 <= k < n ==> found[k] == Occurrences(bm.pattern, lines[k])
    {
      var starts := SearchLine(bm, lines[n]);
      found := found + [starts];
    }
  }

  /** compute_bad_char: the distance of each byte's last occurrence before the final position. */
  method ComputeBadChar(p: Pattern) returns (t: RBTree)
    ensures fresh(t) && fresh(t.Repr())
    ensures t.Valid() && Holds(t, Shifts(p, |p| - 1))
  {
    hide RBTree.Valid;
    t := NewTable();
    var m := |p|;
    for i := 0 to m - 1
      invariant fresh(t) && fresh(t.Repr())
      invariant t.Valid() && Holds(t, Shifts(p, i))
    {
      var s := m - i - 1;
      ghost var before := t.Repr();
      assert Shifts(p, i + 1) == Shifts(p, i)[Signed(p[i]) := s];
      label L:
      Put(t, Signed(p[i]), s, Shifts(p, i));
      assert forall r :: r in t.Repr() ==> r in before || r in t.Repr() - before;
      assert forall r :: r in t.Repr() && fresh@L(r) ==> fresh(r);
    }
  }
}
