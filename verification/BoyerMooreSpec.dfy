/** What bm_search of src/boyer_moore.c records, as a function of pattern and text, and when that
    is exactly the list of occurrences. */
module BoyerMooreSpec {
  import opened Bytes
  import opened SuffixTables

  type Text = seq<Byte>

  // ---------------------------------------------------------------- what is searched for

  ghost predicate Occurs(p: Pattern, t: Text, j: int) {
    0 <= j <= |t| - |p| && forall k :: 0 <= k < |p| ==> t[j + k] == p[k]
  }

  /** The occurrences at positions j and above, in increasing order, overlapping ones included. */
  ghost function OccurrencesFrom(p: Pattern, t: Text, j: nat): seq<int>
    decreases |t| - j
  {
    if j > |t| - |p| then []
    else (if Occurs(p, t, j) then [j] else []) + OccurrencesFrom(p, t, j + 1)
  }

  ghost function Occurrences(p: Pattern, t: Text): seq<int> { OccurrencesFrom(p, t, 0) }

  // ---------------------------------------------------------------- what the code does

  /** The value a C char has as a tree key: chars are signed. */
  function Signed(b: Byte): (v: int)
    ensures -128 <= v < 128 && (v == b || v == b - 256)
  {
    if b < 128 then b else b - 256
  }

  /** The last of the first n positions of p whose key is `key`, -1 if there is none. */
  function LastKey(p: Pattern, n: nat, key: int): (k: int)
    requires n <= |p|
    ensures -1 <= k < n
  {
    if n == 0 then -1 else if Signed(p[n - 1]) == key then n - 1 else LastKey(p, n - 1, key)
  }

  lemma {:induction false} LastKeyIsLast(p: Pattern, n: nat, key: int)
    requires n <= |p|
    ensures var k := LastKey(p, n, key);
            (k >= 0 ==> Signed(p[k]) == key) && forall x :: k < x < n ==> Signed(p[x]) != key
  {
    if 0 < n && Signed(p[n - 1]) != key { LastKeyIsLast(p, n - 1, key); }
  }

  /** The bad-character table. It is filled with signed keys but looked up with the unsigned
      value of a text byte, so bytes from 128 up are never found. */
  function CharShift(p: Pattern, c: Byte): int {
    |p| - 1 - LastKey(p, |p| - 1, c)
  }

  /** s is the distance of the byte's last occurrence before the final position, from that position: the
      pattern's length if there is none, or if the byte is not ASCII. */
  ghost predicate IsCharShift(p: Pattern, c: Byte, s: int) {
    && 1 <= s <= |p| && (s < |p| ==> c < 128 && p[|p| - 1 - s] == c)
    && (c < 128 ==> forall k :: |p| - 1 - s < k < |p| - 1 ==> p[k] != c)
  }

  lemma CharShiftIs(p: Pattern, c: Byte)
    ensures IsCharShift(p, c, CharShift(p, c))
  {
    LastKeyIsLast(p, |p| - 1, c);
  }

  /** The last position up to i at which the window at j differs from the pattern, -1 if none. */
  function Mismatch(p: Pattern, t: Text, j: nat, i: int): (r: int)
    requires j + |p| <= |t| && -1 <= i < |p|
    ensures -1 <= r <= i
    ensures r >= 0 ==> p[r] != t[j + r]
    ensures forall k :: r < k <= i ==> t[j + k] == p[k]
    decreases i + 1
  {
    if i < 0 || p[i] != t[i + j] then i else Mismatch(p, t, j, i - 1)
  }

  /** How far the window moves after a mismatch at i on text byte c. */
  ghost function Step(p: Pattern, i: int, c: Byte): (s: int)
    requires 0 <= i < |p|
    ensures s >= 1
  {
    var badChar := CharShift(p, c) - |p| + i + 1;
    if badChar == |p| then badChar
    else if GoodShift(p, i) >= badChar then GoodShift(p, i) else badChar
  }

  /** How far the window moves on: by the period after a match. */
  ghost function Advance(p: Pattern, t: Text, j: nat): (n: int)
    requires j + |p| <= |t|
    ensures n >= 1
  {
    var i := Mismatch(p, t, j, |p| - 1);
    if i < 0 then GoodShift(p, 0) else Step(p, i, t[i + j])
  }

  predicate Matched(p: Pattern, t: Text, j: nat)
    requires j + |p| <= |t|
  {
    Mismatch(p, t, j, |p| - 1) < 0
  }

  /** The positions the search loop records from window j on. */
  ghost function Scan(p: Pattern, t: Text, j: nat): seq<int>
    decreases |t| - j
  {
    if j > |t| - |p| then []
    else (if Matched(p, t, j) then [j] else []) + Scan(p, t, j + Advance(p, t, j))
  }

  // ---------------------------------------------------------------- when the two agree

  /** A shift that fits a mismatch at i and brings a byte the table cannot find to it. */
  ghost predicate HiddenAt(p: Pattern, i: int, s: int) {
    1 <= s <= i < |p| && Fits(p, i, s) && p[i - s] >= 128
  }

  ghost predicate HiddenByte(p: Pattern) { exists i, s :: HiddenAt(p, i, s) }

  ghost predicate Ascii(p: Pattern) { forall k :: 0 <= k < |p| ==> p[k] < 128 }

  lemma AsciiHidesNothing(p: Pattern)
    requires Ascii(p)
    ensures !HiddenByte(p)
  {
  }

  /** An occurrence s further on is a shift that fits the window's mismatch. */
  lemma OccurrenceFits(p: Pattern, t: Text, j: nat, i: int, s: int)
    requires j + |p| <= |t| && i == Mismatch(p, t, j, |p| - 1)
    requires 1 <= s <= |p| && Occurs(p, t, j + s)
    ensures i >= 0 ==> Fits(p, i, s)
    ensures i < 0 ==> Fits(p, 0, s)
  {
    forall k | 0 <= k < |p| - s && i < k + s ensures Same(p, k, s) {
      assert t[j + s + k] == p[k];
      assert t[j + (s + k)] == p[s + k];
    }
    if 0 <= i && s <= i {
      assert t[(j + s) + (i - s)] == p[i - s];
    }
  }

  /** The window never moves past an occurrence. */
  lemma AdvanceIsSafe(p: Pattern, t: Text, j: nat, s: int)
    requires !HiddenByte(p) && j + |p| <= |t| && 1 <= s && Occurs(p, t, j + s)
    ensures Advance(p, t, j) <= s
  {
    var i := Mismatch(p, t, j, |p| - 1);
    if s <= |p| {
      OccurrenceFits(p, t, j, i, s);
      if 0 <= i && s <= i {
        assert t[(j + s) + (i - s)] == p[i - s];
        assert !HiddenAt(p, i, s);
        LastKeyIsLast(p, |p| - 1, t[i + j]);
      }
    }
  }

  /** After a match the window moves by the least period; after a mismatch by the good-suffix shift or by
      what the mismatched byte allows, whichever is more. */
  lemma AdvanceIs(p: Pattern, t: Text, j: nat) returns (i: int, good: int, skip: int)
    requires j + |p| <= |t|
    ensures var n := Advance(p, t, j);
            if Occurs(p, t, j) then Period(p, n) && forall s :: 1 <= s < n ==> !Period(p, s)
            else && 0 <= i < |p| && t[j + i] != p[i] && (forall k :: i < k < |p| ==> t[j + k] == p[k])
                 && IsGoodShift(p, i, good) && IsCharShift(p, t[j + i], skip)
                 && n >= good && n >= skip - |p| + i + 1 && (n == good || n == skip - |p| + i + 1)
  {
    i := Mismatch(p, t, j, |p| - 1);
    good, skip := 0, 0;
    if i < 0 {
      GoodShiftIsPeriod(p);
    } else {
      good, skip := GoodShift(p, i), CharShift(p, t[j + i]);
      CharShiftIs(p, t[j + i]);
    }
  }

  lemma {:induction false} NoneBetween(p: Pattern, t: Text, j: nat, n: nat)
    requires forall x :: j <= x < j + n ==> !Occurs(p, t, x)
    ensures OccurrencesFrom(p, t, j) == OccurrencesFrom(p, t, j + n)
    decreases n
  {
    if 0 < n {
      assert !Occurs(p, t, j);
      NoneBetween(p, t, j + 1, n - 1);
    }
  }

  lemma MatchedOccurs(p: Pattern, t: Text, j: nat)
    requires j + |p| <= |t|
    ensures Occurs(p, t, j) <==> Matched(p, t, j)
  {
  }

  lemma NoneSkipped(p: Pattern, t: Text, j: nat)
    requires !HiddenByte(p) && j + |p| <= |t|
    ensures OccurrencesFrom(p, t, j + 1) == OccurrencesFrom(p, t, j + Advance(p, t, j))
  {
    var n := Advance(p, t, j);
    forall x | j + 1 <= x < j + n ensures !Occurs(p, t, x) {
      if Occurs(p, t, x) { AdvanceIsSafe(p, t, j, x - j); }
    }
    NoneBetween(p, t, j + 1, n - 1);
  }

  lemma OneWindow(p: Pattern, t: Text, j: nat, n: int)
    requires j + |p| <= |t| && n == Advance(p, t, j)
    ensures Scan(p, t, j) == (if Matched(p, t, j) then [j] else []) + Scan(p, t, j + n)
  {
    hide Advance;
    hide Matched;
    hide GoodShift;
  }

  lemma OnePosition(p: Pattern, t: Text, j: nat)
    requires j + |p| <= |t|
    ensures OccurrencesFrom(p, t, j) == (if Matched(p, t, j) then [j] else []) + OccurrencesFrom(p, t, j + 1)
  {
    MatchedOccurs(p, t, j);
  }

  lemma ScanStep(p: Pattern, t: Text, j: nat, n: int)
    requires !HiddenByte(p) && j + |p| <= |t| && n == Advance(p, t, j)
    requires Scan(p, t, j + n) == OccurrencesFrom(p, t, j + n)
    ensures Scan(p, t, j) == OccurrencesFrom(p, t, j)
  {
    NoneSkipped(p, t, j);
    OnePosition(p, t, j);
    OneWindow(p, t, j, n);
    hide Advance;
    hide Matched;
    hide GoodShift;
    hide HiddenByte;
    hide Scan;
    hide OccurrencesFrom;
  }

  lemma NoWindow(p: Pattern, t: Text, j: nat)
    requires j > |t| - |p|
    ensures Scan(p, t, j) == [] && OccurrencesFrom(p, t, j) == []
  {
    hide Advance;
    hide Matched;
    hide GoodShift;
  }

  lemma {:induction false} ScanFindsAll(p: Pattern, t: Text, j: nat)
    requires !HiddenByte(p)
    ensures Scan(p, t, j) == OccurrencesFrom(p, t, j)
    decreases |t| - j
  {
    hide Scan;
    hide OccurrencesFrom;
    hide HiddenByte;
    if j <= |t| - |p| {
      ScanFindsAll(p, t, j + Advance(p, t, j));
      ScanStep(p, t, j, Advance(p, t, j));
    } else {
      NoWindow(p, t, j);
    }
  }

  /** Windows only move to the right. */
  lemma {:induction false} ScanStartsAt(p: Pattern, t: Text, j: nat, x: int)
    requires x in Scan(p, t, j)
    ensures x >= j
    decreases |t| - j
  {
    if j <= |t| - |p| && x != j {
      ScanStartsAt(p, t, j + Advance(p, t, j), x);
    }
  }

  /** Whatever the pattern, nothing but occurrences is recorded. */
  lemma {:induction false} ScanFindsOnly(p: Pattern, t: Text, j: nat, x: int)
    requires x in Scan(p, t, j)
    ensures Occurs(p, t, x)
    decreases |t| - j
  {
    hide Advance;
    hide Matched;
    hide GoodShift;
    hide Occurs;
    if j <= |t| - |p| {
      MatchedOccurs(p, t, j);
      if x in Scan(p, t, j + Advance(p, t, j)) {
        ScanFindsOnly(p, t, j + Advance(p, t, j), x);
      }
    }
  }

  lemma {:induction false} OccurrencesComplete(p: Pattern, t: Text, j: nat, x: int)
    ensures x in OccurrencesFrom(p, t, j) <==> j <= x && Occurs(p, t, x)
    decreases |t| - j
  {
    if j <= |t| - |p| { OccurrencesComplete(p, t, j + 1, x); }
  }

  /** A hidden byte makes the search jump over an occurrence in this text. */
  lemma HiddenByteMisses(p: Pattern, i: int, s: int)
    requires HiddenAt(p, i, s)
    ensures var t := p[..s] + p; Occurs(p, t, s) && s !in Scan(p, t, 0)
  {
    var t := p[..s] + p;
    var c := t[i];
    assert c == p[i - s] != p[i] by { assert !Same(p, i - s, s); }
    forall k | i < k < |p| ensures t[0 + k] == p[k] {
      assert Same(p, k - s, s);
    }
    assert Mismatch(p, t, 0, |p| - 1) == i;
    LastKeyIsLast(p, |p| - 1, c);
    assert Advance(p, t, 0) > s;
    if s in Scan(p, t, 0) { ScanStartsAt(p, t, Advance(p, t, 0), s); }
  }

  /** The search reports exactly the occurrences in every text if and only if the pattern hides no
      byte; in particular for every ASCII pattern. */
  lemma SearchIsExact(p: Pattern)
    ensures (forall t: Text :: Scan(p, t, 0) == Occurrences(p, t)) <==> !HiddenByte(p)
  {
    if HiddenByte(p) {
      var t := MissedText(p);
      assert Scan(p, t, 0) != Occurrences(p, t);
    } else {
      forall t: Text ensures Scan(p, t, 0) == Occurrences(p, t) {
        ScanFindsAll(p, t, 0);
      }
    }
  }

  lemma MissedText(p: Pattern) returns (t: Text)
    requires HiddenByte(p)
    ensures Scan(p, t, 0) != Occurrences(p, t)
  {
    var i, s :| HiddenAt(p, i, s);
    t := p[..s] + p;
    HiddenByteMisses(p, i, s);
    OccurrencesComplete(p, t, 0, s);
  }

  /** Patterns with bytes above 127 can go wrong: the two-byte pattern E9 61 is missed after 61. */
  lemma NonAsciiCanMiss()
    ensures exists p: Pattern :: |p| == 2 && HiddenByte(p)
  {
    var p: Pattern := [0xE9, 0x61];
    assert HiddenAt(p, 1, 1);
  }
}
