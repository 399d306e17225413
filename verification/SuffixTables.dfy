/** The two tables of the Boyer-Moore search that only depend on the pattern: compute_suffix and
    compute_good_suffix of src/boyer_moore.c. */
module SuffixTables {

  import opened Bytes

  /** An element of the C array `char suffix[]`: a signed 8-bit integer. */
  newtype Char = c: int | -128 <= c < 128

  /** Storing an int in a char keeps its low eight bits. */
  function ToChar(v: int): Char { (((v + 128) % 256) - 128) as Char }

  type Pattern = p: seq<Byte> | p != [] witness [0]

  // ---------------------------------------------------------------- common suffixes

  /** p agrees with itself, shifted by d, at position k. */
  ghost predicate Same(p: Pattern, k: int, d: int) {
    0 <= k < |p| && 0 <= k + d < |p| && p[k] == p[k + d]
  }

  /** ... at every position in lo+1..hi. */
  ghost predicate Agrees(p: Pattern, lo: int, hi: int, d: int) {
    forall k :: lo < k <= hi ==> Same(p, k, d)
  }

  /** n is the length of the longest common suffix of p[..i+1] and p. */
  ghost predicate IsCommonSuffix(p: Pattern, i: int, n: int) {
    0 <= n <= i + 1 && Agrees(p, i - n, i, |p| - 1 - i) && !Same(p, i - n, |p| - 1 - i)
  }

  lemma CommonSuffixUnique(p: Pattern, i: int, m: int, n: int)
    requires IsCommonSuffix(p, i, m) && IsCommonSuffix(p, i, n)
    ensures m == n
  {
    assert !Same(p, i - m, |p| - 1 - i) && !Same(p, i - n, |p| - 1 - i);
  }

  /** Every proper common suffix is short enough to be stored in a char. */
  ghost predicate FitsChar(p: Pattern) {
    forall i, n :: 0 <= i < |p| - 1 && IsCommonSuffix(p, i, n) ==> n <= 127
  }

  /** Patterns of up to 128 bytes always fit: the one entry that would not is never read. */
  lemma ShortPatternFits(p: Pattern)
    requires |p| <= 128
    ensures FitsChar(p)
  {
  }

  /** And only then can a table of chars hold the lengths. */
  lemma TableFits(p: Pattern, suff: seq<Char>)
    requires |suff| == |p| && forall i :: 0 <= i < |p| - 1 ==> IsCommonSuffix(p, i, suff[i] as int)
    ensures FitsChar(p)
  {
    forall i, n | 0 <= i < |p| - 1 && IsCommonSuffix(p, i, n) ensures n <= 127 {
      CommonSuffixUnique(p, i, n, suff[i] as int);
    }
  }

  /** The bound is tight: for 129 equal bytes a proper common suffix has length 128, which a char
      stores as -128, and the second phase of compute_good_suffix then writes outside its table. */
  lemma LongPatternOverflows() returns (p: Pattern)
    ensures |p| == 129 && !FitsChar(p) && IsCommonSuffix(p, 127, 128) && ToChar(128) == -128
    ensures |p| - 1 - ToChar(128) as int == |p| - 1 + 128 >= |p|
  {
    p := seq(129, _ => 97);
    assert IsCommonSuffix(p, 127, 128);
  }

  /** The window g+1..f is known to match the end of the pattern, and to end there. */
  ghost predicate Window(p: Pattern, f: int, g: int) {
    Agrees(p, g, f, |p| - 1 - f) && !Same(p, g, |p| - 1 - f)
  }

  /** The entries above i are the common suffix lengths. */
  ghost predicate TableFrom(p: Pattern, suff: seq<Char>, i: int) {
    |suff| == |p| && forall k :: i < k < |p| - 1 && 0 <= k ==> IsCommonSuffix(p, k, suff[k] as int)
  }

  /** Fills suff with the common suffix lengths, reusing earlier entries inside the window: they are
      right if and only if they all fit. The scan position g never moves up, so there are at most two
      comparisons per position, right or wrong. */
  method ComputeSuffix(p: Pattern, suff: array<Char>) returns (ghost comparisons: nat)
    requires suff.Length == |p|
    modifies suff
    ensures (forall i :: 0 <= i < |p| - 1 ==> IsCommonSuffix(p, i, suff[i] as int)) <==> FitsChar(p)
    ensures comparisons <= 2 * |p|
  {
    var m := |p|;
    suff[m - 1] := ToChar(m);
    var g := m - 1;
    var f := m - 2;
    var i := m - 2;
    comparisons := 0;
    assert TableFrom(p, suff[..], i);
    hide TableFrom;
    hide FitsChar;
    while i >= 0
      invariant -1 <= i <= m - 2 && -1 <= g <= m - 1
      invariant FitsChar(p) ==> TableFrom(p, suff[..], i)
      invariant i == m - 2 || (i < f <= m - 2 && g <= f && (FitsChar(p) ==> Window(p, f, g)))
      invariant i == m - 2 ==> g == m - 1
      invariant comparisons <= (m - 1 - g) + (m - 2 - i)
    {
      ghost var table, j := suff[..], i + m - 1 - f;
      if i > g && suff[i + m - 1 - f] as int < i - g {
        suff[i] := suff[i + m - 1 - f];
        if FitsChar(p) {
          TableAt(p, table, i, j);
          InsideWindow(p, f, g, i, suff[i] as int);
        }
      } else {
        if i < g {
          g := i;
        }
        if g < i && FitsChar(p) {
          TableAt(p, table, i, j);
          MeetsWindow(p, f, g, i, suff[j] as int);
        }
        f := i;
        while g >= 0 && p[g] == p[g + m - 1 - f]
          invariant -1 <= g <= f == i
          invariant FitsChar(p) ==> Agrees(p, g, f, m - 1 - f)
          invariant comparisons <= (m - 1 - g) + (m - 2 - i)
        {
          comparisons := comparisons + 1;
          g := g - 1;
        }
        comparisons := comparisons + 1;
        suff[i] := ToChar(f - g);
        if FitsChar(p) {
          assert IsCommonSuffix(p, i, f - g);
          Stored(p, i, f - g);
        }
      }
      if FitsChar(p) {
        TableStep(p, table, suff[..], i);
      }
      i := i - 1;
    }
    TableIff(p, suff[..]);
  }

  lemma TableAt(p: Pattern, suff: seq<Char>, i: int, j: int)
    requires TableFrom(p, suff, i) && i < j < |p| - 1 && 0 <= j
    ensures |suff| == |p| && IsCommonSuffix(p, j, suff[j] as int)
  {
  }

  lemma Stored(p: Pattern, i: int, n: int)
    requires FitsChar(p) && 0 <= i < |p| - 1 && IsCommonSuffix(p, i, n)
    ensures ToChar(n) as int == n
  {
  }

  lemma TableStep(p: Pattern, s0: seq<Char>, s1: seq<Char>, i: int)
    requires TableFrom(p, s0, i) && 0 <= i < |s0| == |s1| && s1 == s0[i := s1[i]] && IsCommonSuffix(p, i, s1[i] as int)
    ensures TableFrom(p, s1, i - 1)
  {
  }

  lemma TableIff(p: Pattern, suff: seq<Char>)
    requires |suff| == |p| && (FitsChar(p) ==> TableFrom(p, suff, -1))
    ensures (forall i :: 0 <= i < |p| - 1 ==> IsCommonSuffix(p, i, suff[i] as int)) <==> FitsChar(p)
  {
    if forall i :: 0 <= i < |p| - 1 ==> IsCommonSuffix(p, i, suff[i] as int) {
      TableFits(p, suff);
    }
  }

  /** Inside the window, an entry that stays clear of its left end can be copied. */
  lemma InsideWindow(p: Pattern, f: int, g: int, i: int, n: int)
    requires -1 <= g < i < f < |p| - 1 && Window(p, f, g)
    requires IsCommonSuffix(p, i + |p| - 1 - f, n) && n < i - g
    ensures IsCommonSuffix(p, i, n)
  {
    var d := |p| - 1 - f;
    var e := |p| - 1 - i;
    forall k | i - n < k <= i ensures Same(p, k, e) {
      assert Same(p, k, d) && Same(p, k + d, f - i);
    }
    assert Same(p, i - n, d) && !Same(p, i - n + d, f - i);
  }

  /** An entry that reaches the left end of the window says that g+1..i matches the pattern's end. */
  lemma MeetsWindow(p: Pattern, f: int, g: int, i: int, n: int)
    requires -1 <= g < i < f < |p| - 1 && Window(p, f, g)
    requires IsCommonSuffix(p, i + |p| - 1 - f, n) && n >= i - g
    ensures Agrees(p, g, i, |p| - 1 - i)
  {
    var d := |p| - 1 - f;
    var e := |p| - 1 - i;
    forall k | g < k <= i ensures Same(p, k, e) {
      assert Same(p, k, d) && Same(p, k + d, f - i);
    }
  }

  // ---------------------------------------------------------------- the good-suffix shift

  /** Shifting the pattern right by s keeps what matched beyond a mismatch at i, and brings a
      different byte to the mismatch. */
  ghost predicate Fits(p: Pattern, i: int, s: int) {
    && 1 <= s <= |p|
    && (forall k :: 0 <= k < |p| - s && i < k + s ==> Same(p, k, s))
    && (s <= i ==> !Same(p, i - s, s))
  }

  /** The strong good-suffix shift: the least one that fits. */
  ghost predicate IsGoodShift(p: Pattern, i: int, s: int) {
    Fits(p, i, s) && forall s' :: 1 <= s' < s ==> !Fits(p, i, s')
  }

  /** There is always one, since shifting by the whole pattern fits. */
  ghost function GoodShift(p: Pattern, i: int): (s: int)
    requires 0 <= i < |p|
    ensures IsGoodShift(p, i, s)
  {
    LeastFrom(p, i, 1)
  }

  ghost function LeastFrom(p: Pattern, i: int, s: int): (r: int)
    requires 0 <= i < |p| && 1 <= s <= |p| && forall s' :: 1 <= s' < s ==> !Fits(p, i, s')
    ensures IsGoodShift(p, i, r)
    decreases |p| - s
  {
    assert Fits(p, i, |p|);
    if Fits(p, i, s) then s else LeastFrom(p, i, s + 1)
  }

  lemma GoodShiftUnique(p: Pattern, i: int, s: int)
    requires 0 <= i < |p| && IsGoodShift(p, i, s)
    ensures s == GoodShift(p, i)
  {
  }

  /** At position 0 the good-suffix shift is the pattern's least period. */
  lemma GoodShiftIsPeriod(p: Pattern)
    ensures Period(p, GoodShift(p, 0))
    ensures forall s :: 1 <= s < GoodShift(p, 0) ==> !Period(p, s)
  {
    FitsPeriod(p, 0, GoodShift(p, 0));
    forall s | 1 <= s < GoodShift(p, 0) ensures !Period(p, s) {
      FitsPeriod(p, 0, s);
    }
  }

  /** s is a period of the pattern (|p| always is). */
  ghost predicate Period(p: Pattern, s: int) {
    1 <= s <= |p| && Agrees(p, -1, |p| - 1 - s, s)
  }

  /** Beyond the mismatch only periods fit ... */
  lemma FitsPeriod(p: Pattern, i: int, s: int)
    requires 0 <= i < s
    ensures Fits(p, i, s) <==> Period(p, s)
  {
  }

  /** ... and up to it exactly the shifts named by the suffix table. */
  lemma FitsSuffix(p: Pattern, i: int, s: int)
    requires 1 <= s <= i < |p|
    ensures Fits(p, i, s) <==> IsCommonSuffix(p, |p| - 1 - s, |p| - 1 - i)
  {
  }

  /** A period shows up in the suffix table as a prefix that is also a suffix. */
  lemma PeriodSuffix(p: Pattern, s: int)
    requires 1 <= s < |p|
    ensures Period(p, s) <==> IsCommonSuffix(p, |p| - 1 - s, |p| - s)
  {
  }

  /** The table after the first phase: the least period beyond each position. */
  ghost predicate IsPeriodShift(p: Pattern, i: int, s: int) {
    i < s && Period(p, s) && forall s' :: i < s' < s ==> !Period(p, s')
  }

  /** Position q is the one the second phase writes for suffix table entry i. */
  ghost predicate Writes(p: Pattern, suff: seq<Char>, q: int, i: int)
    requires |suff| == |p|
  {
    0 <= i < |p| - 1 && q == |p| - 1 - suff[i] as int
  }

  /** The value s at position q comes from the last write before entry i, or else from phase one. */
  ghost predicate Written(p: Pattern, suff: seq<Char>, q: int, i: int, s: int)
    requires |suff| == |p|
  {
    var last := |p| - 1 - s;
    if Writes(p, suff, q, last) && last < i then forall j :: last < j < i ==> !Writes(p, suff, q, j)
    else IsPeriodShift(p, q, s) && forall j :: 0 <= j < i ==> !Writes(p, suff, q, j)
  }

  method ComputeGoodSuffix(p: Pattern, goodSuffix: array<int>)
    requires goodSuffix.Length == |p| && FitsChar(p)
    modifies goodSuffix
    ensures forall i :: 0 <= i < |p| ==> goodSuffix[i] == GoodShift(p, i)
  {
    var m := |p|;
    var suffix := new Char[m];
    var _ := ComputeSuffix(p, suffix);
    ghost var suff := suffix[..];
    FirstPhase(p, suffix, goodSuffix);
    var i := 0;
    while i <= m - 2
      invariant 0 <= i <= m - 1 || m == 1
      invariant suffix[..] == suff
      invariant forall k :: 0 <= k < m - 1 ==> IsCommonSuffix(p, k, suff[k] as int)
      invariant forall q :: 0 <= q < m ==> Written(p, suff, q, i, goodSuffix[q])
    {
      assert IsCommonSuffix(p, i, suff[i] as int);
      goodSuffix[m - 1 - suffix[i] as int] := m - 1 - i;
      i := i + 1;
    }
    forall q | 0 <= q < m ensures goodSuffix[q] == GoodShift(p, q) {
      LastWriteIsBest(p, suff, q, goodSuffix[q]);
      GoodShiftUnique(p, q, goodSuffix[q]);
    }
  }

  /** Initialises the table to m and enters the least period beyond each position. */
  method FirstPhase(p: Pattern, suffix: array<Char>, goodSuffix: array<int>)
    requires goodSuffix.Length == suffix.Length == |p|
    requires forall i :: 0 <= i < |p| - 1 ==> IsCommonSuffix(p, i, suffix[i] as int)
    modifies goodSuffix
    ensures forall i :: 0 <= i < |p| ==> IsPeriodShift(p, i, goodSuffix[i])
  {
    var m := |p|;
    for i := 0 to m
      invariant forall q :: 0 <= q < i ==> goodSuffix[q] == m
    {
      goodSuffix[i] := m;
    }
    var j := 0;
    var i := m - 1;
    while i >= 0
      invariant -1 <= i <= m - 1 && 0 <= j <= m - 1 - i
      invariant forall q :: 0 <= q < j ==> IsPeriodShift(p, q, goodSuffix[q])
      invariant forall q :: j <= q < m ==> goodSuffix[q] == m
      invariant forall s :: j < s < m - 1 - i ==> !Period(p, s)
    {
      if suffix[i] as int == i + 1 {
        while j < m - 1 - i
          invariant 0 <= j <= m - 1 - i
          invariant forall q :: 0 <= q < j ==> IsPeriodShift(p, q, goodSuffix[q])
          invariant forall q :: j <= q < m ==> goodSuffix[q] == m
          invariant forall s :: j < s < m - 1 - i ==> !Period(p, s)
        {
          PeriodSuffix(p, m - 1 - i);
          if goodSuffix[j] == m {
            goodSuffix[j] := m - 1 - i;
          }
          j := j + 1;
        }
      } else if i < m - 1 {
        PeriodSuffix(p, m - 1 - i);
      }
      i := i - 1;
    }
  }

  /** No fitting shift up to q goes unwritten, and every write names one. */
  lemma WriteFits(p: Pattern, suff: seq<Char>, q: int, s: int)
    requires |suff| == |p| && 1 <= s <= q < |p|
    requires IsCommonSuffix(p, |p| - 1 - s, suff[|p| - 1 - s] as int)
    ensures Fits(p, q, s) <==> Writes(p, suff, q, |p| - 1 - s)
  {
    FitsSuffix(p, q, s);
    if Fits(p, q, s) {
      CommonSuffixUnique(p, |p| - 1 - s, suff[|p| - 1 - s] as int, |p| - 1 - q);
    }
  }

  /** What the two phases leave at q is the least fitting shift. */
  lemma LastWriteIsBest(p: Pattern, suff: seq<Char>, q: int, s: int)
    requires |suff| == |p| && 0 <= q < |p|
    requires forall k :: 0 <= k < |p| - 1 ==> IsCommonSuffix(p, k, suff[k] as int)
    requires Written(p, suff, q, |p| - 1, s)
    ensures IsGoodShift(p, q, s)
  {
    var last := |p| - 1 - s;
    if Writes(p, suff, q, last) {
      assert IsCommonSuffix(p, last, suff[last] as int);
      if s <= q {
        WriteFits(p, suff, q, s);
      } else {
        PeriodSuffix(p, s);
        FitsPeriod(p, q, s);
      }
    } else {
      FitsPeriod(p, q, s);
    }
    forall s' | 1 <= s' < s ensures !Fits(p, q, s') {
      assert !Writes(p, suff, q, |p| - 1 - s');
      if s' <= q {
        WriteFits(p, suff, q, s');
      } else {
        FitsPeriod(p, q, s');
      }
    }
  }
}
