/** Which parts of a line the option -o with -g reports: from the left, the longest non-empty match
    at each position not inside an earlier one ("matched" in section 9.1 of the POSIX Base
    Definitions, empty matches left out). */
module LongestMatches {
  import opened Regex
  import opened ThreadSpec

  // ---------------------------------------------------------------- the specification

  ghost predicate MatchesAt(r: Expr, text: Word, i: nat, e: nat) { i <= e <= |text| && In(r, text[i..e]) }

  /** The text from i to e is the longest match at i, and not empty. */
  ghost predicate Longest(r: Expr, text: Word, i: nat, e: nat) {
    i < e && MatchesAt(r, text, i, e) && forall f :: e < f <= |text| ==> !MatchesAt(r, text, i, f)
  }

  /** First and last positions of the reported matches from position i on. */
  ghost function Matches(r: Expr, text: Word, i: nat): seq<(int, int)>
    decreases |text| - i
  {
    if i >= |text| then []
    else if e: nat :| Longest(r, text, i, e) then [(i, e - 1)] + Matches(r, text, e)
    else Matches(r, text, i + 1)
  }

  lemma LongestUnique(r: Expr, text: Word, i: nat, e: nat, f: nat)
    requires Longest(r, text, i, e) && Longest(r, text, i, f)
    ensures e == f
  {
  }

  lemma {:induction false} LongestExists(r: Expr, text: Word, i: nat, e: nat) returns (f: nat)
    requires i < e && MatchesAt(r, text, i, e)
    ensures Longest(r, text, i, f) && e <= f
    decreases |text| - e
  {
    if g: nat :| e < g <= |text| && MatchesAt(r, text, i, g) {
      f := LongestExists(r, text, i, g);
    } else {
      f := e;
    }
  }

  /** One report at a time. */
  lemma MatchesStep(r: Expr, text: Word, i: nat, e: nat)
    requires i < |text| && Longest(r, text, i, e)
    ensures Matches(r, text, i) == [(i, e - 1)] + Matches(r, text, e)
  {
    var f: nat :| Longest(r, text, i, f) && Matches(r, text, i) == [(i, f - 1)] + Matches(r, text, f);
    LongestUnique(r, text, i, e, f);
  }

  /** The reports are longest matches, from left to right, and do not overlap. */
  lemma {:induction false} MatchesInOrder(r: Expr, text: Word, i: nat)
    ensures var ms := Matches(r, text, i);
            && (forall k :: 0 <= k < |ms| ==> i <= ms[k].0 <= ms[k].1 && Longest(r, text, ms[k].0, ms[k].1 + 1))
            && (forall j, k :: 0 <= j < k < |ms| ==> ms[j].1 < ms[k].0)
    decreases |text| - i
  {
    if i < |text| {
      if e: nat :| Longest(r, text, i, e) {
        MatchesStep(r, text, i, e);
        MatchesInOrder(r, text, e);
      } else {
        assert Matches(r, text, i) == Matches(r, text, i + 1);
        MatchesInOrder(r, text, i + 1);
      }
    }
  }

  /** Every non-empty match begins inside a reported one. */
  lemma {:induction false} MatchesComplete(r: Expr, text: Word, i: nat, b: nat, e: nat) returns (k: nat)
    requires i <= b < e && MatchesAt(r, text, b, e)
    ensures k < |Matches(r, text, i)| && Matches(r, text, i)[k].0 <= b <= Matches(r, text, i)[k].1
    decreases |text| - i
  {
    if f: nat :| Longest(r, text, i, f) {
      MatchesStep(r, text, i, f);
      if b < f {
        k := 0;
      } else {
        k := MatchesComplete(r, text, f, b, e);
        k := k + 1;
      }
    } else {
      if b == i { var f := LongestExists(r, text, b, e); }
      k := MatchesComplete(r, text, i + 1, b, e);
    }
  }

  lemma SameLongest(r: Expr, q: Expr, text: Word, i: nat, e: nat)
    requires SameWords(r, q)
    ensures MatchesAt(r, text, i, e) <==> MatchesAt(q, text, i, e)
    ensures Longest(r, text, i, e) <==> Longest(q, text, i, e)
  {
    forall f: nat ensures MatchesAt(r, text, i, f) <==> MatchesAt(q, text, i, f) {}
  }

  /** Only the words matter. */
  lemma {:induction false} SameMatches(r: Expr, q: Expr, text: Word, i: nat)
    requires SameWords(r, q)
    ensures Matches(r, text, i) == Matches(q, text, i)
    decreases |text| - i
  {
    if i < |text| {
      forall e: nat ensures Longest(r, text, i, e) <==> Longest(q, text, i, e) {
        SameLongest(r, q, text, i, e);
      }
      if e: nat :| Longest(r, text, i, e) {
        MatchesStep(r, text, i, e);
        MatchesStep(q, text, i, e);
        SameMatches(r, q, text, e);
      } else {
        SameMatches(r, q, text, i + 1);
      }
    }
  }

  // ---------------------------------------------------------------- how it is found

  /** update_longest_match, on the first and last positions of the match held and a new one. */
  function UpdateLongest(m: (Pos, Pos), n: (Pos, Pos)): (Pos, Pos) {
    if m.1 == NIL || m.1 - m.0 < n.1 - n.0 then n
    else if n.0 - m.1 > -1 && n.0 - m.1 <= 1 then (m.0, n.1)
    else m
  }

  /** The match held is the longest of those found at i, NULL while only the empty one is. */
  ghost predicate HoldsLongest(m: (Pos, Pos), found: set<nat>, i: nat) {
    || (m == (NIL, NIL) && forall e :: e in found ==> e <= i)
    || (m.0 == i <= m.1 && m.1 + 1 in found && forall e :: e in found ==> e <= m.1 + 1)
  }

  lemma UpdateHolds(m: (Pos, Pos), found: set<nat>, t: Task, i: nat)
    requires HoldsLongest(m, found, i)
    requires if t.end < 0 then t.start == NIL && t.end == NIL else t.start == i <= t.end
    ensures HoldsLongest(UpdateLongest(m, (t.start, t.end)), found + {End(t, i) as nat}, i)
  {
  }

  /** At the end of an attempt the match held is the next report, if there is one here. */
  lemma HeldIsNext(r: Expr, text: Word, i: nat, m: (Pos, Pos), found: set<nat>)
    requires i < |text| && HoldsLongest(m, found, i) && forall e: nat :: e in found <==> MatchesAt(r, text, i, e)
    ensures m.1 == NIL ==> Matches(r, text, i) == Matches(r, text, i + 1)
    ensures m.1 != NIL ==> i == m.0 <= m.1 < |text| && Matches(r, text, i) == [m] + Matches(r, text, m.1 + 1)
  {
    if m.1 != NIL {
      MatchesStep(r, text, i, m.1 + 1);
    }
  }

  /** Some match begins before position i. */
  ghost predicate Earlier(r: Expr, text: Word, i: nat) {
    exists j: nat, e: nat :: j < i && MatchesAt(r, text, j, e)
  }

  /** Going on behind a match, or by one position, misses no beginning of a first match. */
  lemma EarlierNext(r: Expr, text: Word, i: nat, next: nat, found: set<nat>)
    requires i < next && forall e: nat :: e in found <==> MatchesAt(r, text, i, e)
    requires found == {} ==> next == i + 1
    ensures Earlier(r, text, next) <==> Earlier(r, text, i) || found != {}
  {
    if found != {} {
      var e: nat :| e in found;
      assert MatchesAt(r, text, i, e);
    }
  }
}
