/** The shift table of src/mpat.c (after Wu and Manber) and the way its search moves on: by at least
    as much as the last two bytes of a window allow, and never past a window that may match. */
module Mpat {
  import opened BoyerMooreSpec
  import Spec = RedBlackSpec
  import opened RedBlackTree
  import opened KeyTable

  /** The length of the blocks that are hashed. */
  const B := 2

  // ---------------------------------------------------------------- the specification

  /** COMPUTE_SUFFIX_HASH of the block that ends at i; chars are signed. */
  function SuffixHash(t: Text, i: int): int
    requires 1 <= i < |t|
  {
    Signed(t[i]) * 32 + Signed(t[i - 1])
  }

  /** The m-prefixes of the patterns are searched for. */
  ghost predicate Patterns(ps: seq<Text>, m: int) {
    3 <= m && forall i :: 0 <= i < |ps| ==> m <= |ps[i]|
  }

  /** The block of pattern i that ends j bytes before the end of its m-prefix hashes to k. */
  ghost predicate BlockAt(ps: seq<Text>, m: int, i: int, j: int, k: int)
    requires Patterns(ps, m)
  {
    0 <= i < |ps| && 0 <= j <= m - B && SuffixHash(ps[i], m - 1 - j) == k
  }

  /** A window whose last block hashes to k may move on by j and match there. */
  ghost predicate Aligns(ps: seq<Text>, m: int, k: int, j: int)
    requires Patterns(ps, m)
  {
    exists i :: BlockAt(ps, m, i, j, k)
  }

  /** The least move that some pattern allows, or else the default one. */
  ghost predicate IsShift(ps: seq<Text>, m: int, k: int, s: int)
    requires Patterns(ps, m)
  {
    && 0 <= s <= m - B + 1 && (s <= m - B ==> Aligns(ps, m, k, s))
    && forall j :: 0 <= j < s ==> !Aligns(ps, m, k, j)
  }

  /** The m-prefix of pattern i ends at e in the text. */
  ghost predicate PrefixEnds(ps: seq<Text>, m: int, t: Text, i: int, e: int)
    requires Patterns(ps, m)
  {
    0 <= i < |ps| && m - 1 <= e < |t| && t[e - m + 1..e + 1] == ps[i][..m]
  }

  /** The move never goes past a window in which a prefix ends ... */
  lemma ShiftIsSafe(ps: seq<Text>, m: int, t: Text, e: int, s: int, i: int, f: int)
    requires Patterns(ps, m) && m - 1 <= e < |t| && IsShift(ps, m, SuffixHash(t, e), s)
    requires PrefixEnds(ps, m, t, i, f) && e <= f
    ensures s <= f - e
  {
    var j := f - e;
    if j <= m - B {
      var w, p := t[f - m + 1..f + 1], ps[i][..m];
      assert t[e] == w[m - 1 - j] == p[m - 1 - j] && t[e - 1] == w[m - 2 - j] == p[m - 2 - j];
      assert BlockAt(ps, m, i, j, SuffixHash(t, e));
      assert Aligns(ps, m, SuffixHash(t, e), j);
    }
  }

  /** The two bytes of t that end at e make the number k. */
  ghost predicate Makes(t: Text, e: int, k: int)
    requires 1 <= e < |t|
  {
    32 * Signed(t[e]) + Signed(t[e - 1]) == k
  }

  /** s is the least distance at which some pattern has two bytes that make k before the end of its m-prefix,
      and m - 1 if there is none. */
  ghost predicate LeastDistance(ps: seq<Text>, m: int, k: int, s: int)
    requires Patterns(ps, m)
  {
    && 0 <= s <= m - 1 && (s < m - 1 ==> exists i :: 0 <= i < |ps| && Makes(ps[i], m - 1 - s, k))
    && forall i, q :: 0 <= i < |ps| && m - 1 - s < q <= m - 1 && 1 <= q ==> !Makes(ps[i], q, k)
  }

  lemma ShiftIs(ps: seq<Text>, m: int, k: int, s: int)
    requires Patterns(ps, m) && IsShift(ps, m, k, s)
    ensures LeastDistance(ps, m, k, s)
  {
    if s < m - 1 {
      var i :| BlockAt(ps, m, i, s, k);
      assert Makes(ps[i], m - 1 - s, k);
    }
    forall i, q | 0 <= i < |ps| && m - 1 - s < q <= m - 1 && 1 <= q ensures !Makes(ps[i], q, k) {
      var j := m - 1 - q;
      assert !Aligns(ps, m, k, j) && !BlockAt(ps, m, i, j, k) && m - 1 - j == q;
    }
  }

  /** From the window that ends at e the search goes on to the one that ends at next: by the shift, or by one
      if that is 0. */
  ghost predicate GoesOn(ps: seq<Text>, m: int, t: Text, e: int, next: int)
    requires Patterns(ps, m) && 1 <= e < |t|
  {
    exists k, s :: Makes(t, e, k) && LeastDistance(ps, m, k, s) && next == e + if s == 0 then 1 else s
  }

  /** The windows that are looked at so far, by their last positions, when the one that ends at ptr is next. */
  ghost predicate Trace(ps: seq<Text>, m: int, t: Text, at: seq<int>, ptr: int)
    requires Patterns(ps, m)
  {
    && (forall n :: 0 <= n < |at| ==> 1 <= at[n] < |t|)
    && (forall n :: 0 <= n < |at| - 1 ==> GoesOn(ps, m, t, at[n], at[n + 1]))
    && if at == [] then ptr == m - 1 else at[0] == m - 1 && GoesOn(ps, m, t, at[|at| - 1], ptr)
  }

  /** The last two bytes of the window make the number that those of some pattern's m-prefix make. */
  ghost predicate Compares(ps: seq<Text>, m: int, t: Text, e: int)
    requires Patterns(ps, m) && 1 <= e < |t|
  {
    exists i, k :: 0 <= i < |ps| && Makes(t, e, k) && Makes(ps[i], m - 1, k)
  }

  lemma TraceMore(ps: seq<Text>, m: int, t: Text, at: seq<int>, ptr: int, s: int)
    requires Patterns(ps, m) && Trace(ps, m, t, at, ptr) && m - 1 <= ptr < |t|
    requires IsShift(ps, m, SuffixHash(t, ptr), s)
    ensures Trace(ps, m, t, at + [ptr], ptr + if s == 0 then 1 else s)
    ensures s == 0 <==> Compares(ps, m, t, ptr)
  {
    var k := SuffixHash(t, ptr);
    ShiftIs(ps, m, k, s);
    assert Makes(t, ptr, k);
    assert GoesOn(ps, m, t, ptr, ptr + if s == 0 then 1 else s);
  }

  // ---------------------------------------------------------------- the table

  /** What insert_shift_record does to the table. */
  function MinPut(tab: map<int, int>, key: int, shift: int): map<int, int> {
    if key in tab && tab[key] <= shift then tab else tab[key := shift]
  }

  /** Block j of pattern i has been entered: all of the first n patterns, and the first l of pattern n. */
  ghost predicate Entered(n: int, l: int, i: int, j: int) { i < n || (i == n && j < l) }

  /** The table holds the least distance of each hash among the blocks entered. */
  ghost predicate Least(ps: seq<Text>, m: int, tab: map<int, int>, n: int, l: int)
    requires Patterns(ps, m)
  {
    && (forall k :: k in tab ==> EnteredAt(ps, m, n, l, tab[k], k))
    && (forall i, j, k :: BlockAt(ps, m, i, j, k) && Entered(n, l, i, j) ==> k in tab && tab[k] <= j)
  }

  ghost predicate EnteredAt(ps: seq<Text>, m: int, n: int, l: int, j: int, k: int)
    requires Patterns(ps, m)
  {
    exists i :: BlockAt(ps, m, i, j, k) && Entered(n, l, i, j)
  }

  lemma LeastNone(ps: seq<Text>, m: int)
    requires Patterns(ps, m)
    ensures Least(ps, m, map[], 0, 0)
  {
  }

  lemma LeastMore(ps: seq<Text>, m: int, tab: map<int, int>, n: int, l: int)
    requires Patterns(ps, m) && 0 <= n < |ps| && 0 <= l <= m - B && Least(ps, m, tab, n, l)
    ensures Least(ps, m, MinPut(tab, SuffixHash(ps[n], m - 1 - l), l), n, l + 1)
  {
    var key := SuffixHash(ps[n], m - 1 - l);
    var more := MinPut(tab, key, l);
    assert BlockAt(ps, m, n, l, key) && Entered(n, l + 1, n, l);
    forall k | k in more ensures EnteredAt(ps, m, n, l + 1, more[k], k) {
      if k in tab && more[k] == tab[k] {
        var i :| BlockAt(ps, m, i, tab[k], k) && Entered(n, l, i, tab[k]);
        assert Entered(n, l + 1, i, tab[k]);
      }
    }
  }

  /** All blocks of a pattern: the next pattern's turn. */
  lemma LeastNext(ps: seq<Text>, m: int, tab: map<int, int>, n: int)
    requires Patterns(ps, m) && 0 <= n && Least(ps, m, tab, n, m - B + 1)
    ensures Least(ps, m, tab, n + 1, 0)
  {
    forall k | k in tab ensures EnteredAt(ps, m, n + 1, 0, tab[k], k) {
      var i :| BlockAt(ps, m, i, tab[k], k) && Entered(n, m - B + 1, i, tab[k]);
      assert Entered(n + 1, 0, i, tab[k]);
    }
  }

  /** The finished table gives the shift of every hash. */
  lemma LeastIsShift(ps: seq<Text>, m: int, tab: map<int, int>, k: int)
    requires Patterns(ps, m) && Least(ps, m, tab, |ps|, 0)
    ensures IsShift(ps, m, k, if k in tab then tab[k] else m - B + 1)
  {
    forall i, j | BlockAt(ps, m, i, j, k) ensures k in tab && tab[k] <= j {
      assert Entered(|ps|, 0, i, j);
    }
  }

  // ---------------------------------------------------------------- mpat_init

  /** preprocess_patterns: m is the length of the shortest pattern, unless that is below 3. */
  method PreprocessPatterns(patterns: seq<Text>) returns (ok: bool, m: int)
    requires patterns != []
    ensures (exists i :: 0 <= i < |patterns| && |patterns[i]| == m)
    ensures forall i :: 0 <= i < |patterns| ==> m <= |patterns[i]|
    ensures ok <==> Patterns(patterns, m)
  {
    m := |patterns[0]|;
    for n := 1 to |patterns|
      invariant exists i :: 0 <= i < |patterns| && |patterns[i]| == m
      invariant forall i :: 0 <= i < n ==> m <= |patterns[i]|
    {
      if |patterns[n]| < m {
        m := |patterns[n]|;
      }
    }
    ok := m >= 3;
  }

  /** insert_shift_record */
  method InsertShiftRecord(t: RBTree, key: int, shift: int, ghost tab: map<int, int>)
    requires t.Valid() && Holds(t, tab)
    modifies t, t.Repr()
    ensures t.Valid() && Holds(t, MinPut(tab, key, shift))
    ensures fresh(t.Repr() - old(t.Repr()))
  {
    assert allocated(Spec.Ids(t.tree)) && allocated(t.Pool());
    assert t.LiveValid();
    hide RBTree.Valid;
    hide RBTree.LiveValid;
    hide Holds;
    var sr, _ := t.Search(key);
    assert t.Valid() && Holds(t, tab);
    ghost var repr := t.Repr();
    assert repr == old(t.Repr());
    if sr == null {
      AddKey(t, key, shift, tab);
      assert t.Repr() - repr == t.Repr() - old(t.Repr());
    } else if sr.data > shift {
      Overwrite(t, sr, key, shift, tab);
      assert t.Repr() == repr;
    }
  }

  /** hash_substrings, and the entry for the last block before it: all blocks of pattern n. */
  method HashSubstrings(t: RBTree, ps: seq<Text>, m: int, n: int, ghost tab0: map<int, int>)
      returns (ghost tab: map<int, int>)
    requires t.Valid() && Holds(t, tab0) && Patterns(ps, m) && 0 <= n < |ps| && Least(ps, m, tab0, n, 0)
    modifies t, t.Repr()
    ensures t.Valid() && Holds(t, tab) && Least(ps, m, tab, n + 1, 0)
    ensures fresh(t.Repr() - old(t.Repr()))
  {
    hide RBTree.Valid;
    hide Holds;
    hide Least;
    LeastMore(ps, m, tab0, n, 0);
    tab := MinPut(tab0, SuffixHash(ps[n], m - 1), 0);
    InsertShiftRecord(t, SuffixHash(ps[n], m - 1), 0, tab0);
    var i := m - B;
    while i > 0
      invariant 0 <= i <= m - B
      invariant fresh(t.Repr() - old(t.Repr()))
      invariant t.Valid() && Holds(t, tab) && Least(ps, m, tab, n, m - 1 - i)
    {
      var j := m - 1 - i;
      ghost var before := t.Repr();
      LeastMore(ps, m, tab, n, j);
      label L:
      InsertShiftRecord(t, SuffixHash(ps[n], i), j, tab);
      tab := MinPut(tab, SuffixHash(ps[n], i), j);
      assert forall r :: r in t.Repr() ==> r in before || r in t.Repr() - before;
      assert forall r :: r in t.Repr() && fresh@L(r) ==> fresh(r);
      i := i - 1;
    }
    LeastNext(ps, m, tab, n);
  }

  // ---------------------------------------------------------------- the search object

  /** The listing's first and last keys are the least and the greatest. */
  lemma EndKeys(t: Spec.Tree<RBNode>, k: int)
    requires Links(t, null) && Spec.Ordered(t) && k in Spec.Keys(t)
    ensures t.Node? && Spec.InOrder(t) != []
    ensures Spec.InOrder(t)[0].key <= k <= Spec.InOrder(t)[|Spec.InOrder(t)| - 1].key
  {
    var e :| e in Spec.InOrder(t) && e.key == k;
    var i :| 0 <= i < |Spec.InOrder(t)| && Spec.InOrder(t)[i] == e;
  }

  lemma FirstKey(ps: seq<Text>, m: int, table: map<int, int>)
    requires Patterns(ps, m) && ps != [] && Least(ps, m, table, |ps|, 0)
    ensures table != map[]
  {
    var k := SuffixHash(ps[0], m - 1);
    assert BlockAt(ps, m, 0, 0, k) && Entered(|ps|, 0, 0, 0);
    assert k in table;
  }

  lemma TableBounds(t: Spec.Tree<RBNode>, table: map<int, int>)
    requires Links(t, null) && Spec.Ordered(t) && Spec.Keys(t) == table.Keys && table != map[]
    ensures t.Node? && Spec.InOrder(t) != []
    ensures KeysWithin(table, Spec.InOrder(t)[0].key, Spec.InOrder(t)[|Spec.InOrder(t)| - 1].key)
  {
    var k :| k in table;
    EndKeys(t, k);
    forall k | k in table ensures Spec.InOrder(t)[0].key <= k <= Spec.InOrder(t)[|Spec.InOrder(t)| - 1].key {
      EndKeys(t, k);
    }
  }

  ghost predicate KeysWithin(table: map<int, int>, low: int, high: int) {
    forall k :: k in table ==> low <= k <= high
  }

  method MinKey(t: RBTree) returns (k: int)
    requires t.Valid() && t.tree.Node?
    ensures Spec.InOrder(t.tree) != [] && k == Spec.InOrder(t.tree)[0].key
  {
    LinkedEntries(t.tree, null);
    ghost var xs := Spec.InOrder(t.tree);
    assert At(Spec.Top, t.tree) && t.root == RootOf(t.tree) && xs != [] && xs[0].id.key == xs[0].key;
    Spec.DistinctListing(t.tree);
    assert allocated(Spec.Ids(t.tree)) && xs[0] in xs && xs[0].id in Spec.Ids(t.tree);
    hide At;
    hide Links;
    hide RBTree.Valid;
    var first, _, _ := Min(t.root, Spec.Top, t.tree);
    k := first.key;
  }

  method MaxKey(t: RBTree) returns (k: int)
    requires t.Valid() && t.tree.Node?
    ensures Spec.InOrder(t.tree) != [] && k == Spec.InOrder(t.tree)[|Spec.InOrder(t.tree)| - 1].key
  {
    LinkedEntries(t.tree, null);
    ghost var xs := Spec.InOrder(t.tree);
    assert At(Spec.Top, t.tree) && t.root == RootOf(t.tree) && xs != [] && xs[|xs| - 1].id.key == xs[|xs| - 1].key;
    Spec.DistinctListing(t.tree);
    assert allocated(Spec.Ids(t.tree)) && xs[|xs| - 1] in xs && xs[|xs| - 1].id in Spec.Ids(t.tree);
    hide At;
    hide Links;
    hide RBTree.Valid;
    var last := Max(t.root, Spec.Top, t.tree);
    k := last.key;
  }

  /** The least and the greatest key of a table. */
  method Bounds(t: RBTree, ghost table: map<int, int>) returns (low: int, high: int)
    requires t.Valid() && Holds(t, table) && table != map[]
    ensures KeysWithin(table, low, high)
  {
    TableBounds(t.tree, table);
    assert allocated(t.Repr());
    hide RBTree.Valid;
    hide Spec.InOrder;
    hide Holds;
    hide KeysWithin;
    low := MinKey(t);
    high := MaxKey(t);
  }

  class MPatObj {
    const shift: RBTree
    var m: int
    var defaultShift: int
    var minKey: int
    var maxKey: int
    ghost var patterns: seq<Text>
    ghost var table: map<int, int>

    ghost predicate Valid()
      reads this, shift, shift.Repr()
    {
      && Patterns(patterns, m) && defaultShift == m - B + 1 && shift.Valid() && Holds(shift, table)
      && Least(patterns, m, table, |patterns|, 0) && KeysWithin(table, minKey, maxKey)
    }

    /** new_mpat */
    constructor ()
      ensures fresh(shift) && fresh(shift.Repr()) && shift.Valid() && Holds(shift, map[])
    {
      var t := NewTable();
      shift := t;
      m, defaultShift, minKey, maxKey := 0, 0, 0, 0;
      patterns, table := [], map[];
    }

    /** mpat_init: refuses patterns when one is shorter than three bytes. */
    method Init(ps: seq<Text>) returns (ok: bool)
      requires shift.Valid() && Holds(shift, map[]) && ps != []
      modifies this, shift, shift.Repr()
      ensures ok <==> forall i :: 0 <= i < |ps| ==> 3 <= |ps[i]|
      ensures ok ==> Valid() && patterns == ps && exists i :: 0 <= i < |ps| && |ps[i]| == m
    {
      hide RBTree.Valid;
      hide Holds;
      hide Least;
      assert allocated(shift.Repr());
      var len;
      ok, len := PreprocessPatterns(ps);
      if !ok {
        return;
      }
      m, defaultShift, patterns := len, len - B + 1, ps;
      LoadTables(ps);
      KeyBounds();
    }

    /** The loop over the patterns. */
    method LoadTables(ps: seq<Text>)
      requires shift.Valid() && Holds(shift, map[]) && Patterns(ps, m)
      modifies this`table, shift, shift.Repr()
      ensures shift.Valid() && Holds(shift, table) && Least(ps, m, table, |ps|, 0)
    {
      assert allocated(shift.Repr());
      hide RBTree.Valid;
      hide Holds;
      LeastNone(ps, m);
      hide Least;
      ghost var tab := map[];
      for n := 0 to |ps|
        invariant fresh(shift.Repr() - old(shift.Repr()))
        invariant shift.Valid() && Holds(shift, tab) && Least(ps, m, tab, n, 0)
      {
        ghost var before := shift.Repr();
        label L:
        tab := HashSubstrings(shift, ps, m, n, tab);
        assert forall r :: r in shift.Repr() ==> r in before || r in shift.Repr() - before;
        assert forall r :: r in shift.Repr() && fresh@L(r) ==> fresh(r);
      }
      assert allocated(shift.Repr());
      table := tab;
    }

    /** min_key and max_key */
    method KeyBounds()
      requires shift.Valid() && Holds(shift, table) && patterns != [] && Patterns(patterns, m)
      requires Least(patterns, m, table, |patterns|, 0) && defaultShift == m - B + 1
      modifies this`minKey, this`maxKey
      ensures Valid()
    {
      FirstKey(patterns, m, table);
      assert allocated(shift.Repr());
      hide RBTree.Valid;
      hide Holds;
      hide Least;
      hide KeysWithin;
      var low, high := Bounds(shift, table);
      minKey, maxKey := low, high;
    }

    /** get_shift: the keys outside the table's range need no search. */
    method GetShift(k: int) returns (s: int)
      requires Valid()
      ensures IsShift(patterns, m, k, s) && LeastDistance(patterns, m, k, s)
    {
      LeastIsShift(patterns, m, table, k);
      ShiftIs(patterns, m, k, if k in table then table[k] else m - B + 1);
      assert k in table ==> minKey <= k <= maxKey;
      assert allocated(shift.Repr());
      hide Least;
      hide IsShift;
      hide LeastDistance;
      if minKey > k || maxKey < k {
        return defaultShift;
      }
      var sr, _ := shift.Search(k);
      if sr != null {
        return sr.data;
      }
      return defaultShift;
    }

    /** The windows in which mpat_search compares patterns, by their last positions. The text ends with
        its end-of-line marker; a text no longer than m is not searched. */
    method Windows(text: Text) returns (visited: seq<int>, ghost at: seq<int>)
      requires Valid() && text != []
      ensures |text| <= m ==> visited == []
      ensures m < |text| ==> forall i, e :: PrefixEnds(patterns, m, text, i, e) ==> e in visited
      ensures forall k :: 0 <= k < |visited| ==>
                m - 1 <= visited[k] < |text| && Aligns(patterns, m, SuffixHash(text, visited[k]), 0)
      ensures forall j, k :: 0 <= j < k < |visited| ==> visited[j] < visited[k]
      ensures m < |text| ==> exists ptr :: ptr >= |text| && Trace(patterns, m, text, at, ptr)
      ensures forall e :: e in visited <==> e in at && 1 <= e < |text| && Compares(patterns, m, text, e)
    {
      visited, at := [], [];
      if |text| - 1 < m {
        return;
      }
      var ptr := m - 1;
      hide RBTree.Valid;
      hide Holds;
      hide Least;
      hide IsShift;
      hide Trace;
      hide Compares;
      assert Trace(patterns, m, text, at, ptr);
      while ptr <= |text| - 1
        invariant m - 1 <= ptr && Valid() && VisitedTo(patterns, m, text, visited, ptr)
        invariant Trace(patterns, m, text, at, ptr)
        invariant forall e :: e in visited <==> e in at && 1 <= e < |text| && Compares(patterns, m, text, e)
      {
        assert allocated(shift.Repr());
        var move := GetShift(SuffixHash(text, ptr));
        VisitedMore(patterns, m, text, visited, ptr, move);
        TraceMore(patterns, m, text, at, ptr, move);
        at := at + [ptr];
        if move == 0 {
          move := 1;
          visited := visited + [ptr];
        }
        ptr := ptr + move;
      }
    }
  }

  /** What is known of the windows visited before the one that ends at ptr. */
  ghost predicate VisitedTo(ps: seq<Text>, m: int, t: Text, visited: seq<int>, ptr: int)
    requires Patterns(ps, m)
  {
    && (forall i, e :: PrefixEnds(ps, m, t, i, e) && e < ptr ==> e in visited)
    && (forall k :: 0 <= k < |visited| ==>
          m - 1 <= visited[k] < |t| && visited[k] < ptr && Aligns(ps, m, SuffixHash(t, visited[k]), 0))
    && (forall j, k :: 0 <= j < k < |visited| ==> visited[j] < visited[k])
  }

  lemma VisitedMore(ps: seq<Text>, m: int, t: Text, visited: seq<int>, ptr: int, move: int)
    requires Patterns(ps, m) && m - 1 <= ptr < |t| && VisitedTo(ps, m, t, visited, ptr)
    requires IsShift(ps, m, SuffixHash(t, ptr), move)
    ensures 0 <= move
    ensures if move == 0 then VisitedTo(ps, m, t, visited + [ptr], ptr + 1)
            else VisitedTo(ps, m, t, visited, ptr + move)
  {
    forall i, e | PrefixEnds(ps, m, t, i, e) && e >= ptr ensures move <= e - ptr {
      ShiftIsSafe(ps, m, t, ptr, move, i, e);
    }
    hide PrefixEnds;
    hide Aligns;
    hide Patterns;
  }

  /** So no prefix is missed in any text whose last byte, the end-of-line marker, no pattern has. */
  lemma ShortTextHasNone(ps: seq<Text>, m: int, text: Text)
    requires Patterns(ps, m) && text != [] && |text| <= m
    requires forall i :: 0 <= i < |ps| ==> text[|text| - 1] !in ps[i]
    ensures forall i, e :: !PrefixEnds(ps, m, text, i, e)
  {
    forall i, e | PrefixEnds(ps, m, text, i, e) ensures false {
      PrefixLast(ps, m, text, i, e);
    }
  }

  lemma PrefixLast(ps: seq<Text>, m: int, t: Text, i: int, e: int)
    requires Patterns(ps, m) && PrefixEnds(ps, m, t, i, e)
    ensures t[e] in ps[i]
  {
    assert t[e] == t[e - m + 1..e + 1][m - 1] == ps[i][..m][m - 1] == ps[i][m - 1];
  }
}
