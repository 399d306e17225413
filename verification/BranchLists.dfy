/** The lists of branches that src/nfa.c moves items between, with the functions of src/slist.c that
    it uses for it: the items that can be reached from the head, the size that is recorded, and the
    tail pointer, which need not point at the last of the items. */
module BranchLists {
  datatype Option<T> = None | Some(value: T)

  /** Where the tail pointer points: at the last item, at one that has been freed, or at one that no
      longer hangs on the list. */
  datatype Tail<T> = Last | Freed | Behind(data: T)

  datatype BranchList<T> = BranchList(items: seq<T>, size: nat, tail: Tail<T>)

  /** The data of the item at the tail. */
  function End<T>(l: BranchList<T>): Option<T> {
    match l.tail
    case Last => if l.items == [] then None else Some(l.items[|l.items| - 1])
    case Freed => None
    case Behind(data) => Some(data)
  }

  /** list_get_at */
  function GetAt<T>(l: BranchList<T>, i: nat): Option<T> {
    if i >= l.size || l.items == [] then None
    else if i == 0 then Some(l.items[0])
    else if i == l.size - 1 then End(l)
    else if i < |l.items| then Some(l.items[i]) else None
  }

  /** What a loop over the first n indices finds. */
  function SeenTo<T>(l: BranchList<T>, n: nat): seq<T> {
    if n == 0 then []
    else SeenTo(l, n - 1) + match GetAt(l, n - 1) case None => [] case Some(x) => [x]
  }

  function Seen<T>(l: BranchList<T>): seq<T> { SeenTo(l, l.size) }

  /** list_transfer: behind a tail that does not hang on the list, the items are lost to it. */
  function Transfer<T>(dst: BranchList<T>, src: BranchList<T>): BranchList<T> {
    if src.items == [] then dst
    else if dst.items == [] then BranchList(src.items, dst.size + src.size, src.tail)
    else if dst.tail.Last? then BranchList(dst.items + src.items, dst.size + src.size, src.tail)
    else
      BranchList(dst.items, dst.size + src.size,
                 match End(src) case None => Freed case Some(x) => Behind(x))
  }

  // ---------------------------------------------------------------- lists of branches

  /** A branch is one fragment, or an alternation with a list of its own. */
  datatype Fork<T> = One(head: T) | Many(list: BranchList<T>)

  function Ones<T>(xs: seq<Fork<T>>): seq<T> {
    if xs == [] then []
    else
      var x := xs[|xs| - 1];
      Ones(xs[..|xs| - 1]) + if x.One? then [x.head] else []
  }

  function Manys<T>(xs: seq<Fork<T>>): seq<BranchList<T>> {
    if xs == [] then []
    else
      var x := xs[|xs| - 1];
      Manys(xs[..|xs| - 1]) + if x.Many? then [x.list] else []
  }

  /** The tail was freed with its item: list_transfer_on_match mends it only for lists of less than two. */
  predicate Stale<T>(xs: seq<Fork<T>>) { xs != [] && xs[|xs| - 1].Many? && |Ones(xs)| >= 2 }

  /** What list_transfer_on_match leaves in the list. */
  function Remaining<T>(xs: seq<Fork<T>>): BranchList<T> {
    BranchList(Ones(xs), |Ones(xs)|, if Stale(xs) then Freed else Last)
  }

  /** list_transfer for each of the lists. */
  function TransferAll<T>(dst: BranchList<T>, ls: seq<BranchList<T>>): BranchList<T> {
    if ls == [] then dst else Transfer(TransferAll(dst, ls[..|ls| - 1]), ls[|ls| - 1])
  }

  /** The list of the new alternation. */
  function Gathered<T>(xs: seq<Fork<T>>): BranchList<T> { TransferAll(Remaining(xs), Manys(xs)) }

  // ---------------------------------------------------------------- what is found in the list

  /** As the lists are between two calls: not empty, and the items counted. */
  predicate Usable<T>(l: BranchList<T>) {
    && l.items != [] && !l.tail.Freed?
    && if l.tail.Last? then l.size == |l.items| else l.size > |l.items|
  }

  /** A list whose tail is its last item. */
  predicate Intact<T>(l: BranchList<T>) { Usable(l) && l.tail.Last? }

  lemma {:induction false} SeenItems<T>(l: BranchList<T>, n: nat)
    requires Usable(l) && n <= |l.items| && n < l.size
    ensures SeenTo(l, n) == l.items[..n]
    decreases n
  {
    if n > 0 {
      SeenItems(l, n - 1);
      assert l.items[..n] == l.items[..n - 1] + [l.items[n - 1]];
    }
  }

  lemma {:induction false} SeenGap<T>(l: BranchList<T>, n: nat)
    requires Usable(l) && |l.items| <= n < l.size
    ensures SeenTo(l, n) == l.items
    decreases n
  {
    if n == |l.items| {
      SeenItems(l, n);
      assert l.items[..n] == l.items;
    } else {
      SeenGap(l, n - 1);
      assert GetAt(l, n - 1) == None;
    }
  }

  /** A loop over all indices finds the items, and the item at a tail that hangs elsewhere. */
  lemma SeenIs<T>(l: BranchList<T>)
    requires Usable(l)
    ensures Seen(l) == l.items + (if l.tail.Last? then [] else [l.tail.data])
  {
    var n := l.size;
    if l.tail.Last? {
      SeenItems(l, n - 1);
      assert GetAt(l, n - 1) == Some(l.items[n - 1]);
      assert l.items == l.items[..n - 1] + [l.items[n - 1]];
    } else {
      SeenGap(l, n - 1);
      assert GetAt(l, n - 1) == End(l) == Some(l.tail.data);
    }
  }

  // ---------------------------------------------------------------- the new list

  /** All heads, in the order in which an intact list would have them. */
  function AllHeads<T>(xs: seq<Fork<T>>): seq<T> { Ones(xs) + Items(Manys(xs)) }

  function Items<T>(ls: seq<BranchList<T>>): seq<T> {
    if ls == [] then [] else Items(ls[..|ls| - 1]) + ls[|ls| - 1].items
  }

  ghost predicate AllUsable<T(!new)>(xs: seq<Fork<T>>) {
    forall i :: 0 <= i < |xs| && xs[i].Many? ==> Usable(xs[i].list)
  }

  ghost predicate AllIntact<T(!new)>(xs: seq<Fork<T>>) {
    forall i :: 0 <= i < |xs| && xs[i].Many? ==> Intact(xs[i].list) && |xs[i].list.items| >= 2
  }

  lemma {:induction false} ForkCount<T>(xs: seq<Fork<T>>)
    ensures |Ones(xs)| + |Manys(xs)| == |xs|
  {
    if xs != [] {
      ForkCount(xs[..|xs| - 1]);
    }
  }

  lemma {:induction false} ManysFrom<T>(xs: seq<Fork<T>>, k: nat) returns (i: nat)
    requires k < |Manys(xs)|
    ensures i < |xs| && xs[i] == Many(Manys(xs)[k])
  {
    var front := xs[..|xs| - 1];
    if k < |Manys(front)| {
      i := ManysFrom(front, k);
    } else {
      i := |xs| - 1;
    }
  }

  lemma ManysUsable<T(!new)>(xs: seq<Fork<T>>)
    requires AllUsable(xs)
    ensures forall k :: 0 <= k < |Manys(xs)| ==> Usable(Manys(xs)[k])
  {
    forall k | 0 <= k < |Manys(xs)| ensures Usable(Manys(xs)[k]) {
      var i := ManysFrom(xs, k);
    }
  }

  /** Between two transfers: empty before the first, a freed tail only before the first. */
  predicate Filling<T>(l: BranchList<T>, n: nat) {
    && (l.items == [] ==> n == 0 && l.size == 0 && l.tail.Last?) && (l.tail.Freed? ==> n == 0)
    && (l.tail.Last? ==> l.size == |l.items|) && (l.tail.Behind? ==> l.size > |l.items|) && l.size >= |l.items|
  }

  lemma {:induction false} TransfersFill<T(!new)>(l: BranchList<T>, ls: seq<BranchList<T>>)
    requires Filling(l, 0) && forall k :: 0 <= k < |ls| ==> Usable(ls[k])
    ensures Filling(TransferAll(l, ls), |ls|)
    decreases |ls|
  {
    if ls != [] {
      TransfersFill(l, ls[..|ls| - 1]);
    }
  }

  /** The new list can be used like the old ones. */
  lemma GatheredUsable<T(!new)>(xs: seq<Fork<T>>)
    requires xs != [] && AllUsable(xs)
    ensures Usable(Gathered(xs))
  {
    ForkCount(xs);
    ManysUsable(xs);
    TransfersFill(Remaining(xs), Manys(xs));
  }

  lemma {:induction false} TransfersIntact<T(!new)>(l: BranchList<T>, ls: seq<BranchList<T>>)
    requires Filling(l, 0) && l.tail.Last? && forall k :: 0 <= k < |ls| ==> Intact(ls[k])
    ensures TransferAll(l, ls) == BranchList(l.items + Items(ls), |l.items| + |Items(ls)|, Last)
    decreases |ls|
  {
    if ls == [] {
      assert l.items + Items(ls) == l.items;
    } else {
      var front, last := ls[..|ls| - 1], ls[|ls| - 1];
      TransfersIntact(l, front);
      var x := l.items + Items(front);
      assert l.items + Items(ls) == x + last.items;
      assert Transfer(BranchList(x, |x|, Last), last) == BranchList(x + last.items, |x + last.items|, Last) by {
        if x == [] { assert x + last.items == last.items; }
      }
    }
  }

  lemma {:induction false} TransfersLost<T(!new)>(l: BranchList<T>, ls: seq<BranchList<T>>)
    requires l.tail.Freed? && |l.items| >= 2 && l.size == |l.items|
    requires forall k :: 0 <= k < |ls| ==> Intact(ls[k]) && |ls[k].items| >= 2
    ensures var r := TransferAll(l, ls);
            && r.items == l.items && r.size == |l.items| + |Items(ls)| && |Items(ls)| >= 2 * |ls|
            && (ls != [] ==> r.tail == Behind(ls[|ls| - 1].items[|ls[|ls| - 1].items| - 1]))
            && (ls == [] ==> r.tail.Freed?)
    decreases |ls|
  {
    if ls != [] {
      TransfersLost(l, ls[..|ls| - 1]);
    }
  }

  /** The loops over the new list find all heads if and only if the tail was not freed; if it was, they
      find the remaining branches and, of the others, the last item only. */
  lemma AllSeenIff<T(!new)>(xs: seq<Fork<T>>)
    requires xs != [] && AllIntact(xs)
    ensures Gathered(xs).size == |AllHeads(xs)|
    ensures Intact(Gathered(xs)) <==> !Stale(xs)
    ensures |Seen(Gathered(xs))| == |AllHeads(xs)| <==> !Stale(xs)
    ensures !Stale(xs) ==> Seen(Gathered(xs)) == AllHeads(xs)
    ensures Stale(xs) ==> var found, last := Seen(Gathered(xs)), xs[|xs| - 1].list.items;
                          found != [] && found[..|found| - 1] == Ones(xs) && found[|found| - 1] == last[|last| - 1]
  {
    var ls := Manys(xs);
    forall k | 0 <= k < |ls| ensures Intact(ls[k]) && |ls[k].items| >= 2 {
      var i := ManysFrom(xs, k);
    }
    GatheredUsable(xs);
    SeenIs(Gathered(xs));
    if Stale(xs) {
      TransfersLost(Remaining(xs), ls);
      assert ls[|ls| - 1] == xs[|xs| - 1].list;
    } else {
      TransfersIntact(Remaining(xs), ls);
    }
  }

  // ---------------------------------------------------------------- what gets into the new list

  /** What the loops find below a branch. */
  function HeadsIn<T>(x: Fork<T>): seq<T> {
    match x
    case One(h) => [h]
    case Many(l) => Seen(l)
  }

  lemma {:induction false} OnesFrom<T>(xs: seq<Fork<T>>, h: T) returns (i: nat)
    requires h in Ones(xs)
    ensures i < |xs| && xs[i] == One(h)
  {
    var front := xs[..|xs| - 1];
    if h in Ones(front) {
      i := OnesFrom(front, h);
    } else {
      i := |xs| - 1;
    }
  }

  lemma {:induction false} TransferFrom<T(!new)>(l: BranchList<T>, ls: seq<BranchList<T>>, h: T) returns (k: int)
    requires Filling(l, 0) && forall k :: 0 <= k < |ls| ==> Usable(ls[k])
    requires var r := TransferAll(l, ls); h in r.items || r.tail == Behind(h)
    ensures -1 <= k < |ls| && if k == -1 then h in l.items || l.tail == Behind(h) else h in Seen(ls[k])
    decreases |ls|
  {
    k := -1;
    if ls != [] {
      var front, last := ls[..|ls| - 1], ls[|ls| - 1];
      TransfersFill(l, front);
      SeenIs(last);
      var r := TransferAll(l, front);
      if h in r.items || r.tail == Behind(h) {
        k := TransferFrom(l, front, h);
      } else {
        k := |ls| - 1;
      }
    }
  }

  /** Every head found in the new list is found below one of the branches. */
  lemma GatheredFrom<T(!new)>(xs: seq<Fork<T>>, h: T) returns (i: nat)
    requires xs != [] && AllUsable(xs) && h in Seen(Gathered(xs))
    ensures i < |xs| && h in HeadsIn(xs[i])
  {
    GatheredUsable(xs);
    SeenIs(Gathered(xs));
    ForkCount(xs);
    ManysUsable(xs);
    var k := TransferFrom(Remaining(xs), Manys(xs), h);
    if k == -1 {
      i := OnesFrom(xs, h);
    } else {
      i := ManysFrom(xs, k);
    }
  }

  lemma {:induction false} InHeads<T(!new)>(xs: seq<Fork<T>>, i: nat, h: T)
    requires AllIntact(xs) && i < |xs| && h in HeadsIn(xs[i])
    ensures if xs[i].One? then h in Ones(xs) else h in Items(Manys(xs))
  {
    var m := |xs| - 1;
    var front := Manys(xs[..m]);
    if xs[m].Many? {
      assert Manys(xs) == front + [xs[m].list] && Manys(xs)[..|front|] == front;
      SeenIs(xs[m].list);
    } else {
      assert Manys(xs) == front + [] == front;
    }
    if i < m {
      InHeads(xs[..m], i, h);
    }
  }

  /** From branches with intact lists, every head is found if the tail was not freed. */
  lemma GatheredAll<T(!new)>(xs: seq<Fork<T>>, i: nat, h: T)
    requires AllIntact(xs) && !Stale(xs) && i < |xs| && h in HeadsIn(xs[i])
    ensures h in Seen(Gathered(xs))
  {
    AllSeenIff(xs);
    InHeads(xs, i, h);
  }

  // ---------------------------------------------------------------- exactly what is found

  /** The lists of the first n branches have their last items for tails. */
  predicate Unbroken<T>(xs: seq<Fork<T>>, n: int)
    requires n <= |xs|
  {
    forall i :: 0 <= i < n && xs[i].Many? ==> xs[i].list.tail.Last?
  }

  /** The last of the branches that have a list. */
  predicate LastMany<T>(xs: seq<Fork<T>>, j: int) {
    0 <= j < |xs| && xs[j].Many? && forall k :: j < k < |xs| ==> xs[k].One?
  }

  /** A head in the list of a branch before which no tail was elsewhere. */
  ghost predicate Listed<T(!new)>(xs: seq<Fork<T>>, h: T) {
    exists j :: 0 <= j < |xs| && xs[j].Many? && Unbroken(xs, j) && h in xs[j].list.items
  }

  /** The items of a list are found if the tail has not been freed and no list before it hangs on by a tail
      that is elsewhere; otherwise only what the last of the lists has at its tail. */
  ghost predicate Found<T(!new)>(xs: seq<Fork<T>>, h: T) {
    || (exists i :: 0 <= i < |xs| && xs[i] == One(h))
    || (!Stale(xs) && Listed(xs, h))
    || (exists j :: LastMany(xs, j) && (Stale(xs) || !Unbroken(xs, j + 1)) && End(xs[j].list) == Some(h))
  }

  predicate AllLast<T>(ls: seq<BranchList<T>>, n: int)
    requires n <= |ls|
  {
    forall i :: 0 <= i < n ==> ls[i].tail.Last?
  }

  ghost predicate InChain<T(!new)>(ls: seq<BranchList<T>>, h: T) {
    exists k :: 0 <= k < |ls| && AllLast(ls, k) && h in ls[k].items
  }

  lemma InChainMore<T(!new)>(ls: seq<BranchList<T>>, l: BranchList<T>, h: T)
    ensures InChain(ls + [l], h) <==> InChain(ls, h) || (AllLast(ls, |ls|) && h in l.items)
    ensures AllLast(ls + [l], |ls| + 1) <==> AllLast(ls, |ls|) && l.tail.Last?
  {
    var more := ls + [l];
    assert forall k :: 0 <= k < |ls| ==> more[k] == ls[k];
    assert more[|ls|] == l;
    forall k | 0 <= k <= |ls| ensures AllLast(more, k) <==> AllLast(ls, k) {}
    if k :| 0 <= k < |ls| && AllLast(ls, k) && h in ls[k].items {
      assert AllLast(more, k) && h in more[k].items;
    }
    if AllLast(ls, |ls|) && h in l.items {
      assert AllLast(more, |ls|) && h in more[|ls|].items;
    }
  }

  /** What is on the chain after all transfers, and where the tail is. */
  ghost predicate Chained<T(!new)>(l: BranchList<T>, ls: seq<BranchList<T>>, r: BranchList<T>, h: T) {
    && (h in r.items <==> h in l.items || (l.tail.Last? && InChain(ls, h)))
    && if ls == [] then r.tail == l.tail
       else if l.tail.Last? && AllLast(ls, |ls|) then r.tail.Last?
       else r.tail.Behind? && End(ls[|ls| - 1]) == Some(r.tail.data)
  }

  lemma {:induction false} TransfersExactly<T(!new)>(l: BranchList<T>, ls: seq<BranchList<T>>, h: T)
    requires Filling(l, 0) && (forall k :: 0 <= k < |ls| ==> Usable(ls[k])) && !l.tail.Behind?
    ensures Chained(l, ls, TransferAll(l, ls), h)
    decreases |ls|
  {
    if ls != [] {
      var front, last := ls[..|ls| - 1], ls[|ls| - 1];
      TransfersExactly(l, front, h);
      TransfersFill(l, front);
      ChainedMore(l, front, last, TransferAll(l, front), h);
      assert ls == front + [last];
      hide Chained;
      hide Transfer;
    }
  }

  lemma ChainedMore<T(!new)>(l: BranchList<T>, ls: seq<BranchList<T>>, last: BranchList<T>, r: BranchList<T>, h: T)
    requires Chained(l, ls, r, h) && Usable(last) && (r.items == [] ==> r.tail.Last?) && !l.tail.Behind?
    ensures Chained(l, ls + [last], Transfer(r, last), h)
  {
    InChainMore(ls, last, h);
    hide InChain;
    assert (ls + [last])[|ls|] == last;
    assert ls == [] ==> AllLast(ls, |ls|);
    hide AllLast;
  }

  lemma ListedMore<T(!new)>(xs: seq<Fork<T>>, x: Fork<T>, h: T)
    ensures Unbroken(xs + [x], |xs| + 1) <==> Unbroken(xs, |xs|) && (x.Many? ==> x.list.tail.Last?)
    ensures Listed(xs + [x], h) <==> Listed(xs, h) || (x.Many? && Unbroken(xs, |xs|) && h in x.list.items)
  {
    var more := xs + [x];
    assert forall j :: 0 <= j < |xs| ==> more[j] == xs[j];
    assert more[|xs|] == x;
    assert forall j :: 0 <= j <= |xs| ==> (Unbroken(more, j) <==> Unbroken(xs, j));
    if j :| 0 <= j < |xs| && xs[j].Many? && Unbroken(xs, j) && h in xs[j].list.items {
      assert more[j].Many? && Unbroken(more, j) && h in more[j].list.items;
    }
    if x.Many? && Unbroken(xs, |xs|) && h in x.list.items {
      assert more[|xs|].Many? && Unbroken(more, |xs|) && h in more[|xs|].list.items;
    }
  }

  lemma {:induction false} ManysExactly<T(!new)>(xs: seq<Fork<T>>, h: T)
    ensures AllLast(Manys(xs), |Manys(xs)|) <==> Unbroken(xs, |xs|)
    ensures InChain(Manys(xs), h) <==> Listed(xs, h)
  {
    if xs != [] {
      var m := |xs| - 1;
      var front := xs[..m];
      ManysExactly(front, h);
      ListedMore(front, xs[m], h);
      assert xs == front + [xs[m]];
      if xs[m].Many? {
        InChainMore(Manys(front), xs[m].list, h);
        assert Manys(xs) == Manys(front) + [xs[m].list];
      } else {
        assert Manys(xs) == Manys(front);
      }
      hide Manys;
      hide InChain;
      hide AllLast;
      hide Listed;
      hide Unbroken;
    }
  }

  lemma {:induction false} ManysLast<T>(xs: seq<Fork<T>>) returns (j: nat)
    requires Manys(xs) != []
    ensures LastMany(xs, j) && xs[j].list == Manys(xs)[|Manys(xs)| - 1]
    ensures Unbroken(xs, j + 1) <==> Unbroken(xs, |xs|)
  {
    var m := |xs| - 1;
    var front := xs[..m];
    if xs[m].Many? {
      assert Manys(xs) == Manys(front) + [xs[m].list];
      j := m;
    } else {
      assert Manys(xs) == Manys(front) + [] == Manys(front);
      j := ManysLast(front);
      assert forall k :: 0 <= k < m ==> xs[k] == front[k];
      assert Unbroken(xs, m) <==> Unbroken(xs, m + 1);
      assert Unbroken(xs, m) <==> Unbroken(front, m);
    }
  }

  lemma {:induction false} SomeMany<T>(xs: seq<Fork<T>>, j: nat)
    requires j < |xs| && xs[j].Many?
    ensures Manys(xs) != []
  {
    if j < |xs| - 1 { SomeMany(xs[..|xs| - 1], j); }
  }

  /** Exactly the heads that are said to be found are found in the new list, whatever the tails below. */
  lemma SeenIff<T(!new)>(xs: seq<Fork<T>>, h: T)
    requires xs != [] && AllUsable(xs)
    ensures h in Seen(Gathered(xs)) <==> Found(xs, h)
  {
    var ls, g := Manys(xs), Gathered(xs);
    GatheredUsable(xs);
    SeenIs(g);
    ForkCount(xs);
    ManysUsable(xs);
    TransfersExactly(Remaining(xs), ls, h);
    ManysExactly(xs, h);
    OnesAre(xs, h);
    if ls != [] {
      var j := ManysLast(xs);
      forall k | LastMany(xs, k) ensures k == j {}
    } else if j: nat :| j < |xs| && xs[j].Many? {
      SomeMany(xs, j);
    }
  }

  lemma {:induction false} OnesAre<T>(xs: seq<Fork<T>>, h: T)
    ensures h in Ones(xs) <==> exists i :: 0 <= i < |xs| && xs[i] == One(h)
  {
    if h in Ones(xs) {
      var i := OnesFrom(xs, h);
    }
    if i: nat :| i < |xs| && xs[i] == One(h) {
      OneListed(xs, i);
    }
  }

  lemma {:induction false} OneListed<T>(xs: seq<Fork<T>>, i: nat)
    requires i < |xs| && xs[i].One?
    ensures xs[i].head in Ones(xs)
  {
    if i < |xs| - 1 { OneListed(xs[..|xs| - 1], i); }
  }

  /** When the tail of the new list is its last item. */
  lemma GatheredTail<T(!new)>(xs: seq<Fork<T>>)
    requires xs != [] && AllUsable(xs)
    ensures Gathered(xs).tail.Last? <==> !Stale(xs) && Unbroken(xs, |xs|)
  {
    var h := Gathered(xs).items;
    ForkCount(xs);
    ManysUsable(xs);
    GatheredUsable(xs);
    TransfersExactly(Remaining(xs), Manys(xs), h[0]);
    ManysExactly(xs, h[0]);
    if Stale(xs) {
      SomeMany(xs, |xs| - 1);
    }
  }

  /** The sizes that are recorded, added up. */
  function Total<T>(xs: seq<Fork<T>>): nat {
    if xs == [] then 0
    else
      match xs[|xs| - 1]
      case One(_) => Total(xs[..|xs| - 1]) + 1
      case Many(l) => Total(xs[..|xs| - 1]) + l.size
  }

  /** The new list counts everything, found or not. */
  lemma GatheredSize<T(!new)>(xs: seq<Fork<T>>)
    requires xs != [] && AllUsable(xs)
    ensures Gathered(xs).size == Total(xs)
  {
    ManysUsable(xs);
    SizesAdded(Remaining(xs), Manys(xs));
    TotalSplit(xs);
  }

  function Sizes<T>(ls: seq<BranchList<T>>): nat {
    if ls == [] then 0 else Sizes(ls[..|ls| - 1]) + ls[|ls| - 1].size
  }

  lemma {:induction false} SizesAdded<T(!new)>(l: BranchList<T>, ls: seq<BranchList<T>>)
    requires forall k :: 0 <= k < |ls| ==> Usable(ls[k])
    ensures TransferAll(l, ls).size == l.size + Sizes(ls)
    decreases |ls|
  {
    if ls != [] {
      SizesAdded(l, ls[..|ls| - 1]);
    }
  }

  lemma {:induction false} TotalSplit<T>(xs: seq<Fork<T>>)
    ensures Total(xs) == |Ones(xs)| + Sizes(Manys(xs))
  {
    if xs != [] {
      var m := |xs| - 1;
      var front := Manys(xs[..m]);
      TotalSplit(xs[..m]);
      if xs[m].Many? {
        assert Manys(xs) == front + [xs[m].list] && Manys(xs)[..|front|] == front;
      } else {
        assert Manys(xs) == front + [] == front;
      }
    }
  }
}
