/** The value a red-black tree stands for: a coloured binary tree whose nodes carry a key and
    the identity of the heap node they describe. A position inside a tree is a pair (context,
    subtree); the insertion of src/rbtree.c is specified on such positions, in which "parent",
    "grandparent" and "uncle" are simply the nearest frames of the context.

    Nothing in this module touches the heap; RedBlackTree.dfy proves the pointer code against it. */
module RedBlackSpec {

  datatype Color = Red | Black

  datatype Tree<N> =
    | Leaf
    | Node(left: Tree<N>, color: Color, key: int, id: N, right: Tree<N>)

  /** What surrounds a subtree, innermost frame first: the subtree hangs to the left (InLeft) or
      to the right (InRight) of the frame's node. */
  datatype Context<N> =
    | Top
    | InLeft(up: Context<N>, color: Color, key: int, id: N, right: Tree<N>)
    | InRight(up: Context<N>, left: Tree<N>, color: Color, key: int, id: N)

  datatype Entry<N> = Entry(key: int, id: N)

  function Plug<N>(c: Context<N>, t: Tree<N>): Tree<N>
    decreases c
  {
    match c
    case Top => t
    case InLeft(up, color, key, id, right) => Plug(up, Node(t, color, key, id, right))
    case InRight(up, left, color, key, id) => Plug(up, Node(left, color, key, id, t))
  }

  predicate IsRed<N>(t: Tree<N>) { t.Node? && t.color.Red? }

  function Blacken<N>(t: Tree<N>): Tree<N> {
    if t.Node? then t.(color := Black) else t
  }

  // ---------------------------------------------------------------- identities

  ghost function Ids<N>(t: Tree<N>): set<N> {
    if t.Leaf? then {} else Ids(t.left) + {t.id} + Ids(t.right)
  }

  ghost function ContextIds<N>(c: Context<N>): set<N> {
    match c
    case Top => {}
    case InLeft(up, _, _, id, right) => ContextIds(up) + {id} + Ids(right)
    case InRight(up, left, _, _, id) => ContextIds(up) + {id} + Ids(left)
  }

  /** No heap node occurs twice. */
  ghost predicate Distinct<N>(t: Tree<N>) {
    t.Node? ==>
      && t.id !in Ids(t.left) && t.id !in Ids(t.right) && Ids(t.left) !! Ids(t.right)
      && Distinct(t.left) && Distinct(t.right)
  }

  ghost predicate ContextDistinct<N>(c: Context<N>) {
    match c
    case Top => true
    case InLeft(up, _, _, id, right) =>
      && id !in ContextIds(up) && id !in Ids(right) && ContextIds(up) !! Ids(right)
      && ContextDistinct(up) && Distinct(right)
    case InRight(up, left, _, _, id) =>
      && id !in ContextIds(up) && id !in Ids(left) && ContextIds(up) !! Ids(left)
      && ContextDistinct(up) && Distinct(left)
  }

  lemma {:induction false} PlugDistinct<N>(c: Context<N>, t: Tree<N>)
    ensures Ids(Plug(c, t)) == ContextIds(c) + Ids(t)
    ensures Distinct(Plug(c, t)) <==> ContextDistinct(c) && Distinct(t) && ContextIds(c) !! Ids(t)
    decreases c
  {
    match c
    case Top =>
    case InLeft(up, color, key, id, right) => PlugDistinct(up, Node(t, color, key, id, right));
    case InRight(up, left, color, key, id) => PlugDistinct(up, Node(left, color, key, id, t));
  }

  // ---------------------------------------------------------------- order

  function InOrder<N>(t: Tree<N>): seq<Entry<N>> {
    if t.Leaf? then [] else InOrder(t.left) + [Entry(t.key, t.id)] + InOrder(t.right)
  }

  /** The entries before and after the hole of a context. */
  function Before<N>(c: Context<N>): seq<Entry<N>> {
    match c
    case Top => []
    case InLeft(up, _, _, _, _) => Before(up)
    case InRight(up, left, _, key, id) => Before(up) + InOrder(left) + [Entry(key, id)]
  }

  function After<N>(c: Context<N>): seq<Entry<N>> {
    match c
    case Top => []
    case InLeft(up, _, key, id, right) => [Entry(key, id)] + InOrder(right) + After(up)
    case InRight(up, _, _, _, _) => After(up)
  }

  lemma {:induction false} PlugInOrder<N>(c: Context<N>, t: Tree<N>)
    ensures InOrder(Plug(c, t)) == Before(c) + InOrder(t) + After(c)
    decreases c
  {
    match c
    case Top =>
    case InLeft(up, color, key, id, right) => PlugInOrder(up, Node(t, color, key, id, right));
    case InRight(up, left, color, key, id) => PlugInOrder(up, Node(left, color, key, id, t));
  }

  ghost predicate Sorted<N>(xs: seq<Entry<N>>) {
    forall i, j :: 0 <= i < j < |xs| ==> xs[i].key <= xs[j].key
  }

  ghost predicate Ordered<N>(t: Tree<N>) { Sorted(InOrder(t)) }

  // ---------------------------------------------------------------- insertion

  /** The empty position below c and t at which a new node with this key is attached. */
  function Descend<N>(c: Context<N>, t: Tree<N>, key: int): Context<N>
    decreases t
  {
    if t.Leaf? then c
    else if t.key < key then Descend(InRight(c, t.left, t.color, t.key, t.id), t.right, key)
    else Descend(InLeft(c, t.color, t.key, t.id, t.right), t.left, key)
  }

  /** The subtree rooted at the innermost frame once t is hung into it. */
  function Hang<N>(c: Context<N>, t: Tree<N>): Tree<N>
    requires !c.Top?
  {
    match c
    case InLeft(_, color, key, id, right) => Node(t, color, key, id, right)
    case InRight(_, left, color, key, id) => Node(left, color, key, id, t)
  }

  predicate RedFrame<N>(c: Context<N>) { !c.Top? && c.color.Red? }

  /** The parent is red and there is a grandparent. */
  predicate Clash<N>(c: Context<N>) { RedFrame(c) && !c.up.Top? }

  function Uncle<N>(c: Context<N>): Tree<N>
    requires Clash(c)
  {
    if c.up.InLeft? then c.up.right else c.up.left
  }

  /** Red uncle: parent and uncle turn black, the grandparent turns red. */
  function Recolour<N>(c: Context<N>, t: Tree<N>): Tree<N>
    requires Clash(c)
  {
    match c.up
    case InLeft(_, _, key, id, uncle) => Node(Blacken(Hang(c, t)), Red, key, id, Blacken(uncle))
    case InRight(_, uncle, _, key, id) => Node(Blacken(uncle), Red, key, id, Blacken(Hang(c, t)))
  }

  /** Black uncle: one or two rotations bring a black node above two red ones. */
  function Rotate<N>(c: Context<N>, t: Tree<N>): Tree<N>
    requires Clash(c) && t.Node?
  {
    match c.up
    case InLeft(_, _, gkey, gid, uncle) => (
      match c
      case InLeft(_, _, key, id, right) =>
        Node(t, Black, key, id, Node(right, Red, gkey, gid, uncle))
      case InRight(_, left, _, key, id) =>
        Node(Node(left, Red, key, id, t.left), Black, t.key, t.id, Node(t.right, Red, gkey, gid, uncle))
    )
    case InRight(_, uncle, _, gkey, gid) => (
      match c
      case InRight(_, left, _, key, id) =>
        Node(Node(uncle, Red, gkey, gid, left), Black, key, id, t)
      case InLeft(_, _, key, id, right) =>
        Node(Node(uncle, Red, gkey, gid, t.left), Black, t.key, t.id, Node(t.right, Red, key, id, right))
    )
  }

  /** Restores the colour rules above the red subtree t. */
  function FixUp<N>(c: Context<N>, t: Tree<N>): Tree<N>
    requires t.Node?
    decreases c
  {
    if c.Top? then Blacken(t)
    else if !Clash(c) then Plug(c, t)
    else if IsRed(Uncle(c)) then FixUp(c.up.up, Recolour(c, t))
    else Plug(c.up.up, Rotate(c, t))
  }

  function Insert<N>(t: Tree<N>, key: int, id: N): Tree<N> {
    if t.Leaf? then Node(Leaf, Black, key, id, Leaf)
    else FixUp(Descend(Top, t, key), Node(Leaf, Red, key, id, Leaf))
  }

  // ---------------------------------------------------------------- colour rules

  /** No red node has a red child. */
  ghost predicate RedRule<N>(t: Tree<N>) {
    t.Node? ==>
      && (t.color.Red? ==> !IsRed(t.left) && !IsRed(t.right))
      && RedRule(t.left) && RedRule(t.right)
  }

  /** Black nodes on the leftmost path. */
  function BlackHeight<N>(t: Tree<N>): nat {
    if t.Leaf? then 0 else BlackHeight(t.left) + if t.color.Black? then 1 else 0
  }

  /** All paths to a leaf carry equally many black nodes. */
  ghost predicate Balanced<N>(t: Tree<N>) {
    t.Node? ==> BlackHeight(t.left) == BlackHeight(t.right) && Balanced(t.left) && Balanced(t.right)
  }

  /** The red-black invariant of a whole tree. */
  ghost predicate RedBlack<N>(t: Tree<N>) { !IsRed(t) && RedRule(t) && Balanced(t) }

  /** The rules for everything outside the hole: a red frame is not the root, and has a black
      parent and a black other child. */
  ghost predicate ContextRedRule<N>(c: Context<N>) {
    match c
    case Top => true
    case InLeft(up, color, _, _, right) =>
      && (color.Red? ==> !up.Top? && !RedFrame(up) && !IsRed(right))
      && RedRule(right) && ContextRedRule(up)
    case InRight(up, left, color, _, _) =>
      && (color.Red? ==> !up.Top? && !RedFrame(up) && !IsRed(left))
      && RedRule(left) && ContextRedRule(up)
  }

  /** A subtree of black height h makes the whole tree balanced. */
  ghost predicate ContextBalanced<N>(c: Context<N>, h: nat) {
    match c
    case Top => true
    case InLeft(up, color, _, _, right) =>
      Balanced(right) && BlackHeight(right) == h && ContextBalanced(up, h + if color.Black? then 1 else 0)
    case InRight(up, left, color, _, _) =>
      Balanced(left) && BlackHeight(left) == h && ContextBalanced(up, h + if color.Black? then 1 else 0)
  }

  /** Filling the hole with a subtree that keeps the rules gives a red-black tree. */
  lemma {:induction false} PlugRedBlack<N>(c: Context<N>, t: Tree<N>)
    requires ContextRedRule(c) && ContextBalanced(c, BlackHeight(t))
    requires RedRule(t) && Balanced(t) && (IsRed(t) ==> !c.Top? && !RedFrame(c))
    ensures RedBlack(Plug(c, t))
    decreases c
  {
    if !c.Top? { PlugRedBlack(c.up, Hang(c, t)); }
  }

  /** The position found by Descend is empty, keeps the rules and rebuilds the tree. */
  lemma {:induction false} DescendRules<N>(c: Context<N>, t: Tree<N>, key: int)
    requires ContextRedRule(c) && ContextBalanced(c, BlackHeight(t))
    requires RedRule(t) && Balanced(t) && (IsRed(t) ==> !c.Top? && !RedFrame(c))
    ensures ContextRedRule(Descend(c, t, key)) && ContextBalanced(Descend(c, t, key), 0)
    decreases t
  {
    if t.Node? {
      if t.key < key {
        DescendRules(InRight(c, t.left, t.color, t.key, t.id), t.right, key);
      } else {
        DescendRules(InLeft(c, t.color, t.key, t.id, t.right), t.left, key);
      }
    }
  }

  lemma {:induction false} DescendPlug<N>(c: Context<N>, t: Tree<N>, key: int)
    ensures Plug(Descend(c, t, key), Leaf) == Plug(c, t)
    ensures t.Node? ==> !Descend(c, t, key).Top?
    ensures !c.Top? ==> !Descend(c, t, key).Top?
    decreases t
  {
    if t.Node? {
      if t.key < key {
        DescendPlug(InRight(c, t.left, t.color, t.key, t.id), t.right, key);
      } else {
        DescendPlug(InLeft(c, t.color, t.key, t.id, t.right), t.left, key);
      }
    }
  }

  /** Both repairs leave the subtree's black height alone and keep its rules. */
  lemma RecolourRules<N>(c: Context<N>, t: Tree<N>)
    requires Clash(c) && IsRed(Uncle(c))
    requires ContextRedRule(c) && ContextBalanced(c, BlackHeight(t))
    requires IsRed(t) && RedRule(t) && Balanced(t)
    ensures var r := Recolour(c, t);
            IsRed(r) && RedRule(r) && Balanced(r) && ContextBalanced(c.up.up, BlackHeight(r))
  {
    var u := Uncle(c);
    assert RedRule(u) && Balanced(u);
    assert RedRule(Blacken(u)) && Balanced(Blacken(u)) && BlackHeight(Blacken(u)) == BlackHeight(u) + 1;
    var p := Blacken(Hang(c, t));
    assert RedRule(p) && Balanced(p) && BlackHeight(p) == BlackHeight(t) + 1;
  }

  lemma RotateRules<N>(c: Context<N>, t: Tree<N>)
    requires Clash(c) && !IsRed(Uncle(c))
    requires ContextRedRule(c) && ContextBalanced(c, BlackHeight(t))
    requires IsRed(t) && RedRule(t) && Balanced(t)
    ensures var r := Rotate(c, t);
            !IsRed(r) && RedRule(r) && Balanced(r) && ContextBalanced(c.up.up, BlackHeight(r))
  {
    var r := Rotate(c, t);
    assert RedRule(Uncle(c)) && Balanced(Uncle(c)) && BlackHeight(Uncle(c)) == BlackHeight(t);
    assert RedRule(r.left) && Balanced(r.left) && BlackHeight(r.left) == BlackHeight(t);
    assert RedRule(r.right) && Balanced(r.right) && BlackHeight(r.right) == BlackHeight(t);
  }

  /** The new node goes to the right of a smaller key and to the left of any other. */
  lemma {:induction false} DescendSide<N>(c: Context<N>, t: Tree<N>, key: int)
    requires !c.Top? ==> (c.InRight? <==> c.key < key)
    ensures var d := Descend(c, t, key); !d.Top? ==> (d.InRight? <==> d.key < key)
    decreases t
  {
    if t.Node? {
      if t.key < key {
        DescendSide(InRight(c, t.left, t.color, t.key, t.id), t.right, key);
      } else {
        DescendSide(InLeft(c, t.color, t.key, t.id, t.right), t.left, key);
      }
    }
  }

  /** Fixing up a red subtree whose own children are black restores every rule. */
  lemma {:induction false} FixUpRedBlack<N>(c: Context<N>, t: Tree<N>)
    requires ContextRedRule(c) && ContextBalanced(c, BlackHeight(t))
    requires IsRed(t) && RedRule(t) && Balanced(t)
    ensures RedBlack(FixUp(c, t))
    decreases c
  {
    if c.Top? {
    } else if !Clash(c) {
      PlugRedBlack(c, t);
    } else if IsRed(Uncle(c)) {
      RecolourRules(c, t);
      FixUpRedBlack(c.up.up, Recolour(c, t));
    } else {
      RotateRules(c, t);
      PlugRedBlack(c.up.up, Rotate(c, t));
    }
  }

  /** Insertion keeps the red-black invariant. */
  lemma InsertRedBlack<N>(t: Tree<N>, key: int, id: N)
    requires RedBlack(t)
    ensures RedBlack(Insert(t, key, id))
  {
    if t.Node? {
      DescendRules(Top, t, key);
      FixUpRedBlack(Descend(Top, t, key), Node(Leaf, Red, key, id, Leaf));
    }
  }

  // ---------------------------------------------------------------- what insertion adds

  lemma RecolourInOrder<N>(c: Context<N>, t: Tree<N>)
    requires Clash(c)
    ensures InOrder(Recolour(c, t)) == InOrder(Hang(c.up, Hang(c, t)))
  {
    assert InOrder(Blacken(Uncle(c))) == InOrder(Uncle(c));
    assert InOrder(Blacken(Hang(c, t))) == InOrder(Hang(c, t));
    hide Blacken;
  }

  lemma RotateInOrder<N>(c: Context<N>, t: Tree<N>)
    requires Clash(c) && t.Node?
    ensures InOrder(Rotate(c, t)) == InOrder(Hang(c.up, Hang(c, t)))
  {
    if c.InLeft? != c.up.InLeft? {
      assert InOrder(t) == InOrder(t.left) + [Entry(t.key, t.id)] + InOrder(t.right);
    }
  }

  /** Recolouring and rotating never changes the in-order listing. */
  lemma {:induction false} FixUpInOrder<N>(c: Context<N>, t: Tree<N>)
    requires t.Node?
    ensures InOrder(FixUp(c, t)) == InOrder(Plug(c, t))
    decreases c
  {
    if Clash(c) {
      var up := c.up.up;
      RecolourInOrder(c, t);
      RotateInOrder(c, t);
      PlugInOrder(up, Hang(c.up, Hang(c, t)));
      if IsRed(Uncle(c)) {
        PlugInOrder(up, Recolour(c, t));
        FixUpInOrder(up, Recolour(c, t));
      } else {
        PlugInOrder(up, Rotate(c, t));
      }
    }
  }

  ghost predicate AllBelow<N>(xs: seq<Entry<N>>, key: int) { forall i :: 0 <= i < |xs| ==> xs[i].key < key }
  ghost predicate AllAtLeast<N>(xs: seq<Entry<N>>, key: int) { forall i :: 0 <= i < |xs| ==> xs[i].key >= key }

  lemma AllBelowJoin<N>(xs: seq<Entry<N>>, ys: seq<Entry<N>>, key: int)
    requires AllBelow(xs, key) && AllBelow(ys, key)
    ensures AllBelow(xs + ys, key)
  {
  }

  lemma AllAtLeastJoin<N>(xs: seq<Entry<N>>, ys: seq<Entry<N>>, key: int)
    requires AllAtLeast(xs, key) && AllAtLeast(ys, key)
    ensures AllAtLeast(xs + ys, key)
  {
  }

  lemma SortedParts<N>(xs: seq<Entry<N>>, e: Entry<N>, ys: seq<Entry<N>>)
    requires Sorted(xs + [e] + ys)
    ensures Sorted(xs) && Sorted(ys) && AllBelow(xs, e.key + 1) && AllAtLeast(ys, e.key)
  {
    var all := xs + [e] + ys;
    assert all[|xs|] == e;
    assert Sorted(xs) && AllBelow(xs, e.key + 1) by {
      assert forall i :: 0 <= i < |xs| ==> all[i] == xs[i];
    }
    assert Sorted(ys) && AllAtLeast(ys, e.key) by {
      assert forall i :: 0 <= i < |ys| ==> all[|xs| + 1 + i] == ys[i];
    }
  }

  /** In an ordered tree the descent separates the smaller keys from the others. */
  lemma {:induction false} DescendSplits<N>(c: Context<N>, t: Tree<N>, key: int)
    requires Ordered(t) && AllBelow(Before(c), key) && AllAtLeast(After(c), key)
    ensures AllBelow(Before(Descend(c, t, key)), key) && AllAtLeast(After(Descend(c, t, key)), key)
    decreases t
  {
    if t.Node? {
      SortedParts(InOrder(t.left), Entry(t.key, t.id), InOrder(t.right));
      if t.key < key {
        var c' := InRight(c, t.left, t.color, t.key, t.id);
        AllBelowJoin(Before(c), InOrder(t.left), key);
        AllBelowJoin(Before(c) + InOrder(t.left), [Entry(t.key, t.id)], key);
        DescendSplits(c', t.right, key);
      } else {
        var c' := InLeft(c, t.color, t.key, t.id, t.right);
        AllAtLeastJoin([Entry(t.key, t.id)], InOrder(t.right), key);
        AllAtLeastJoin([Entry(t.key, t.id)] + InOrder(t.right), After(c), key);
        DescendSplits(c', t.left, key);
      }
    }
  }

  /** The number of entries with a smaller key. */
  function LowerBound<N>(xs: seq<Entry<N>>, key: int): (k: nat)
    ensures k <= |xs|
    ensures forall i :: 0 <= i < k ==> xs[i].key < key
    ensures k < |xs| ==> xs[k].key >= key
  {
    if xs == [] || xs[0].key >= key then 0 else 1 + LowerBound(xs[1..], key)
  }

  /** Insertion puts exactly one entry into the in-order listing, at the lower bound of its key:
      before every equal key. */
  lemma InsertInOrder<N>(t: Tree<N>, key: int, id: N)
    requires Ordered(t)
    ensures var xs := InOrder(t);
            var k := LowerBound(xs, key);
            InOrder(Insert(t, key, id)) == xs[..k] + [Entry(key, id)] + xs[k..]
    ensures Ordered(Insert(t, key, id))
  {
    InsertSorted(InOrder(t), key, id);
    if t.Node? {
      var c := Descend(Top, t, key);
      var leaf := Node(Leaf, Red, key, id, Leaf);
      DescendSplits(Top, t, key);
      DescendPlug(Top, t, key);
      PlugInOrder(c, Leaf);
      PlugInOrder(c, leaf);
      FixUpInOrder(c, leaf);
      assert InOrder(leaf) == [Entry(key, id)];
      SplitAtBound(Before(c), After(c), key);
      assert Before(c) + InOrder<N>(Leaf) + After(c) == Before(c) + After(c);
    }
  }

  lemma SplitAtBound<N>(xs: seq<Entry<N>>, ys: seq<Entry<N>>, key: int)
    requires AllBelow(xs, key) && AllAtLeast(ys, key)
    ensures LowerBound(xs + ys, key) == |xs|
    ensures (xs + ys)[..|xs|] == xs && (xs + ys)[|xs|..] == ys
  {
    var k := LowerBound(xs + ys, key);
    assert forall i :: 0 <= i < |xs| ==> (xs + ys)[i] == xs[i];
    assert ys != [] ==> (xs + ys)[|xs|] == ys[0];
  }

  /** Putting an entry at its lower bound keeps a listing sorted. */
  lemma InsertSorted<N>(xs: seq<Entry<N>>, key: int, id: N)
    requires Sorted(xs)
    ensures var k := LowerBound(xs, key); Sorted(xs[..k] + [Entry(key, id)] + xs[k..])
  {
    var k := LowerBound(xs, key);
    var ys := xs[..k] + [Entry(key, id)] + xs[k..];
    forall i, j | 0 <= i < j < |ys| ensures ys[i].key <= ys[j].key {
      assert ys[i] == if i < k then xs[i] else if i == k then Entry(key, id) else xs[i - 1];
      assert ys[j] == if j < k then xs[j] else if j == k then Entry(key, id) else xs[j - 1];
    }
  }

  /** Insertion adds one identity and repeats none. */
  lemma InsertDistinct<N>(t: Tree<N>, key: int, id: N)
    requires Distinct(t) && id !in Ids(t)
    ensures Distinct(Insert(t, key, id)) && Ids(Insert(t, key, id)) == Ids(t) + {id}
  {
    if t.Node? {
      var c := Descend(Top, t, key);
      var leaf := Node(Leaf, Red, key, id, Leaf);
      DescendPlug(Top, t, key);
      PlugDistinct(c, Leaf);
      PlugDistinct(c, leaf);
      FixUpInOrder(c, leaf);
      SameListing(FixUp(c, leaf), Plug(c, leaf));
    }
  }

  /** Distinctness and the set of identities only depend on the in-order listing. */
  lemma SameListing<N>(t: Tree<N>, u: Tree<N>)
    requires InOrder(t) == InOrder(u)
    ensures Ids(t) == Ids(u) && (Distinct(t) <==> Distinct(u))
  {
    DistinctListing(t);
    DistinctListing(u);
  }

  ghost predicate NoRepeats<N>(xs: seq<Entry<N>>) {
    forall i, j :: 0 <= i < j < |xs| ==> xs[i].id != xs[j].id
  }

  ghost function ListedIds<N>(xs: seq<Entry<N>>): set<N> { set e | e in xs :: e.id }

  lemma ListedIdsJoin<N>(xs: seq<Entry<N>>, ys: seq<Entry<N>>)
    ensures ListedIds(xs + ys) == ListedIds(xs) + ListedIds(ys)
    ensures NoRepeats(xs + ys) <==> NoRepeats(xs) && NoRepeats(ys) && ListedIds(xs) !! ListedIds(ys)
  {
    var all := xs + ys;
    assert forall e :: e in all <==> e in xs || e in ys;
    assert forall i :: 0 <= i < |xs| ==> all[i] == xs[i];
    assert forall i :: 0 <= i < |ys| ==> all[|xs| + i] == ys[i];
    if NoRepeats(all) {
      forall i, j | 0 <= i < |xs| && 0 <= j < |ys| ensures xs[i].id != ys[j].id {
        assert all[i].id != all[|xs| + j].id;
      }
    }
    if NoRepeats(xs) && NoRepeats(ys) && ListedIds(xs) !! ListedIds(ys) {
      forall i, j | 0 <= i < j < |all| ensures all[i].id != all[j].id {
        if i < |xs| <= j {
          assert all[i].id in ListedIds(xs) && all[j].id in ListedIds(ys);
        }
      }
    }
  }

  lemma {:induction false} DistinctListing<N>(t: Tree<N>)
    ensures Ids(t) == ListedIds(InOrder(t))
    ensures Distinct(t) <==> NoRepeats(InOrder(t))
  {
    if t.Node? {
      DistinctListing(t.left);
      DistinctListing(t.right);
      ListedIdsJoin(InOrder(t.left), [Entry(t.key, t.id)]);
      ListedIdsJoin(InOrder(t.left) + [Entry(t.key, t.id)], InOrder(t.right));
      ListedOne(Entry(t.key, t.id));
      hide ListedIds;
      hide NoRepeats;
    } else {
      assert InOrder(t) == [];
    }
  }

  lemma ListedOne<N>(e: Entry<N>)
    ensures ListedIds([e]) == {e.id} && NoRepeats([e])
  {
    assert e in [e];
  }

  ghost function ListedKeys<N>(xs: seq<Entry<N>>): set<int> { set e | e in xs :: e.key }

  ghost function Keys<N>(t: Tree<N>): set<int> { ListedKeys(InOrder(t)) }

  lemma ListedKeysJoin<N>(xs: seq<Entry<N>>, ys: seq<Entry<N>>)
    ensures ListedKeys(xs + ys) == ListedKeys(xs) + ListedKeys(ys)
  {
    assert forall e :: e in xs + ys <==> e in xs || e in ys;
  }

  lemma ListedKeysSplice<N>(xs: seq<Entry<N>>, k: nat, e: Entry<N>)
    requires k <= |xs|
    ensures ListedKeys(xs[..k] + [e] + xs[k..]) == ListedKeys(xs) + {e.key}
  {
    ListedKeysJoin(xs[..k], [e]);
    ListedKeysJoin(xs[..k] + [e], xs[k..]);
    ListedKeysJoin(xs[..k], xs[k..]);
    assert xs == xs[..k] + xs[k..];
    assert ListedKeys([e]) == {e.key} by { assert e in [e]; }
  }

  /** Insertion adds the key to the set of keys. */
  lemma InsertKeys<N>(t: Tree<N>, key: int, id: N)
    requires Ordered(t)
    ensures Keys(Insert(t, key, id)) == Keys(t) + {key}
  {
    InsertInOrder(t, key, id);
    ListedKeysSplice(InOrder(t), LowerBound(InOrder(t), key), Entry(key, id));
  }

  // ---------------------------------------------------------------- independence of identities

  /** Shape, colours and keys, without saying which heap node is where. */
  function Erase<N>(t: Tree<N>): Tree<()> {
    if t.Leaf? then Leaf else Node(Erase(t.left), t.color, t.key, (), Erase(t.right))
  }

  function EraseContext<N>(c: Context<N>): Context<()> {
    match c
    case Top => Top
    case InLeft(up, color, key, _, right) => InLeft(EraseContext(up), color, key, (), Erase(right))
    case InRight(up, left, color, key, _) => InRight(EraseContext(up), Erase(left), color, key, ())
  }

  lemma {:induction false} ErasePlug<N>(c: Context<N>, t: Tree<N>)
    ensures Erase(Plug(c, t)) == Plug(EraseContext(c), Erase(t))
    decreases c
  {
    if !c.Top? { ErasePlug(c.up, Hang(c, t)); }
  }

  lemma {:induction false} EraseDescend<N>(c: Context<N>, t: Tree<N>, key: int)
    ensures EraseContext(Descend(c, t, key)) == Descend(EraseContext(c), Erase(t), key)
    decreases t
  {
    if t.Node? {
      if t.key < key {
        EraseDescend(InRight(c, t.left, t.color, t.key, t.id), t.right, key);
      } else {
        EraseDescend(InLeft(c, t.color, t.key, t.id, t.right), t.left, key);
      }
    }
  }

  lemma {:induction false} EraseFixUp<N>(c: Context<N>, t: Tree<N>)
    requires t.Node?
    ensures Erase(FixUp(c, t)) == FixUp(EraseContext(c), Erase(t))
    decreases c
  {
    ErasePlug(c, t);
    if Clash(c) {
      assert Erase(Recolour(c, t)) == Recolour(EraseContext(c), Erase(t));
      assert Erase(Rotate(c, t)) == Rotate(EraseContext(c), Erase(t));
      if IsRed(Uncle(c)) {
        EraseFixUp(c.up.up, Recolour(c, t));
      } else {
        ErasePlug(c.up.up, Rotate(c, t));
      }
    }
  }

  /** Insertion is blind to identities: which nodes carry the keys does not matter. */
  lemma InsertBlind<N>(t: Tree<N>, key: int, n: N)
    ensures Erase(Insert(t, key, n)) == Insert(Erase(t), key, ())
  {
    if t.Node? {
      EraseDescend(Top, t, key);
      EraseFixUp(Descend(Top, t, key), Node(Leaf, Red, key, n, Leaf));
    }
  }

  /** One call on a tree: an insertion into a given node, or rbtree_clear. */
  datatype Call<N> = Put(key: int, id: N) | Clear

  /** The tree after a sequence of calls. */
  function TreeAfter<N>(calls: seq<Call<N>>): Tree<N> {
    if calls == [] then Leaf
    else
      match calls[|calls| - 1]
      case Put(key, id) => Insert(TreeAfter(calls[..|calls| - 1]), key, id)
      case Clear => Leaf
  }

  /** The keys inserted since the tree was last cleared. */
  function KeysPut<N>(calls: seq<Call<N>>): seq<int> {
    if calls == [] then []
    else
      match calls[|calls| - 1]
      case Put(key, _) => KeysPut(calls[..|calls| - 1]) + [key]
      case Clear => []
  }

  /** The keys inserted into a new tree. */
  function Fresh(keys: seq<int>): Tree<()> {
    if keys == [] then Leaf else Insert(Fresh(keys[..|keys| - 1]), keys[|keys| - 1], ())
  }

  /** Whatever was inserted and cleared before, and whichever nodes are used again: the tree has the
      shape, colours and keys of a new tree with the same insertions. */
  lemma {:induction false} HistoryBlind<N>(calls: seq<Call<N>>)
    ensures Erase(TreeAfter(calls)) == Fresh(KeysPut(calls))
    decreases |calls|
  {
    if calls != [] && calls[|calls| - 1].Put? {
      var front, last := calls[..|calls| - 1], calls[|calls| - 1];
      HistoryBlind(front);
      InsertBlind(TreeAfter(front), last.key, last.id);
      hide Insert;
    }
  }

  // ---------------------------------------------------------------- height

  function Size<N>(t: Tree<N>): nat {
    if t.Leaf? then 0 else Size(t.left) + 1 + Size(t.right)
  }

  function Height<N>(t: Tree<N>): nat {
    if t.Leaf? then 0
    else 1 + if Height(t.left) < Height(t.right) then Height(t.right) else Height(t.left)
  }

  lemma {:induction false} SizeInOrder<N>(t: Tree<N>)
    ensures |InOrder(t)| == Size(t)
  {
    if t.Node? {
      SizeInOrder(t.left);
      SizeInOrder(t.right);
    }
  }

  function Pow2(n: nat): nat { if n == 0 then 1 else 2 * Pow2(n - 1) }

  lemma {:induction false} Pow2Monotone(m: nat, n: nat)
    requires m <= n
    ensures 1 <= Pow2(m) <= Pow2(n)
    decreases n
  {
    if m < n { Pow2Monotone(m, n - 1); } else if 0 < n { Pow2Monotone(n - 1, n - 1); }
  }

  lemma {:induction false} Pow2Sum(m: nat, n: nat)
    ensures Pow2(m + n) == Pow2(m) * Pow2(n)
    decreases m
  {
    if 0 < m { Pow2Sum(m - 1, n); }
  }

  lemma {:induction false} BlackHeightBounds<N>(t: Tree<N>)
    requires RedRule(t) && Balanced(t)
    ensures Pow2(BlackHeight(t)) <= Size(t) + 1
    ensures Height(t) <= 2 * BlackHeight(t) + if IsRed(t) then 1 else 0
  {
    if t.Node? {
      BlackHeightBounds(t.left);
      BlackHeightBounds(t.right);
    }
  }

  /** A red-black tree with n nodes is at most 2*log2(n + 1) high: 2^height <= (n + 1)^2. */
  lemma HeightBound<N>(t: Tree<N>)
    requires RedBlack(t)
    ensures Pow2(Height(t)) <= (Size(t) + 1) * (Size(t) + 1)
  {
    var b := BlackHeight(t);
    BlackHeightBounds(t);
    Pow2Monotone(Height(t), b + b);
    Pow2Sum(b, b);
    Square(Pow2(b), Size(t) + 1);
  }

  lemma Square(a: nat, b: nat)
    requires a <= b
    ensures a * a <= b * b
  {
    assert b * b - a * a == (b - a) * (b + a);
  }

  // ---------------------------------------------------------------- lookup

  /** The key search of a binary tree, as the sequence of turns it takes. */
  function Find<N>(t: Tree<N>, key: int): Tree<N> {
    if t.Leaf? || t.key == key then t
    else if key < t.key then Find(t.left, key)
    else Find(t.right, key)
  }

  /** In an ordered tree the search reaches a node with the key iff there is one. */
  lemma {:induction false} FindFinds<N>(t: Tree<N>, key: int)
    requires Ordered(t)
    ensures Find(t, key).Node? <==> exists e :: e in InOrder(t) && e.key == key
    ensures Find(t, key).Node? ==> Find(t, key).key == key && Entry(key, Find(t, key).id) in InOrder(t)
  {
    if t.Node? {
      var l, e, r := InOrder(t.left), Entry(t.key, t.id), InOrder(t.right);
      SortedParts(l, e, r);
      FindFinds(t.left, key);
      FindFinds(t.right, key);
      assert forall x :: x in InOrder(t) <==> x in l || x == e || x in r;
    }
  }
}
