/** The red-black tree of src/rbtree.c: heap nodes with child and parent pointers, a root, and a
    pool of recycled nodes that is itself a tree, consumed from its leftmost leaf. Ghost fields
    hold the trees of RedBlackSpec that the pointers represent. */
module RedBlackTree {
  import opened RedBlackSpec

  /** A node; `data` stands for the int the C code reaches through its data pointer, 0 for NULL.
      The constructor is calloc. */
  class RBNode {
    var key: int
    var left: RBNode?
    var right: RBNode?
    var parent: RBNode?
    var color: Color
    var data: int

    constructor ()
      ensures left == null && right == null && parent == null && data == 0
    {
      key, left, right, parent, color, data := 0, null, null, null, Red, 0;
    }
  }

  ghost function RootOf(t: Tree<RBNode>): RBNode? { if t.Leaf? then null else t.id }
  ghost function ParentOf(c: Context<RBNode>): RBNode? { if c.Top? then null else c.id }

  /** A subtree and its surroundings. */
  datatype Place = Place(ctx: Context<RBNode>, sub: Tree<RBNode>)

  /** The pointers below p spell out t. */
  ghost predicate Links(t: Tree<RBNode>, p: RBNode?)
    reads Ids(t)
  {
    t.Node? ==>
      && t.id.parent == p && t.id.color == t.color && t.id.key == t.key
      && t.id.left == RootOf(t.left) && t.id.right == RootOf(t.right)
      && Links(t.left, t.id) && Links(t.right, t.id)
  }

  /** The pointers around `hole` spell out c. */
  ghost predicate ContextLinks(c: Context<RBNode>, hole: RBNode?)
    reads ContextIds(c)
  {
    match c
    case Top => true
    case InLeft(up, color, key, id, right) =>
      && id.parent == ParentOf(up) && id.color == color && id.key == key
      && id.left == hole && id.right == RootOf(right)
      && Links(right, id) && ContextLinks(up, id)
    case InRight(up, left, color, key, id) =>
      && id.parent == ParentOf(up) && id.color == color && id.key == key
      && id.left == RootOf(left) && id.right == hole
      && Links(left, id) && ContextLinks(up, id)
  }

  /** A position of a well-linked tree without repeated nodes. */
  ghost predicate At(c: Context<RBNode>, t: Tree<RBNode>)
    reads ContextIds(c), Ids(t)
  {
    && ContextLinks(c, RootOf(t)) && Links(t, ParentOf(c))
    && ContextDistinct(c) && Distinct(t) && ContextIds(c) !! Ids(t)
  }

  /** Being at a position means that the whole tree is well linked. */
  lemma {:induction false} PlugAt(c: Context<RBNode>, t: Tree<RBNode>)
    ensures At(c, t) <==> At(Top, Plug(c, t))
    ensures Ids(Plug(c, t)) == ContextIds(c) + Ids(t)
    decreases c
  {
    PlugDistinct(c, t);
    if !c.Top? { PlugAt(c.up, Hang(c, t)); }
  }

  ghost function TopOf(c: Context<RBNode>, t: Tree<RBNode>): RBNode?
    ensures TopOf(c, t) == RootOf(Plug(c, t))
    decreases c
  {
    if c.Top? then RootOf(t) else TopOf(c.up, Hang(c, t))
  }

  /** Off the top, the root does not depend on what fills the hole. */
  lemma {:induction false} SameTop(c: Context<RBNode>, t: Tree<RBNode>, u: Tree<RBNode>)
    requires !c.Top? || RootOf(t) == RootOf(u)
    ensures RootOf(Plug(c, t)) == RootOf(Plug(c, u))
    decreases c
  {
    if !c.Top? { SameTop(c.up, Hang(c, t), Hang(c, u)); }
  }

  function RotatedLeft<N>(t: Tree<N>): Tree<N>
    requires t.Node? && t.right.Node?
  {
    t.right.(left := t.(right := t.right.left))
  }

  function RotatedRight<N>(t: Tree<N>): Tree<N>
    requires t.Node? && t.left.Node?
  {
    t.left.(right := t.(left := t.left.right))
  }

  twostate predicate SameChildren(ns: set<RBNode>)
    reads ns
  {
    forall n :: n in ns ==> n.left == old(n.left) && n.right == old(n.right)
  }

  twostate predicate SameRest(ns: set<RBNode>)
    reads ns
  {
    forall n :: n in ns ==> n.color == old(n.color) && n.key == old(n.key)
  }

  twostate predicate SameData(ns: set<RBNode>)
    reads ns
  {
    forall n :: n in ns ==> n.data == old(n.data) && n.key == old(n.key)
  }

  twostate predicate SameParent(ns: set<RBNode>)
    reads ns
  {
    forall n :: n in ns ==> n.parent == old(n.parent)
  }

  /** A subtree none of whose nodes changed, except for the parent link of its root. */
  twostate lemma Moved(t: Tree<RBNode>)
    requires t.Node? ==> old(Links(t, t.id.parent)) && Distinct(t)
    requires SameChildren(Ids(t)) && SameRest(Ids(t)) && SameParent(Ids(t) - {RootOf(t)})
    ensures t.Node? ==> Links(t, t.id.parent)
  {
    if t.Node? {
      Moved(t.left);
      Moved(t.right);
    }
  }

  /** A context none of whose nodes changed, except for the link into the hole. */
  twostate lemma Refilled(c: Context<RBNode>)
    requires c.InLeft? ==> old(ContextLinks(c, c.id.left)) && c.id.right == old(c.id.right)
    requires c.InRight? ==> old(ContextLinks(c, c.id.right)) && c.id.left == old(c.id.left)
    requires ContextDistinct(c)
    requires SameParent(ContextIds(c)) && SameRest(ContextIds(c)) && SameChildren(ContextIds(c) - {ParentOf(c)})
    ensures c.InLeft? ==> ContextLinks(c, c.id.left)
    ensures c.InRight? ==> ContextLinks(c, c.id.right)
  {
    if !c.Top? {
      Refilled(c.up);
      Moved(if c.InLeft? then c.right else c.left);
    }
  }

  ghost function Some(n: RBNode?): set<RBNode> { if n == null then {} else {n} }

  /** What a left rotation does to the node t, its right child tmp, the inner grandchild b and
      the parent p. */
  twostate predicate TurnedLeft(t: RBNode, tmp: RBNode, b: RBNode?, p: RBNode?)
    reads {t, tmp} + Some(b) + Some(p)
  {
    && t.right == b && t.parent == tmp && t.left == old(t.left)
    && tmp.left == t && tmp.parent == p && tmp.right == old(tmp.right)
    && (b == null || (b.parent == t && b.left == old(b.left) && b.right == old(b.right)))
    && (p == null || (p.parent == old(p.parent)
                      && if old(p.left) == t then p.left == tmp && p.right == old(p.right)
                         else p.left == old(p.left) && p.right == tmp))
  }

  twostate predicate TurnedRight(t: RBNode, tmp: RBNode, b: RBNode?, p: RBNode?)
    reads {t, tmp} + Some(b) + Some(p)
  {
    && t.left == b && t.parent == tmp && t.right == old(t.right)
    && tmp.right == t && tmp.parent == p && tmp.left == old(tmp.left)
    && (b == null || (b.parent == t && b.left == old(b.left) && b.right == old(b.right)))
    && (p == null || (p.parent == old(p.parent)
                      && if old(p.right) == t then p.right == tmp && p.left == old(p.left)
                         else p.right == old(p.right) && p.left == tmp))
  }

  lemma RightParts<N>(s: Tree<N>)
    requires s.Node? && s.right.Node? && Distinct(s)
    ensures var a, b, d := s.left, s.right.left, s.right.right;
      && Distinct(a) && Distinct(b) && Distinct(d) && s.id != s.right.id
      && Ids(a) !! Ids(b) && Ids(b) !! Ids(d) && Ids(a) !! Ids(d)
      && s.id !in Ids(a) && s.id !in Ids(b) && s.id !in Ids(d)
      && s.right.id !in Ids(a) && s.right.id !in Ids(b) && s.right.id !in Ids(d)
      && Ids(s) == {s.id, s.right.id} + Ids(a) + Ids(b) + Ids(d)
      && (b.Node? ==> b.id in Ids(b))
  {
    assert Distinct(s.right) && Ids(s.right) == {s.right.id} + Ids(s.right.left) + Ids(s.right.right);
  }

  lemma LeftParts<N>(s: Tree<N>)
    requires s.Node? && s.left.Node? && Distinct(s)
    ensures var a, b, d := s.right, s.left.right, s.left.left;
      && Distinct(a) && Distinct(b) && Distinct(d) && s.id != s.left.id
      && Ids(a) !! Ids(b) && Ids(b) !! Ids(d) && Ids(a) !! Ids(d)
      && s.id !in Ids(a) && s.id !in Ids(b) && s.id !in Ids(d)
      && s.left.id !in Ids(a) && s.left.id !in Ids(b) && s.left.id !in Ids(d)
      && Ids(s) == {s.id, s.left.id} + Ids(a) + Ids(b) + Ids(d)
      && (b.Node? ==> b.id in Ids(b))
  {
    assert Distinct(s.left) && Ids(s.left) == {s.left.id} + Ids(s.left.right) + Ids(s.left.left);
  }

  /** A left rotation at the root of a subtree rotates the subtree and nothing else. */
  twostate lemma LeftRotated(p: Place)
    requires old(At(p.ctx, p.sub)) && p.sub.Node? && p.sub.right.Node?
    requires TurnedLeft(p.sub.id, p.sub.right.id, RootOf(p.sub.right.left), ParentOf(p.ctx))
    requires SameRest(ContextIds(p.ctx)) && SameRest(Ids(p.sub)) && SameParent(ContextIds(p.ctx))
    requires SameChildren(ContextIds(p.ctx) - {ParentOf(p.ctx)})
    requires SameChildren(Ids(p.sub) - {p.sub.id, p.sub.right.id})
    requires SameParent(Ids(p.sub) - {p.sub.id, p.sub.right.id, RootOf(p.sub.right.left)})
    ensures At(p.ctx, RotatedLeft(p.sub))
  {
    var c, s := p.ctx, p.sub;
    var a, b, d := s.left, s.right.left, s.right.right;
    assert old(Links(a, s.id)) && old(Links(s.right, s.id)) && old(Links(b, s.right.id)) && old(Links(d, s.right.id));
    RightParts(s);
    Moved(a);
    Moved(b);
    Moved(d);
    Refilled(c);
  }

  /** A right rotation at the root of a subtree rotates the subtree and nothing else. */
  twostate lemma RightRotated(p: Place)
    requires old(At(p.ctx, p.sub)) && p.sub.Node? && p.sub.left.Node?
    requires TurnedRight(p.sub.id, p.sub.left.id, RootOf(p.sub.left.right), ParentOf(p.ctx))
    requires SameRest(ContextIds(p.ctx)) && SameRest(Ids(p.sub)) && SameParent(ContextIds(p.ctx))
    requires SameChildren(ContextIds(p.ctx) - {ParentOf(p.ctx)})
    requires SameChildren(Ids(p.sub) - {p.sub.id, p.sub.left.id})
    requires SameParent(Ids(p.sub) - {p.sub.id, p.sub.left.id, RootOf(p.sub.left.right)})
    ensures At(p.ctx, RotatedRight(p.sub))
  {
    var c, s := p.ctx, p.sub;
    var a, b, d := s.right, s.left.right, s.left.left;
    assert old(Links(a, s.id)) && old(Links(s.left, s.id)) && old(Links(b, s.left.id)) && old(Links(d, s.left.id));
    LeftParts(s);
    Moved(a);
    Moved(b);
    Moved(d);
    Refilled(c);
  }

  /** Which side a subtree hangs on can be read off the pointers. */
  lemma Sides(c: Context<RBNode>, s: Tree<RBNode>)
    requires At(c, s) && !c.Top? && s.Node?
    ensures c.InLeft? <==> c.id.left == s.id
    ensures c.InRight? <==> c.id.right == s.id
    ensures var other := if c.InLeft? then c.right else c.left;
            other.Node? ==> other.id in ContextIds(c) && other.id != c.id
  {
    var other := if c.InLeft? then c.right else c.left;
    assert other.Node? ==> other.id in Ids(other);
  }

  lemma LeftReady(c: Context<RBNode>, s: Tree<RBNode>)
    requires At(c, s) && s.Node? && s.right.Node?
    ensures var t, tmp, b, p := s.id, s.right.id, RootOf(s.right.left), ParentOf(c);
      && t.right == tmp && tmp.left == b && t.parent == p
      && t != tmp && (b == null || (b != t && b != tmp)) && (p == null || (p != t && p != tmp && p != b))
      && {t, tmp} + Some(b) <= Ids(s) && Some(p) <= ContextIds(c)
    ensures allocated(Ids(s)) && allocated(ContextIds(c))
  {
    RightParts(s);
    assert Links(s.right, s.id) && (!c.Top? ==> c.id !in Ids(s));
  }

  lemma RightReady(c: Context<RBNode>, s: Tree<RBNode>)
    requires At(c, s) && s.Node? && s.left.Node?
    ensures var t, tmp, b, p := s.id, s.left.id, RootOf(s.left.right), ParentOf(c);
      && t.left == tmp && tmp.right == b && t.parent == p
      && t != tmp && (b == null || (b != t && b != tmp)) && (p == null || (p != t && p != tmp && p != b))
      && {t, tmp} + Some(b) <= Ids(s) && Some(p) <= ContextIds(c)
    ensures allocated(Ids(s)) && allocated(ContextIds(c))
  {
    LeftParts(s);
    assert Links(s.left, s.id) && (!c.Top? ==> c.id !in Ids(s));
  }

  /** The same position, one frame further out. */
  lemma Outward(c: Context<RBNode>, t: Tree<RBNode>)
    requires !c.Top?
    ensures At(c, t) <==> At(c.up, Hang(c, t))
    ensures Plug(c, t) == Plug(c.up, Hang(c, t))
  {
  }

  /** Colouring the root of a subtree. */
  twostate lemma Painted(p: Place)
    requires old(At(p.ctx, p.sub)) && p.sub.Node?
    requires SameChildren(ContextIds(p.ctx)) && SameParent(ContextIds(p.ctx)) && SameRest(ContextIds(p.ctx))
    requires SameChildren(Ids(p.sub)) && SameParent(Ids(p.sub)) && SameRest(Ids(p.sub) - {p.sub.id})
    requires p.sub.id.key == old(p.sub.id.key)
    ensures At(p.ctx, p.sub.(color := p.sub.id.color))
  {
    var c, s := p.ctx, p.sub;
    assert old(Links(s.left, s.id)) && old(Links(s.right, s.id));
    Moved(s.left);
    Moved(s.right);
    Refilled(c);
  }

  lemma RecolourStep(c: Context<RBNode>, s: Tree<RBNode>)
    requires Clash(c) && IsRed(Uncle(c)) && s.Node?
    ensures RootOf(Plug(c.up.up, Recolour(c, s))) == RootOf(Plug(c, s))
    ensures ContextIds(c.up.up) + Ids(Recolour(c, s)) == ContextIds(c) + Ids(s)
    ensures FixUp(c.up.up, Recolour(c, s)) == FixUp(c, s)
  {
    SameTop(c.up.up, Recolour(c, s), Hang(c.up, Hang(c, s)));
    assert Ids(Blacken(Uncle(c))) == Ids(Uncle(c)) && Ids(Blacken(Hang(c, s))) == Ids(Hang(c, s));
  }

  /** Where the subtree at a left-left clash ends up once its grandparent is rotated down. */
  function RaisedLeft<N>(c: Context<N>): Context<N>
    requires Clash(c) && c.InLeft? && c.up.InLeft?
  {
    InLeft(c.up.up, Black, c.key, c.id, Node(c.right, Red, c.up.key, c.up.id, c.up.right))
  }

  lemma RaisedLeftStep<N>(c: Context<N>, s: Tree<N>)
    requires Clash(c) && c.InLeft? && c.up.InLeft? && !IsRed(Uncle(c)) && s.Node?
    ensures ContextIds(RaisedLeft(c)) + Ids(s) == ContextIds(c) + Ids(s)
    ensures FixUp(RaisedLeft(c), s) == FixUp(c, s)
  {
  }

  /** An inner grandchild s, after the rotation that makes it an outer one. */
  lemma InnerLeftStep<N>(c: Context<N>, s: Tree<N>)
    requires Clash(c) && c.InRight? && c.up.InLeft? && !IsRed(Uncle(c)) && IsRed(s)
    ensures var c', s' := InLeft(c.up, s.color, s.key, s.id, s.right), Node(c.left, c.color, c.key, c.id, s.left);
      && ContextIds(c') + Ids(s') == ContextIds(c) + Ids(s)
      && Hang(c', s') == RotatedLeft(Hang(c, s))
      && FixUp(c', s') == FixUp(c, s)
  {
  }

  /** Where the subtree at a right-right clash ends up once its grandparent is rotated down. */
  function RaisedRight<N>(c: Context<N>): Context<N>
    requires Clash(c) && c.InRight? && c.up.InRight?
  {
    InRight(c.up.up, Node(c.up.left, Red, c.up.key, c.up.id, c.left), Black, c.key, c.id)
  }

  lemma RaisedRightStep<N>(c: Context<N>, s: Tree<N>)
    requires Clash(c) && c.InRight? && c.up.InRight? && !IsRed(Uncle(c)) && s.Node?
    ensures ContextIds(RaisedRight(c)) + Ids(s) == ContextIds(c) + Ids(s)
    ensures FixUp(RaisedRight(c), s) == FixUp(c, s)
  {
  }

  /** An inner grandchild s, after the rotation that makes it an outer one. */
  lemma InnerRightStep<N>(c: Context<N>, s: Tree<N>)
    requires Clash(c) && c.InLeft? && c.up.InRight? && !IsRed(Uncle(c)) && IsRed(s)
    ensures var c', s' := InRight(c.up, s.left, s.color, s.key, s.id), Node(s.right, c.color, c.key, c.id, c.right);
      && ContextIds(c') + Ids(s') == ContextIds(c) + Ids(s)
      && Hang(c', s') == RotatedRight(Hang(c, s))
      && FixUp(c', s') == FixUp(c, s)
  {
  }

  /** One step down a tree. */
  lemma Downward(c: Context<RBNode>, s: Tree<RBNode>)
    requires At(c, s) && s.Node?
    ensures var l := InLeft(c, s.color, s.key, s.id, s.right); At(l, s.left) && Plug(l, s.left) == Plug(c, s)
    ensures var r := InRight(c, s.left, s.color, s.key, s.id); At(r, s.right) && Plug(r, s.right) == Plug(c, s)
  {
    Outward(InLeft(c, s.color, s.key, s.id, s.right), s.left);
    Outward(InRight(c, s.left, s.color, s.key, s.id), s.right);
  }

  /** On the way down to the next node to recycle, what lies to the left has been used up. */
  ghost predicate Spent(c: Context<RBNode>) {
    match c
    case Top => true
    case InLeft(up, _, _, _, _) => Spent(up)
    case InRight(up, left, _, _, _) => left.Leaf? && Spent(up)
  }

  /** Where the next node to recycle can stand: it has no left child, and a right one only if it is a left
      child itself. */
  ghost predicate NextUp(c: Context<RBNode>, s: Tree<RBNode>) {
    Spent(c) && (s.Node? ==> s.left.Leaf? && (s.right.Node? ==> c.InLeft?))
  }

  /** The next node to recycle at or below ptr: right as long as there is no left child, then left
      all the way. The C function updates its pointer argument in place. */
  method ResetPoolPtr(ptr0: RBNode?, ghost c0: Context<RBNode>, ghost s0: Tree<RBNode>)
    returns (ptr: RBNode?, ghost c: Context<RBNode>, ghost s: Tree<RBNode>)
    requires At(c0, s0) && ptr0 == RootOf(s0) && Spent(c0)
    ensures At(c, s) && ptr == RootOf(s) && Plug(c, s) == Plug(c0, s0)
    ensures NextUp(c, s) && (s0.Node? ==> s.Node?)
    ensures s0.Leaf? ==> c == c0 && s == s0
    ensures ContextIds(c) + Ids(s) == ContextIds(c0) + Ids(s0)
  {
    ptr, c, s := ptr0, c0, s0;
    while ptr != null && ptr.left == null
      invariant At(c, s) && ptr == RootOf(s) && Plug(c, s) == Plug(c0, s0)
      invariant if s0.Leaf? then c == c0 && s == s0 else s.Node?
      invariant Spent(c)
      decreases s
    {
      if ptr.right == null {
        break;
      }
      Downward(c, s);
      ptr := ptr.right;
      c, s := InRight(c, s.left, s.color, s.key, s.id), s.right;
    }
    while ptr != null && ptr.left != null
      invariant At(c, s) && ptr == RootOf(s) && Plug(c, s) == Plug(c0, s0)
      invariant if s0.Leaf? then c == c0 && s == s0 else s.Node?
      invariant Spent(c) && (s.Node? && s.right.Node? ==> c.InLeft? || s.left.Node?)
      decreases s
    {
      Downward(c, s);
      ptr := ptr.left;
      c, s := InLeft(c, s.color, s.key, s.id, s.right), s.left;
    }
    PlugAt(c, s);
    PlugAt(c0, s0);
  }

  /** Makes a subtree a tree of its own. */
  method SetRoot(n: RBNode, ghost s: Tree<RBNode>)
    requires s.Node? && n == s.id && Links(s, n.parent) && Distinct(s)
    modifies n`parent
    ensures At(Top, s)
  {
    label L:
    n.parent := null;
    Moved@L(s);
  }

  /** Cuts the subtree at ptr off its parent and finds the next node to recycle. */
  method Unhook(ptr0: RBNode, ghost c0: Context<RBNode>, ghost s0: Tree<RBNode>)
    returns (ptr: RBNode?, ghost c: Context<RBNode>, ghost s: Tree<RBNode>)
    requires At(c0, s0) && s0.Node? && ptr0 == s0.id && !c0.Top? && NextUp(c0, s0)
    modifies c0.id`left, c0.id`right
    ensures At(c, s) && s.Node? && ptr == s.id && NextUp(c, s)
    ensures ContextIds(c) + Ids(s) == ContextIds(c0) && RootOf(Plug(c, s)) == RootOf(Plug(c0, s0))
  {
    ptr, c, s := ptr0, c0, s0;
    Sides(c, s);
    SameTop(c.up, Hang(c, s), Hang(c, Leaf));
    if ptr == ptr.parent.left {
      label L:
      ptr.parent.left := null;
      Refilled@L(c);
      Outward(c, Leaf);
      ptr := ptr.parent;
      c, s := c.up, Hang(c, Leaf);
      if ptr.right != null {
        Downward(c, s);
        ptr := ptr.right;
        c, s := InRight(c, s.left, s.color, s.key, s.id), s.right;
        ptr, c, s := ResetPoolPtr(ptr, c, s);
      }
    } else {
      label L:
      ptr.parent.right := null;
      Refilled@L(c);
      Outward(c, Leaf);
      ptr := ptr.parent;
      c, s := c.up, Hang(c, Leaf);
    }
  }

  /** Everything insertion preserves, in one place. */
  lemma InsertFacts(t: Tree<RBNode>, key: int, n: RBNode)
    requires RedBlack(t) && Ordered(t) && Distinct(t) && n !in Ids(t)
    ensures var t' := Insert(t, key, n);
      RedBlack(t') && Ordered(t') && Distinct(t') && Ids(t') == Ids(t) + {n} && Size(t') == Size(t) + 1
    ensures t.Node? ==> ContextRedRule(Descend(Top, t, key)) && ContextIds(Descend(Top, t, key)) == Ids(t)
    ensures t.Node? ==> var c := Descend(Top, t, key); !c.Top? && Plug(c, Leaf) == t && (c.InRight? <==> c.key < key)
  {
    InsertRedBlack(t, key, n);
    InsertInOrder(t, key, n);
    InsertDistinct(t, key, n);
    SizeInOrder(t);
    SizeInOrder(Insert(t, key, n));
    DescendPlug(Top, t, key);
    DescendRules(Top, t, key);
    PlugDistinct(Descend(Top, t, key), Leaf);
    DescendSide(Top, t, key);
  }

  /** rbtree_min: the first node of a subtree. */
  method Min(t0: RBNode?, ghost c0: Context<RBNode>, ghost s0: Tree<RBNode>)
    returns (t: RBNode?, ghost c: Context<RBNode>, ghost s: Tree<RBNode>)
    requires At(c0, s0) && t0 == RootOf(s0)
    ensures At(c, s) && t == RootOf(s) && Plug(c, s) == Plug(c0, s0)
    ensures ContextIds(c) + Ids(s) == ContextIds(c0) + Ids(s0)
    ensures s0.Leaf? ==> t == null
    ensures Spent(c0) ==> Spent(c)
    ensures s0.Node? ==> s.Node? && s.left.Leaf? && Before(c) == Before(c0) && InOrder(s0)[0].id == t
  {
    t, c, s := t0, c0, s0;
    while t != null && t.left != null
      invariant At(c, s) && t == RootOf(s) && Plug(c, s) == Plug(c0, s0)
      invariant Before(c) == Before(c0) && (s0.Node? <==> s.Node?) && (Spent(c0) ==> Spent(c))
      decreases s
    {
      Downward(c, s);
      t := t.left;
      c, s := InLeft(c, s.color, s.key, s.id, s.right), s.left;
    }
    PlugAt(c, s);
    PlugAt(c0, s0);
    if s.Node? {
      PlugInOrder(c, s);
      PlugInOrder(c0, s0);
      var b := |Before(c)|;
      assert (Before(c) + InOrder(s) + After(c))[b] == InOrder(s)[0];
      assert (Before(c0) + InOrder(s0) + After(c0))[b] == InOrder(s0)[0];
    }
  }

  /** rbtree_max: the last node of a subtree. */
  method Max(t0: RBNode?, ghost c0: Context<RBNode>, ghost s0: Tree<RBNode>) returns (t: RBNode?)
    requires At(c0, s0) && t0 == RootOf(s0)
    ensures s0.Leaf? ==> t == null
    ensures s0.Node? ==> t != null && InOrder(s0)[|InOrder(s0)| - 1].id == t
  {
    t := t0;
    ghost var c, s := c0, s0;
    while t != null && t.right != null
      invariant At(c, s) && t == RootOf(s) && (s0.Node? <==> s.Node?)
      invariant s.Node? ==> InOrder(s) != [] && InOrder(s0)[|InOrder(s0)| - 1] == InOrder(s)[|InOrder(s)| - 1]
      decreases s
    {
      Downward(c, s);
      t := t.right;
      c, s := InRight(c, s.left, s.color, s.key, s.id), s.right;
    }
  }

  /** The position of the i-th entry of the in-order listing. */
  lemma {:induction false} Focus(c0: Context<RBNode>, s0: Tree<RBNode>, i: nat)
    returns (c: Context<RBNode>, s: Tree<RBNode>)
    requires At(c0, s0) && i < |InOrder(s0)|
    ensures At(c, s) && Plug(c, s) == Plug(c0, s0) && s.Node? && InOrder(s0)[i] == Entry(s.key, s.id)
    ensures |Before(c)| + |InOrder(s.left)| == |Before(c0)| + i
    decreases s0
  {
    var l := |InOrder(s0.left)|;
    Downward(c0, s0);
    if i < l {
      c, s := Focus(InLeft(c0, s0.color, s0.key, s0.id, s0.right), s0.left, i);
    } else if i == l {
      c, s := c0, s0;
    } else {
      c, s := Focus(InRight(c0, s0.left, s0.color, s0.key, s0.id), s0.right, i - l - 1);
    }
  }

  /** The nodes of a tree, listed in order, are all of them and each once. */
  lemma ListedNodes(t: Tree<RBNode>, ns: seq<RBNode>)
    requires Distinct(t) && |ns| == |InOrder(t)|
    requires forall k :: 0 <= k < |ns| ==> ns[k] == InOrder(t)[k].id
    ensures |ns| == Size(t)
    ensures forall n :: n in Ids(t) <==> n in ns
    ensures forall j, k :: 0 <= j < k < |ns| ==> ns[j] != ns[k]
  {
    SizeInOrder(t);
    DistinctListing(t);
    forall n | n in Ids(t) ensures n in ns {
      var k :| 0 <= k < |InOrder(t)| && InOrder(t)[k].id == n;
      assert ns[k] == n;
    }
  }

  /** The keys of the listing are the keys in the nodes. */
  lemma {:induction false} LinkedKeys(t: Tree<RBNode>, p: RBNode?)
    requires Links(t, p)
    ensures forall n :: n in Ids(t) ==> n.key in Keys(t)
  {
    if t.Node? {
      LinkedKeys(t.left, t.id);
      LinkedKeys(t.right, t.id);
      assert forall e :: e in InOrder(t) <==> e in InOrder(t.left) || e == Entry(t.key, t.id) || e in InOrder(t.right);
      assert Entry(t.key, t.id) in InOrder(t);
    }
  }

  /** ... and each entry of the listing names a node with its key. */
  lemma {:induction false} LinkedEntries(t: Tree<RBNode>, p: RBNode?)
    requires Links(t, p)
    ensures forall k :: 0 <= k < |InOrder(t)| ==> InOrder(t)[k].id.key == InOrder(t)[k].key
  {
    if t.Node? {
      LinkedEntries(t.left, t.id);
      LinkedEntries(t.right, t.id);
      assert InOrder(t) == InOrder(t.left) + [Entry(t.key, t.id)] + InOrder(t.right);
    }
  }

  class RBTree {
    var count: int
    var root: RBNode?
    var poolRoot: RBNode?
    var poolPtr: RBNode?
    ghost var tree: Tree<RBNode>        // below root
    ghost var poolCtx: Context<RBNode>  // the recycled nodes, seen from poolPtr
    ghost var poolSub: Tree<RBNode>
    ghost var calls: seq<Call<RBNode>>  // all insertions and clears so far

    ghost function Pool(): set<RBNode>
      reads this
    {
      ContextIds(poolCtx) + Ids(poolSub)
    }

    /** What leaves the pool together with the next node: if that is a left child, its right subtree. */
    ghost function Dropped(): set<RBNode>
      reads this
    {
      if poolCtx.InLeft? && poolSub.Node? then Ids(poolSub.right) else {}
    }

    /** These are the nodes on the right of the next node, and there are some exactly when it is a left child
        with a right one. */
    lemma DroppedIff()
      requires PoolValid()
      ensures poolSub.Node? ==> Dropped() == Ids(poolSub.right)
      ensures Dropped() != {} <==>
                && poolPtr != null && poolPtr.right != null
                && poolPtr.parent != null && poolPtr.parent.left == poolPtr
    {
    }

    /** All nodes the tree owns, live or recycled. */
    ghost function Repr(): set<RBNode>
      reads this
    {
      Ids(tree) + Pool()
    }

    ghost predicate LiveValid()
      reads this, Ids(tree)
    {
      && At(Top, tree) && root == RootOf(tree)
      && RedBlack(tree) && Ordered(tree) && count == Size(tree)
    }

    /** The live tree while an insertion has counted its node but not attached it. */
    ghost predicate LiveValid'()
      reads this, Ids(tree)
    {
      && At(Top, tree) && root == RootOf(tree)
      && RedBlack(tree) && Ordered(tree) && count == Size(tree) + 1
    }

    ghost predicate PoolValid()
      reads this, Pool()
    {
      && At(poolCtx, poolSub) && poolPtr == RootOf(poolSub) && poolRoot == RootOf(Plug(poolCtx, poolSub))
      && (poolSub.Leaf? ==> poolCtx.Top?) && NextUp(poolCtx, poolSub)
    }

    /** Live and recycled nodes never mix. */
    ghost predicate Valid()
      reads this, Ids(tree), Pool()
    {
      LiveValid() && PoolValid() && Ids(tree) !! Pool()
    }

    /** The tree is what all calls so far have made of an empty one. */
    ghost predicate Recorded()
      reads `tree, `calls
    {
      tree == TreeAfter(calls)
    }

    /** Whatever has been called on this object, the tree has the shape, colours and keys of a new one. */
    lemma LikeNew()
      requires Recorded()
      ensures Erase(tree) == RedBlackSpec.Fresh(KeysPut(calls))
    {
      HistoryBlind(calls);
    }

    constructor ()
      ensures Valid() && tree == Leaf && Pool() == {}
      ensures calls == [] && Recorded()
    {
      count, root, poolRoot, poolPtr := 0, null, null, null;
      tree, poolCtx, poolSub, calls := Leaf, Top, Leaf, [];
    }

    // -------------------------------------------------------------- rotations and fixup

    method LeftRotate(t: RBNode, ghost near: set<RBNode>)
      requires t.right != null && t != t.right && t.right.left != t && t.right.left != t.right
      requires t.parent == null || (t.parent != t && t.parent != t.right && t.parent != t.right.left)
      requires {t, t.right} <= near && Some(t.right.left) <= near && Some(t.parent) <= near
      modifies `root, near`left, near`right, near`parent
      ensures TurnedLeft(t, old(t.right), old(t.right.left), old(t.parent))
      ensures root == if old(t.parent) == null then old(t.right) else old(root)
    {
      var tmp := t.right;
      t.right := tmp.left;
      if tmp.left != null {
        tmp.left.parent := t;
      }
      if t.parent != null {
        if t == t.parent.left {
          t.parent.left := tmp;
        } else {
          t.parent.right := tmp;
        }
      } else {
        root := tmp;
      }
      tmp.parent := t.parent;
      tmp.left := t;
      t.parent := tmp;
    }

    method RightRotate(t: RBNode, ghost near: set<RBNode>)
      requires t.left != null && t != t.left && t.left.right != t && t.left.right != t.left
      requires t.parent == null || (t.parent != t && t.parent != t.left && t.parent != t.left.right)
      requires {t, t.left} <= near && Some(t.left.right) <= near && Some(t.parent) <= near
      modifies `root, near`left, near`right, near`parent
      ensures TurnedRight(t, old(t.left), old(t.left.right), old(t.parent))
      ensures root == if old(t.parent) == null then old(t.left) else old(root)
    {
      var tmp := t.left;
      t.left := tmp.right;
      if tmp.right != null {
        tmp.right.parent := t;
      }
      if t.parent != null {
        if t == t.parent.right {
          t.parent.right := tmp;
        } else {
          t.parent.left := tmp;
        }
      } else {
        root := tmp;
      }
      tmp.parent := t.parent;
      tmp.right := t;
      t.parent := tmp;
    }

    /** Sets one colour. */
    method Paint(n: RBNode, color: Color, ghost c: Context<RBNode>, ghost s: Tree<RBNode>)
      requires At(c, s) && s.Node? && s.id == n
      modifies n`color
      ensures At(c, s.(color := color))
    {
      label P:
      n.color := color;
      Painted@P(Place(c, s));
    }

    /** Red parent and red uncle: both turn black, the grandparent turns red. */
    method Repaint(parent: RBNode, uncle: RBNode, gparent: RBNode, ghost c: Context<RBNode>, ghost s: Tree<RBNode>)
      requires At(c, s) && Clash(c) && parent == c.id && gparent == c.up.id && uncle == RootOf(Uncle(c))
      modifies parent`color, uncle`color, gparent`color
      ensures At(c.up.up, Recolour(c, s))
    {
      Outward(c, s);
      Paint(parent, Black, c.up, Hang(c, s));
      ghost var p := Blacken(Hang(c, s));
      Outward(c.up, p);
      ghost var cu := if c.up.InLeft? then InRight(c.up.up, p, c.up.color, c.up.key, c.up.id)
                      else InLeft(c.up.up, c.up.color, c.up.key, c.up.id, p);
      Outward(cu, Uncle(c));
      Paint(uncle, Black, cu, Uncle(c));
      Outward(cu, Blacken(Uncle(c)));
      Paint(gparent, Red, c.up.up, Hang(cu, Blacken(Uncle(c))));
    }

    /** LeftRotate at a position of the tree. */
    method LeftRotateAt(t: RBNode, ghost c: Context<RBNode>, ghost s: Tree<RBNode>)
      requires At(c, s) && s.Node? && s.id == t && s.right.Node? && root == RootOf(Plug(c, s))
      modifies `root, ContextIds(c)`left, ContextIds(c)`right, ContextIds(c)`parent
      modifies Ids(s)`left, Ids(s)`right, Ids(s)`parent
      ensures At(c, RotatedLeft(s)) && root == RootOf(Plug(c, RotatedLeft(s)))
    {
      LeftReady(c, s);
      SameTop(c, s, if c.Top? then s else RotatedLeft(s));
      label R:
      LeftRotate(t, {s.id, s.right.id} + Some(RootOf(s.right.left)) + Some(ParentOf(c)));
      assert SameRest@R(ContextIds(c)) && SameRest@R(Ids(s));
      LeftRotated@R(Place(c, s));
    }

    /** RightRotate at a position of the tree. */
    method RightRotateAt(t: RBNode, ghost c: Context<RBNode>, ghost s: Tree<RBNode>)
      requires At(c, s) && s.Node? && s.id == t && s.left.Node? && root == RootOf(Plug(c, s))
      modifies `root, ContextIds(c)`left, ContextIds(c)`right, ContextIds(c)`parent
      modifies Ids(s)`left, Ids(s)`right, Ids(s)`parent
      ensures At(c, RotatedRight(s)) && root == RootOf(Plug(c, RotatedRight(s)))
    {
      RightReady(c, s);
      SameTop(c, s, if c.Top? then s else RotatedRight(s));
      label R:
      RightRotate(t, {s.id, s.left.id} + Some(RootOf(s.left.right)) + Some(ParentOf(c)));
      assert SameRest@R(ContextIds(c)) && SameRest@R(Ids(s));
      RightRotated@R(Place(c, s));
    }

    /** The outer rotation: parent is the left child of gparent and s hangs to its left. */
    method RaiseLeft(parent: RBNode, gparent: RBNode, ghost c: Context<RBNode>, ghost s: Tree<RBNode>)
      requires At(c, s) && Clash(c) && c.InLeft? && c.up.InLeft? && parent == c.id && gparent == c.up.id
      requires root == RootOf(Plug(c, s))
      modifies `root, ContextIds(c)`left, ContextIds(c)`right, ContextIds(c)`parent, ContextIds(c)`color
      modifies Ids(s)`left, Ids(s)`right, Ids(s)`parent
      ensures At(RaisedLeft(c), s)
      ensures root == RootOf(Plug(RaisedLeft(c), s))
    {
      Outward(c, s);
      Paint(parent, Black, c.up, Hang(c, s));
      ghost var p := Blacken(Hang(c, s));
      Outward(c.up, p);
      Paint(gparent, Red, c.up.up, Hang(c.up, p));
      ghost var g := Hang(c.up, p).(color := Red);
      SameTop(c.up.up, g, Hang(c.up, Hang(c, s)));
      RightRotateAt(gparent, c.up.up, g);
      Outward(RaisedLeft(c), s);
    }

    /** The outer rotation: parent is the right child of gparent and s hangs to its right. */
    method RaiseRight(parent: RBNode, gparent: RBNode, ghost c: Context<RBNode>, ghost s: Tree<RBNode>)
      requires At(c, s) && Clash(c) && c.InRight? && c.up.InRight? && parent == c.id && gparent == c.up.id
      requires root == RootOf(Plug(c, s))
      modifies `root, ContextIds(c)`left, ContextIds(c)`right, ContextIds(c)`parent, ContextIds(c)`color
      modifies Ids(s)`left, Ids(s)`right, Ids(s)`parent
      ensures At(RaisedRight(c), s)
      ensures root == RootOf(Plug(RaisedRight(c), s))
    {
      Outward(c, s);
      Paint(parent, Black, c.up, Hang(c, s));
      ghost var p := Blacken(Hang(c, s));
      Outward(c.up, p);
      Paint(gparent, Red, c.up.up, Hang(c.up, p));
      ghost var g := Hang(c.up, p).(color := Red);
      SameTop(c.up.up, g, Hang(c.up, Hang(c, s)));
      LeftRotateAt(gparent, c.up.up, g);
      Outward(RaisedRight(c), s);
    }

    /** Red parent, black uncle, parent a left child: rotate until nothing is left to repair. */
    method RepairLeft(child0: RBNode, parent0: RBNode, gparent0: RBNode, ghost c0: Context<RBNode>,
                      ghost s0: Tree<RBNode>)
      returns (child: RBNode, parent: RBNode, ghost c: Context<RBNode>, ghost s: Tree<RBNode>)
      requires At(c0, s0) && IsRed(s0) && Clash(c0) && c0.up.InLeft? && !IsRed(Uncle(c0))
      requires root == RootOf(Plug(c0, s0))
      requires child0 == s0.id && parent0 == c0.id && gparent0 == c0.up.id
      modifies `root, ContextIds(c0)`left, ContextIds(c0)`right, ContextIds(c0)`parent, ContextIds(c0)`color
      modifies Ids(s0)`left, Ids(s0)`right, Ids(s0)`parent, Ids(s0)`color
      ensures At(c, s) && IsRed(s) && child == s.id && parent == ParentOf(c) && root == RootOf(Plug(c, s))
      ensures ContextIds(c) + Ids(s) == ContextIds(c0) + Ids(s0)
      ensures RedBlackSpec.FixUp(c, s) == RedBlackSpec.FixUp(c0, s0) && !RedFrame(c) && !c.Top?
    {
      child, parent, c, s := child0, parent0, c0, s0;
      var gparent := gparent0;
      Sides(c, s);
      if child == parent.right {
        Outward(c, s);
        InnerLeftStep(c, s);
        child := parent;
        LeftRotateAt(child, c.up, Hang(c, s));
        c, s := InLeft(c.up, s.color, s.key, s.id, s.right), Node(c.left, c.color, c.key, c.id, s.left);
        Outward(c, s);
        parent := child.parent;
        gparent := parent.parent;
      }
      RaisedLeftStep(c, s);
      RaiseLeft(parent, gparent, c, s);
      c := RaisedLeft(c);
    }

    /** Red parent, black uncle, parent a right child: rotate until nothing is left to repair. */
    method RepairRight(child0: RBNode, parent0: RBNode, gparent0: RBNode, ghost c0: Context<RBNode>,
                       ghost s0: Tree<RBNode>)
      returns (child: RBNode, parent: RBNode, ghost c: Context<RBNode>, ghost s: Tree<RBNode>)
      requires At(c0, s0) && IsRed(s0) && Clash(c0) && c0.up.InRight? && !IsRed(Uncle(c0))
      requires root == RootOf(Plug(c0, s0))
      requires child0 == s0.id && parent0 == c0.id && gparent0 == c0.up.id
      modifies `root, ContextIds(c0)`left, ContextIds(c0)`right, ContextIds(c0)`parent, ContextIds(c0)`color
      modifies Ids(s0)`left, Ids(s0)`right, Ids(s0)`parent, Ids(s0)`color
      ensures At(c, s) && IsRed(s) && child == s.id && parent == ParentOf(c) && root == RootOf(Plug(c, s))
      ensures ContextIds(c) + Ids(s) == ContextIds(c0) + Ids(s0)
      ensures RedBlackSpec.FixUp(c, s) == RedBlackSpec.FixUp(c0, s0) && !RedFrame(c) && !c.Top?
    {
      child, parent, c, s := child0, parent0, c0, s0;
      var gparent := gparent0;
      Sides(c, s);
      if child == parent.left {
        Outward(c, s);
        InnerRightStep(c, s);
        child := parent;
        RightRotateAt(child, c.up, Hang(c, s));
        c, s := InRight(c.up, s.left, s.color, s.key, s.id), Node(s.right, c.color, c.key, c.id, c.right);
        Outward(c, s);
        parent := child.parent;
        gparent := parent.parent;
      }
      RaisedRightStep(c, s);
      RaiseRight(parent, gparent, c, s);
      c := RaisedRight(c);
    }

    /** Red parent and uncle: they turn black, and the repair goes on at the grandparent. */
    method RecolourAt(parent: RBNode, uncle: RBNode, gparent: RBNode, ghost c0: Context<RBNode>, ghost s0: Tree<RBNode>)
      returns (ghost c: Context<RBNode>, ghost s: Tree<RBNode>)
      requires At(c0, s0) && IsRed(s0) && Clash(c0) && IsRed(Uncle(c0)) && root == RootOf(Plug(c0, s0))
      requires parent == c0.id && gparent == c0.up.id && uncle == RootOf(Uncle(c0))
      modifies parent`color, uncle`color, gparent`color
      ensures At(c, s) && IsRed(s) && s.id == gparent && gparent.parent == ParentOf(c) && root == RootOf(Plug(c, s))
      ensures ContextIds(c) + Ids(s) == ContextIds(c0) + Ids(s0) && c == c0.up.up
      ensures RedBlackSpec.FixUp(c, s) == RedBlackSpec.FixUp(c0, s0)
    {
      Repaint(parent, uncle, gparent, c0, s0);
      RecolourStep(c0, s0);
      c, s := c0.up.up, Recolour(c0, s0);
    }

    method FixUp(t: RBNode, ghost c0: Context<RBNode>, ghost t0: Tree<RBNode>)
      requires At(c0, t0) && IsRed(t0) && t == t0.id && root == RootOf(Plug(c0, t0))
      requires ContextRedRule(c0)
      modifies `root, ContextIds(c0)`left, Ids(t0)`left, ContextIds(c0)`right, Ids(t0)`right
      modifies ContextIds(c0)`parent, Ids(t0)`parent, ContextIds(c0)`color, Ids(t0)`color
      ensures At(Top, RedBlackSpec.FixUp(c0, t0)) && root == RootOf(RedBlackSpec.FixUp(c0, t0))
    {
      var child := t;
      var parent := child.parent;
      ghost var c, s := c0, t0;
      while parent != null && parent.color == Red
        invariant At(c, s) && IsRed(s) && child == s.id && parent == ParentOf(c)
        invariant root == RootOf(Plug(c, s))
        invariant ContextIds(c) + Ids(s) == ContextIds(c0) + Ids(t0)
        invariant RedBlackSpec.FixUp(c, s) == RedBlackSpec.FixUp(c0, t0)
        invariant RedFrame(c) ==> ContextRedRule(c)
        decreases if RedFrame(c) then 1 else 0, c
      {
        var gparent := parent.parent;
        Sides(c, s);
        Outward(c, s);
        Sides(c.up, Hang(c, s));
        if parent == gparent.left {
          var uncle := gparent.right;
          if uncle != null && uncle.color == Red {
            c, s := RecolourAt(parent, uncle, gparent, c, s);
            child := gparent;
            parent := child.parent;
          } else {
            child, parent, c, s := RepairLeft(child, parent, gparent, c, s);
          }
        } else {
          var uncle := gparent.left;
          if uncle != null && uncle.color == Red {
            c, s := RecolourAt(parent, uncle, gparent, c, s);
            child := gparent;
            parent := child.parent;
          } else {
            child, parent, c, s := RepairRight(child, parent, gparent, c, s);
          }
        }
      }
      if parent == null {
        root := child;
        Paint(child, Black, c, s);
      } else {
        PlugAt(c, s);
      }
    }

    // -------------------------------------------------------------- the pool of recycled nodes

    /** Takes a node from the pool, or allocates one when the pool is empty. */
    method NewNode(key: int, data: int, reuseData: bool) returns (tn: RBNode)
      requires PoolValid()
      modifies `poolPtr, `poolRoot, `poolCtx, `poolSub, Pool()
      ensures PoolValid() && Pool() == old(Pool()) - {tn} - old(Dropped()) && tn !in Pool()
      ensures if old(poolPtr) == null then fresh(tn) else tn == old(poolPtr) && tn in old(Pool())
      ensures tn.key == key && tn.left == null && tn.right == null && tn.parent == null
      ensures !reuseData ==> tn.data == data
      ensures reuseData ==> tn.data == if old(poolPtr) == null then 0 else old(poolPtr.data)
    {
      hide Plug;
      if poolPtr != null {
        tn := poolPtr;
        TakeFromPool();
      } else {
        tn := new RBNode();
      }
      if !reuseData {
        tn.data := data;
      }
      tn.key := key;
      tn.left := null;
      tn.right := null;
      tn.parent := null;
    }

    /** Unlinks poolPtr from the pool and moves it on. A right subtree below a left child is dropped
        from the pool, and with it from Pool(). */
    method TakeFromPool()
      requires PoolValid() && poolPtr != null
      modifies `poolPtr, `poolRoot, `poolCtx, `poolSub, Pool()`left, Pool()`right, Pool()`parent
      ensures PoolValid() && Pool() == old(Pool()) - {old(poolPtr)} - old(Dropped())
    {
      ghost var c, s := poolCtx, poolSub;
      Downward(c, s);
      var ptr := poolPtr;
      if ptr.parent == null {
        ptr, c, s := TakeRoot(ptr, s);
      } else {
        ptr, c, s := Unhook(ptr, c, s);
      }
      poolPtr, poolCtx, poolSub := ptr, c, s;
    }

    /** The root of the pool is taken: its right subtree is what is left. */
    method TakeRoot(ptr0: RBNode, ghost s0: Tree<RBNode>)
      returns (ptr: RBNode?, ghost c: Context<RBNode>, ghost s: Tree<RBNode>)
      requires At(Top, s0) && s0.Node? && ptr0 == s0.id
      modifies `poolRoot, Ids(s0)`parent
      ensures At(c, s) && ptr == RootOf(s) && poolRoot == RootOf(Plug(c, s))
      ensures ContextIds(c) + Ids(s) == Ids(s0.right) && NextUp(c, s) && (s.Leaf? ==> c.Top?)
    {
      Downward(Top, s0);
      ptr := ptr0.right;
      poolRoot := ptr;
      if ptr != null {
        SetRoot(ptr, s0.right);
      }
      ptr, c, s := ResetPoolPtr(ptr, Top, s0.right);
    }

    // -------------------------------------------------------------- insertion and clearing

    method Insert(key: int, data: int, reuseData: bool) returns (n: RBNode)
      requires Valid()
      modifies this, Ids(tree), Pool()
      ensures Valid()
      ensures tree == RedBlackSpec.Insert(old(tree), key, n)
      ensures if old(poolPtr) == null then fresh(n) else n == old(poolPtr)
      ensures n !in old(Ids(tree)) && Ids(tree) == old(Ids(tree)) + {n}
      ensures Pool() == old(Pool()) - {n} - old(Dropped())
      ensures n.key == key && (!reuseData ==> n.data == data)
      ensures reuseData ==> n.data == if old(poolPtr) == null then 0 else old(poolPtr.data)
      ensures SameData(old(Ids(tree)))
      ensures calls == old(calls) + [Put(key, n)] && (old(Recorded()) ==> Recorded())
    {
      hide At;
      hide RedBlack;
      hide Ordered;
      assert allocated(Ids(tree)) && ContextIds<RBNode>(Top) == {} && forall o :: o in Ids(tree) ==> o !in Pool();
      count := count + 1;
      n := NewNode(key, data, reuseData);
      assert LiveValid'() && n !in Ids(tree) && Ids(tree) !! Pool();
      AttachBeside(n);
    }

    /** Attach leaves the pool alone. */
    method AttachBeside(n: RBNode)
      requires LiveValid'() && n !in Ids(tree) && PoolValid() && Pool() !! Ids(tree) + {n}
      requires n.left == null && n.right == null && n.parent == null
      modifies `root, `tree, `calls, Ids(tree)`left, Ids(tree)`right, Ids(tree)`parent, Ids(tree)`color
      modifies n`parent, n`left, n`right, n`color
      ensures Valid() && tree == RedBlackSpec.Insert(old(tree), n.key, n)
      ensures calls == old(calls) + [Put(n.key, n)]
      ensures Ids(tree) == old(Ids(tree)) + {n}
    {
      assert allocated(ContextIds(poolCtx)) && allocated(Ids(poolSub));
      ghost var c, s := poolCtx, poolSub;
      assert At(c, s);
      hide LiveValid;
      Attach(n);
      assert At(c, s);
    }

    /** Makes the blank node n a child of prev and repairs the colours. */
    method Hook(n: RBNode, prev: RBNode, ghost c: Context<RBNode>)
      requires At(c, Leaf) && prev == ParentOf(c) && (c.InRight? <==> c.key < n.key) && ContextRedRule(c)
      requires n !in ContextIds(c) && n.left == null && n.right == null && n.parent == prev
      requires root == RootOf(Plug(c, Leaf))
      modifies `root, ContextIds(c)`left, ContextIds(c)`right, ContextIds(c)`parent, ContextIds(c)`color
      modifies n`left, n`right, n`parent, n`color
      ensures var t := RedBlackSpec.FixUp(c, Node(Leaf, Red, n.key, n, Leaf)); At(Top, t) && root == RootOf(t)
    {
      ghost var leaf := Node(Leaf, Red, n.key, n, Leaf);
      label L:
      if prev.key < n.key {
        prev.right := n;
      } else {
        prev.left := n;
      }
      n.color := Red;
      Refilled@L(c);
      SameTop(c, Leaf, leaf);
      FixUp(n, c, leaf);
    }

    /** The node below which a new key belongs, null in an empty tree. */
    method FindParent(key: int) returns (prev: RBNode?, ghost c: Context<RBNode>)
      requires At(Top, tree) && root == RootOf(tree)
      ensures At(c, Leaf) && c == Descend(Top, tree, key) && prev == ParentOf(c)
    {
      var walker := root;
      prev := null;
      ghost var s := tree;
      c := Top;
      while walker != null
        invariant At(c, s) && walker == RootOf(s) && prev == ParentOf(c)
        invariant Descend(c, s, key) == Descend(Top, tree, key)
        decreases s
      {
        Downward(c, s);
        prev := walker;
        if walker.key < key {
          walker := walker.right;
          c, s := InRight(c, s.left, s.color, s.key, s.id), s.right;
        } else {
          walker := walker.left;
          c, s := InLeft(c, s.color, s.key, s.id, s.right), s.left;
        }
      }
    }

    /** Hangs the blank node n into the tree. */
    method Attach(n: RBNode)
      requires LiveValid'() && n !in Ids(tree)
      requires n.left == null && n.right == null && n.parent == null
      modifies `root, `tree, `calls, Ids(tree)`left, Ids(tree)`right, Ids(tree)`parent, Ids(tree)`color
      modifies n`parent, n`left, n`right, n`color
      ensures LiveValid() && tree == RedBlackSpec.Insert(old(tree), n.key, n)
      ensures calls == old(calls) + [Put(n.key, n)]
      ensures Ids(tree) == old(Ids(tree)) + {n}
    {
      InsertFacts(tree, n.key, n);
      ghost var ids := Ids(tree);
      var prev, c := FindParent(n.key);
      assert prev != null ==> ContextIds(c) == ids;
      n.parent := prev;
      if prev == null {
        root := n;
        root.color := Black;
      } else {
        Hook(n, prev, c);
      }
      tree, calls := RedBlackSpec.Insert(tree, n.key, n), calls + [Put(n.key, n)];
    }

    /** Empties the tree: all its nodes join the pool, below the node that was next to be recycled. */
    method Clear()
      requires Valid()
      modifies this, poolPtr, root
      ensures Valid() && tree == Leaf
      ensures calls == old(calls) + [Call.Clear] && Recorded()
      ensures Pool() == old(Pool()) + old(Ids(tree))
    {
      calls := calls + [Call.Clear];
      if root == null {
        return;
      }
      ghost var t, pool := tree, Pool();
      ghost var c := Graft();
      assert root == RootOf(t);
      hide At;
      hide Plug;
      var ptr, c', s' := Min(root, c, t);
      ptr, c', s' := ResetPoolPtr(ptr, c', s');
      Recycled(ptr, c', s');
      assert Pool() == pool + Ids(t);
    }

    /** The live tree becomes the pool, or a part of it. */
    method Graft() returns (ghost c: Context<RBNode>)
      requires Valid() && root != null
      modifies `poolRoot, Some(poolPtr)`left, root`parent
      ensures At(c, tree) && ContextIds(c) == old(Pool()) && Spent(c) && poolRoot == RootOf(Plug(c, tree))
      ensures tree == old(tree) && root == RootOf(tree)
    {
      if poolRoot == null {
        PlugAt(poolCtx, poolSub);
        poolRoot := root;
        c := Top;
      } else {
        c := GraftPool();
      }
    }

    /** The bookkeeping at the end of Clear. */
    method Recycled(ptr: RBNode?, ghost c: Context<RBNode>, ghost s: Tree<RBNode>)
      requires At(c, s) && ptr == RootOf(s) && s.Node? && poolRoot == RootOf(Plug(c, s)) && NextUp(c, s)
      modifies this
      ensures Valid() && tree == Leaf && poolCtx == c && poolSub == s && calls == old(calls)
    {
      poolPtr, poolCtx, poolSub := ptr, c, s;
      count := 0;
      root, tree := null, Leaf;
    }

    /** Makes the live tree the left subtree of poolPtr. */
    method GraftPool() returns (ghost c: Context<RBNode>)
      requires Valid() && root != null && poolPtr != null
      modifies poolPtr`left, root`parent
      ensures At(c, tree) && ContextIds(c) == Pool() && Spent(c) && poolRoot == RootOf(Plug(c, tree))
    {
      ghost var p := poolSub;
      c := InLeft(poolCtx, p.color, p.key, p.id, p.right);
      Outward(c, p.left);
      SameTop(poolCtx, p, Hang(c, tree));
      label L:
      poolPtr.left := root;
      root.parent := poolPtr;
      Moved@L(tree);
      Refilled@L(c);
    }

    /** Overwrites the int a node's data pointer leads to. */
    method SetData(n: RBNode, data: int)
      requires Valid() && n in Ids(tree)
      modifies n`data
      ensures Valid() && n.data == data
    {
      label L:
      n.data := data;
      Moved@L(tree);
      assert At(poolCtx, poolSub);
    }

    // -------------------------------------------------------------- queries

    /** rbtree_search, started at the root. */
    method Search(key: int) returns (t: RBNode?, ghost visited: nat)
      requires LiveValid()
      ensures t == RootOf(Find(tree, key)) && visited <= Height(tree)
      ensures t != null ==> t in Ids(tree) && t.key == key
      ensures t == null <==> key !in Keys(tree)
      ensures Pow2(visited) <= (count + 1) * (count + 1)
    {
      t := root;
      visited := 0;
      ghost var c, s := Top, tree;
      while t != null && t.key != key
        invariant At(c, s) && t == RootOf(s) && Find(s, key) == Find(tree, key) && Plug(c, s) == tree
        invariant visited + Height(s) <= Height(tree)
        decreases s
      {
        Downward(c, s);
        if key < t.key {
          t := t.left;
          c, s := InLeft(c, s.color, s.key, s.id, s.right), s.left;
        } else {
          t := t.right;
          c, s := InRight(c, s.left, s.color, s.key, s.id), s.right;
        }
        visited := visited + 1;
      }
      FindFinds(tree, key);
      HeightBound(tree);
      Pow2Monotone(visited, Height(tree));
      PlugAt(c, s);
    }

    /** rbtree_successor: from the i-th node to the next one, by child and parent links alone. */
    method Successor(t0: RBNode, ghost i: nat) returns (ret: RBNode?)
      requires LiveValid() && i < |InOrder(tree)| && InOrder(tree)[i].id == t0
      ensures ret == if i + 1 < |InOrder(tree)| then InOrder(tree)[i + 1].id else null
    {
      var t := t0;
      ghost var xs := InOrder(tree);
      ghost var c, s := Focus(Top, tree, i);
      PlugInOrder(c, s);
      if t.right != null {
        Downward(c, s);
        ghost var r := InRight(c, s.left, s.color, s.key, s.id);
        PlugInOrder(r, s.right);
        ghost var c', s';
        ret, c', s' := Min(t.right, r, s.right);
        assert xs[i + 1] == InOrder(s.right)[0];
      } else {
        ret := t.parent;
        while ret != null && t == ret.right
          invariant At(c, s) && s.Node? && t == s.id && ret == ParentOf(c) && Plug(c, s) == tree
          invariant xs == Before(c) + InOrder(s) + After(c) && |Before(c)| + |InOrder(s)| == i + 1
          decreases c
        {
          Sides(c, s);
          Outward(c, s);
          PlugInOrder(c.up, Hang(c, s));
          t := ret;
          ret := ret.parent;
          c, s := c.up, Hang(c, s);
        }
        if ret != null {
          Sides(c, s);
          assert xs[i + 1] == After(c)[0];
        }
      }
    }

    /** The walk of the debugging dump and of mpat_next_match: the first node, then successors. */
    method Walk() returns (visited: seq<RBNode>)
      requires LiveValid()
      ensures |visited| == |InOrder(tree)| == count
      ensures forall k :: 0 <= k < |visited| ==> visited[k] == InOrder(tree)[k].id
      ensures forall n :: n in Ids(tree) <==> n in visited
      ensures forall j, k :: 0 <= j < k < |visited| ==> visited[j] != visited[k]
    {
      visited := [];
      assert allocated(Ids(tree));
      var r, _, _ := Min(root, Top, tree);
      while r != null
        invariant LiveValid() && allocated(Ids(tree))
        invariant |visited| <= |InOrder(tree)|
        invariant forall k :: 0 <= k < |visited| ==> visited[k] == InOrder(tree)[k].id
        invariant r == if |visited| < |InOrder(tree)| then InOrder(tree)[|visited|].id else null
        decreases |InOrder(tree)| - |visited|
      {
        visited := visited + [r];
        r := Successor(r, |visited| - 1);
      }
      ListedNodes(tree, visited);
    }
  }
}
