/** The constructors of src/nfa.c, on the nodes in the arena. A fragment is known by its accepting
    node, whose parent is the entry; each constructor turns the cells of its fragments, given as
    ghost sets, into the cells of one fragment for the larger expression. */
module Nfa {
  import opened Bytes
  import opened Regex
  import opened BranchLists
  import opened KeptBranches
  import opened NfaGraph
  import opened NfaConstruct
  import opened NfaAlloc

  // ---------------------------------------------------------------- nodes as a graph

  /** What a node does: out1 only matters for a split. */
  function InstOf(n: NFA): Inst {
    match n.value
    case ANY => Match(AnyByte, n.out2)
    case LITERAL(c) => Match(Literal(c), n.out2)
    case RANGE(cs) => Match(Range(cs), n.out2)
    case SPLIT => Split(n.out1, n.out2)
    case EPSILON => Epsilon(n.out2)
    case TREE(branches) => Tree(Seen(branches))
    case ACCEPTING => Accept
  }

  predicate IsSplit(n: NFA, out1: Addr, out2: Addr) { n.value == SPLIT && n.out1 == out1 && n.out2 == out2 }

  predicate IsEpsilon(n: NFA, out: Addr) { n.value == EPSILON && n.out2 == out }

  ghost function View(nodes: seq<NFA>, d: set<Addr>): Graph
    requires forall a :: a in d ==> a < |nodes|
  {
    map a | a in d :: InstOf(nodes[a])
  }

  lemma ViewIs(nodes: seq<NFA>, d: set<Addr>)
    requires forall a :: a in d ==> a < |nodes|
    ensures View(nodes, d).Keys == d && forall a :: a in d ==> View(nodes, d)[a] == InstOf(nodes[a])
  {
  }

  predicate Consuming(v: Value) { v.ANY? || v.LITERAL? || v.RANGE? }

  /** The cells d are a fragment for r that ends at accept. */
  ghost predicate Holds(nodes: seq<NFA>, accept: Addr, d: set<Addr>, r: Expr) {
    && (forall a :: a in d ==> a < |nodes|) && accept in d && nodes[accept].id == 0
    && Accepts(View(nodes, d), nodes[accept].parent, accept, r) && Grounded(View(nodes, d))
  }

  lemma HoldsShape(nodes: seq<NFA>, accept: Addr, d: set<Addr>, r: Expr)
    requires Holds(nodes, accept, d, r)
    ensures (forall a :: a in d ==> a < |nodes|) && accept in d && nodes[accept].parent in d
    ensures nodes[accept].parent != accept && nodes[accept].value == ACCEPTING
    ensures Fragment(View(nodes, d), nodes[accept].parent, accept) && Grounded(View(nodes, d))
  {
    FragmentEnds(View(nodes, d), nodes[accept].parent, accept);
  }

  predicate Nested(n: seq<NFA>, b: Addr)
    requires b < |n| && n[b].parent < |n|
  {
    n[n[b].parent].value.TREE?
  }

  /** The entry of the fragment that ends at b: one node, or the list of an alternation. */
  function ForkAt(n: seq<NFA>, b: Addr): Fork<Addr>
    requires b < |n| && n[b].parent < |n|
  {
    if Nested(n, b) then Many(n[n[b].parent].value.branches) else One(n[b].parent)
  }

  ghost predicate Plain(n: seq<NFA>, b: Addr) { b < |n| && n[b].parent < |n| && !Nested(n, b) }

  /** The cells d are a fragment that ends at accept and reads what s says, head by head. */
  ghost predicate Shaped(nodes: seq<NFA>, accept: Addr, d: set<Addr>, s: Shape) {
    && (forall a :: a in d ==> a < |nodes|) && accept in d && nodes[accept].id == 0 && nodes[accept].parent in d
    && ReadsShape(View(nodes, d), nodes[accept].parent, accept, ForkAt(nodes, accept), s) && Grounded(View(nodes, d))
  }

  lemma ShapedHolds(nodes: seq<NFA>, accept: Addr, d: set<Addr>, s: Shape)
    requires Shaped(nodes, accept, d, s)
    ensures Holds(nodes, accept, d, Means(s))
  {
    ShapeAccepts(View(nodes, d), nodes[accept].parent, accept, ForkAt(nodes, accept), s);
  }

  lemma ShapedEnds(nodes: seq<NFA>, accept: Addr, d: set<Addr>, s: Shape)
    requires Shaped(nodes, accept, d, s)
    ensures (forall a :: a in d ==> a < |nodes|) && accept in d && nodes[accept].parent in d
    ensures nodes[accept].parent != accept && nodes[accept].value == ACCEPTING
    ensures Fragment(View(nodes, d), nodes[accept].parent, accept) && Grounded(View(nodes, d))
  {
    FragmentEnds(View(nodes, d), nodes[accept].parent, accept);
  }

  lemma HoldsShaped(nodes: seq<NFA>, accept: Addr, d: set<Addr>, r: Expr)
    requires Holds(nodes, accept, d, r) && Plain(nodes, accept)
    ensures Shaped(nodes, accept, d, One(r))
  {
    HoldsShape(nodes, accept, d, r);
    ViewIs(nodes, d);
    hide View;
    hide Accepts;
    hide Fragment;
    hide Grounded;
    hide ReadsShape;
    PlainShape(View(nodes, d), nodes[accept].parent, accept, r);
  }

  /** Consuming nodes in use have been given different numbers. */
  ghost predicate Numbered(nodes: seq<NFA>, used: set<Addr>, next: nat) {
    && (forall a :: a in used ==> a < |nodes|)
    && (forall a :: a in used && Consuming(nodes[a].value) ==> 0 < nodes[a].id < next)
    && (forall a, b :: a in used && b in used && a != b && Consuming(nodes[a].value) && Consuming(nodes[b].value)
          ==> nodes[a].id != nodes[b].id)
  }

  /** No node carries results of a compilation yet. */
  ghost predicate Clean(nodes: seq<NFA>) {
    forall a :: 0 <= a < |nodes| ==> nodes[a].Bare()
  }

  lemma CleanBut(n0: seq<NFA>, n1: seq<NFA>, d: set<Addr>)
    requires Clean(n0) && |n0| == |n1| && forall a :: a in d && a < |n1| ==> n1[a].Bare()
    requires forall a :: 0 <= a < |n1| && a !in d ==> n1[a] == n0[a]
    ensures Clean(n1)
  {
  }

  /** What holds between two calls of a constructor. */
  ghost predicate Building(nodes: seq<NFA>, used: set<Addr>, next: nat) {
    Numbered(nodes, used, next) && 0 < next && Clean(nodes)
  }

  /** The cells e have taken the place of the cells d; nothing else in use has changed. */
  ghost predicate Replaced(n0: seq<NFA>, u0: set<Addr>, n1: seq<NFA>, u1: set<Addr>, d: set<Addr>, e: set<Addr>) {
    && d <= u0 && u1 == u0 - d + e && e !! (u0 - d) && |n0| <= |n1|
    && forall a :: a in u0 - d && a < |n0| ==> n1[a] == n0[a]
  }

  // ---------------------------------------------------------------- new nodes

  /** new_nfa */
  method NewNfa(ctrl: NFACtrl, v: Value) returns (nfa: Addr)
    requires ctrl.Valid() && Clean(ctrl.nodes)
    modifies ctrl
    ensures ctrl.Valid() && Clean(ctrl.nodes) && ctrl.nextSeqId == old(ctrl.nextSeqId)
    ensures nfa != NULL && nfa !in old(ctrl.used) && ctrl.used == old(ctrl.used) + {nfa} && nfa < |ctrl.nodes|
    ensures |old(ctrl.nodes)| <= |ctrl.nodes| && ctrl.nodes[nfa] == ZERO.(value := v)
    ensures forall a :: a in old(ctrl.used) ==> a < |old(ctrl.nodes)| && ctrl.nodes[a] == old(ctrl.nodes[a])
  {
    assert forall a :: a in ctrl.used ==> a < |ctrl.nodes|;
    hide Ring;
    hide Sized;
    nfa := ctrl.Alloc();
    assert nfa < |ctrl.nodes| by { InArena(ctrl); }
    var n := ctrl.nodes[nfa];
    ctrl.nodes := ctrl.nodes[nfa := n.(id := 0, value := v, parent := NULL, out1 := NULL, out2 := NULL)];
  }

  lemma InArena(ctrl: NFACtrl)
    requires ctrl.Valid()
    ensures forall a :: a in ctrl.used ==> a < |ctrl.nodes|
  {
  }

  /** mark_nfa */
  method MarkNfa(ctrl: NFACtrl, nfa: Addr)
    requires ctrl.Valid() && nfa < |ctrl.nodes|
    modifies ctrl`nodes, ctrl`nextSeqId
    ensures ctrl.Valid()
    ensures old(ctrl.nodes)[nfa].id == 0 ==>
              && ctrl.nodes == old(ctrl.nodes)[nfa := old(ctrl.nodes)[nfa].(id := old(ctrl.nextSeqId))]
              && ctrl.nextSeqId == old(ctrl.nextSeqId) + 1
    ensures old(ctrl.nodes)[nfa].id != 0 ==> ctrl.nodes == old(ctrl.nodes) && ctrl.nextSeqId == old(ctrl.nextSeqId)
  {
    if ctrl.nodes[nfa].id == 0 {
      ctrl.nodes := ctrl.nodes[nfa := ctrl.nodes[nfa].(id := ctrl.nextSeqId)];
      ctrl.nextSeqId := ctrl.nextSeqId + 1;
    }
  }

  lemma NumberedNext(n0: seq<NFA>, used: set<Addr>, next: nat, n1: seq<NFA>, start: Addr, accept: Addr)
    requires Numbered(n0, used - {start, accept}, next) && 0 < next && start in used && accept in used
    requires |n1| == |n0| && start != accept && forall a :: a in used ==> a < |n1|
    requires forall a :: a in used - {start, accept} ==> n1[a] == n0[a]
    requires n1[start].id == next && !Consuming(n1[accept].value)
    ensures Numbered(n1, used, next + 1)
  {
    forall a | a in used && Consuming(n1[a].value) && a != start ensures 0 < n1[a].id < next {
      assert a in used - {start, accept};
    }
    forall a, b | a in used && b in used && a != b && Consuming(n1[a].value) && Consuming(n1[b].value)
      ensures n1[a].id != n1[b].id
    {
      if a != start && b != start {
        assert a in used - {start, accept} && b in used - {start, accept};
      }
    }
  }

  /** The label that a consuming node's type and value stand for. */
  function LabelOf(v: Value): Label
    requires Consuming(v)
  {
    match v
    case ANY => AnyByte
    case LITERAL(c) => Literal(c)
    case RANGE(cs) => Range(cs)
  }

  /** new_literal_nfa, for literals and for `.` */
  method NewLiteralNfa(ctrl: NFACtrl, v: Value) returns (accept: Addr, ghost d: set<Addr>)
    requires ctrl.Valid() && Building(ctrl.nodes, ctrl.used, ctrl.nextSeqId) && (v.LITERAL? || v.ANY?)
    modifies ctrl
    ensures ctrl.Valid() && Building(ctrl.nodes, ctrl.used, ctrl.nextSeqId)
    ensures Holds(ctrl.nodes, accept, d, Atom(LabelOf(v))) && Plain(ctrl.nodes, accept)
    ensures Replaced(old(ctrl.nodes), old(ctrl.used), ctrl.nodes, ctrl.used, {}, d)
  {
    hide Ring;
    hide Sized;
    accept := NewNfa(ctrl, ACCEPTING);
    var start := NewNfa(ctrl, v);
    d := LinkAtom(ctrl, start, accept);
  }

  /** new_range_nfa, with the finished set of characters */
  method NewRangeNfa(ctrl: NFACtrl, cs: set<Byte>) returns (accept: Addr, ghost d: set<Addr>)
    requires ctrl.Valid() && Building(ctrl.nodes, ctrl.used, ctrl.nextSeqId)
    modifies ctrl
    ensures ctrl.Valid() && Building(ctrl.nodes, ctrl.used, ctrl.nextSeqId)
    ensures Holds(ctrl.nodes, accept, d, Atom(Range(cs))) && Plain(ctrl.nodes, accept)
    ensures Replaced(old(ctrl.nodes), old(ctrl.used), ctrl.nodes, ctrl.used, {}, d)
  {
    hide Ring;
    hide Sized;
    var start := NewNfa(ctrl, RANGE(cs));
    accept := NewNfa(ctrl, ACCEPTING);
    d := LinkAtom(ctrl, start, accept);
  }

  /** Numbers the consuming node and links it to its exit. */
  method LinkAtom(ctrl: NFACtrl, start: Addr, accept: Addr) returns (ghost d: set<Addr>)
    requires ctrl.Valid() && Clean(ctrl.nodes) && start in ctrl.used && accept in ctrl.used && start != accept
    requires Numbered(ctrl.nodes, ctrl.used - {start, accept}, ctrl.nextSeqId) && 0 < ctrl.nextSeqId
    requires ctrl.nodes[accept] == ZERO.(value := ACCEPTING)
    requires Consuming(ctrl.nodes[start].value) && ctrl.nodes[start] == ZERO.(value := ctrl.nodes[start].value)
    modifies ctrl`nodes, ctrl`nextSeqId
    ensures ctrl.Valid() && Building(ctrl.nodes, ctrl.used, ctrl.nextSeqId) && d == {start, accept}
    ensures Holds(ctrl.nodes, accept, d, Atom(LabelOf(old(ctrl.nodes)[start].value)))
    ensures Plain(ctrl.nodes, accept)
    ensures |ctrl.nodes| == |old(ctrl.nodes)|
    ensures forall a :: 0 <= a < |ctrl.nodes| && a !in d ==> ctrl.nodes[a] == old(ctrl.nodes)[a]
  {
    InArena(ctrl);
    ghost var n0, next := ctrl.nodes, ctrl.nextSeqId;
    hide Ring;
    hide Sized;
    hide Holds;
    hide Building;
    hide Clean;
    hide Numbered;
    MarkNfa(ctrl, start);
    ctrl.nodes := ctrl.nodes[start := ctrl.nodes[start].(out1 := accept, out2 := accept)];
    ctrl.nodes := ctrl.nodes[accept := ctrl.nodes[accept].(parent := start)];
    d := {start, accept};
    AtomLinked(n0, ctrl.used, next, ctrl.nodes, start, accept);
  }

  lemma AtomLinked(n0: seq<NFA>, used: set<Addr>, next: nat, n1: seq<NFA>, start: Addr, accept: Addr)
    requires Clean(n0) && Numbered(n0, used - {start, accept}, next) && 0 < next && {start, accept} <= used
    requires start != accept && |n0| == |n1| && forall a :: a in used ==> a < |n1|
    requires n0[accept] == ZERO.(value := ACCEPTING) && n1[accept] == n0[accept].(parent := start)
    requires Consuming(n0[start].value) && n0[start] == ZERO.(value := n0[start].value)
    requires n1[start] == n0[start].(id := next, out1 := accept, out2 := accept)
    requires forall a :: 0 <= a < |n0| && a !in {start, accept} ==> n1[a] == n0[a]
    ensures Building(n1, used, next + 1) && Holds(n1, accept, {start, accept}, Atom(LabelOf(n0[start].value)))
    ensures Plain(n1, accept)
  {
    NumberedNext(n0, used, next, n1, start, accept);
    CleanBut(n0, n1, {start, accept});
    AtomHolds(n1, start, accept);
    hide Holds;
    hide Numbered;
    hide Clean;
  }

  lemma AtomHolds(nodes: seq<NFA>, start: Addr, accept: Addr)
    requires start < |nodes| && accept < |nodes| && start != accept
    requires Consuming(nodes[start].value) && nodes[start].out2 == accept
    requires nodes[accept].value == ACCEPTING && nodes[accept].parent == start && nodes[accept].id == 0
    ensures Holds(nodes, accept, {start, accept}, Atom(LabelOf(nodes[start].value)))
    ensures Plain(nodes, accept)
  {
    var lab := LabelOf(nodes[start].value);
    AtomAccepts(lab, start, accept);
    hide Accepts;
    hide Ranked;
    assert View(nodes, {start, accept}) == AtomGraph(lab, start, accept);
  }

  // ---------------------------------------------------------------- quantifiers

  /** Nodes that stopped consuming, or never did, need no number. */
  lemma NumberedKept(n0: seq<NFA>, u0: set<Addr>, n1: seq<NFA>, u1: set<Addr>, next: nat)
    requires Numbered(n0, u0, next) && forall a :: a in u1 ==> a < |n1|
    requires forall a :: a in u1 && Consuming(n1[a].value) ==> a in u0 && n1[a] == n0[a]
    ensures Numbered(n1, u1, next)
  {
  }

  /** "tighten loop": the first node after the entry that is not an epsilon node. The body's exit
      has already been turned into a split. */
  method TightenLoop(ctrl: NFACtrl, start: Addr, body: Addr, ghost g: Graph) returns (target: Addr)
    requires Fragment(g, start, body) && Grounded(g)
    requires forall a :: a in g ==> a < |ctrl.nodes| && (a != body ==> InstOf(ctrl.nodes[a]) == g[a])
    requires ctrl.nodes[body].value == SPLIT
    ensures SameFrom(g, start, target, body) && target < |ctrl.nodes| && ctrl.nodes[target].value != EPSILON
  {
    hide Run;
    hide Reads;
    ghost var rank := SomeRank(g);
    target := start;
    while ctrl.nodes[target].value == EPSILON
      invariant SameFrom(g, start, target, body)
      decreases rank[target]
    {
      assert Descends(g[target], rank, rank[target]);
      Tighten(g, start, target, body);
      target := ctrl.nodes[target].out2;
    }
  }

  /** The new entry, of type v, and exit of a quantified fragment. */
  method NewEnds(ctrl: NFACtrl, v: Value, body: Addr, ghost d: set<Addr>, ghost r: Expr)
      returns (start: Addr, accept: Addr)
    requires ctrl.Valid() && Building(ctrl.nodes, ctrl.used, ctrl.nextSeqId)
    requires d <= ctrl.used && Holds(ctrl.nodes, body, d, r)
    modifies ctrl
    ensures ctrl.Valid() && Clean(ctrl.nodes) && ctrl.nextSeqId == old(ctrl.nextSeqId)
    ensures ctrl.used == old(ctrl.used) + {start, accept} && start !in old(ctrl.used) && accept !in old(ctrl.used)
    ensures start != accept && start < |ctrl.nodes| && accept < |ctrl.nodes| && |old(ctrl.nodes)| <= |ctrl.nodes|
    ensures ctrl.nodes[start] == ZERO.(value := v) && ctrl.nodes[accept] == ZERO.(value := ACCEPTING)
    ensures forall a :: a in old(ctrl.used) ==> a < |old(ctrl.nodes)| && ctrl.nodes[a] == old(ctrl.nodes)[a]
  {
    hide Ring;
    hide Sized;
    hide Numbered;
    hide Holds;
    start := NewNfa(ctrl, v);
    accept := NewNfa(ctrl, ACCEPTING);
  }

  /** new_kleene_nfa */
  method NewKleeneNfa(ctrl: NFACtrl, body: Addr, ghost d: set<Addr>, ghost r: Expr)
      returns (accept: Addr, ghost e: set<Addr>)
    requires ctrl.Valid() && Building(ctrl.nodes, ctrl.used, ctrl.nextSeqId)
    requires d <= ctrl.used && Holds(ctrl.nodes, body, d, r)
    modifies ctrl
    ensures ctrl.Valid() && Building(ctrl.nodes, ctrl.used, ctrl.nextSeqId)
    ensures Holds(ctrl.nodes, accept, e, Star(r)) && Plain(ctrl.nodes, accept)
    ensures Replaced(old(ctrl.nodes), old(ctrl.used), ctrl.nodes, ctrl.used, d, e)
  {
    ghost var n0, u0 := ctrl.nodes, ctrl.used;
    HoldsShape(n0, body, d, r);
    var start;
    start, accept := NewEnds(ctrl, SPLIT, body, d, r);
    var parent := ctrl.nodes[body].parent;
    var entry := ctrl.nodes[start].(id := ctrl.nodes[parent].id, out1 := accept, out2 := parent);
    ghost var target := LinkLoop(ctrl, body, start, accept, entry, n0, d);
    e := d + {start, accept};
    Wrapped(n0, u0, ctrl.nodes, ctrl.used, ctrl.nextSeqId, d, body, start, accept);
    KleeneHolds(n0, ctrl.nodes, d, body, start, accept, target, r);
  }

  /** new_posclosure_nfa */
  method NewPosclosureNfa(ctrl: NFACtrl, body: Addr, ghost d: set<Addr>, ghost r: Expr)
      returns (accept: Addr, ghost e: set<Addr>)
    requires ctrl.Valid() && Building(ctrl.nodes, ctrl.used, ctrl.nextSeqId)
    requires d <= ctrl.used && Holds(ctrl.nodes, body, d, r)
    modifies ctrl
    ensures ctrl.Valid() && Building(ctrl.nodes, ctrl.used, ctrl.nextSeqId)
    ensures Holds(ctrl.nodes, accept, e, Plus(r)) && Plain(ctrl.nodes, accept)
    ensures Replaced(old(ctrl.nodes), old(ctrl.used), ctrl.nodes, ctrl.used, d, e)
  {
    ghost var n0, u0 := ctrl.nodes, ctrl.used;
    HoldsShape(n0, body, d, r);
    var start;
    start, accept := NewEnds(ctrl, EPSILON, body, d, r);
    var parent := ctrl.nodes[body].parent;
    var entry := ctrl.nodes[start].(id := ctrl.nodes[parent].id, out1 := parent, out2 := parent);
    ghost var target := LinkLoop(ctrl, body, start, accept, entry, n0, d);
    e := d + {start, accept};
    Wrapped(n0, u0, ctrl.nodes, ctrl.used, ctrl.nextSeqId, d, body, start, accept);
    PosclosureHolds(n0, ctrl.nodes, d, body, start, accept, target, r);
  }

  /** new_qmark_nfa */
  method NewQmarkNfa(ctrl: NFACtrl, body: Addr, ghost d: set<Addr>, ghost r: Expr)
      returns (accept: Addr, ghost e: set<Addr>)
    requires ctrl.Valid() && Building(ctrl.nodes, ctrl.used, ctrl.nextSeqId)
    requires d <= ctrl.used && Holds(ctrl.nodes, body, d, r)
    modifies ctrl
    ensures ctrl.Valid() && Building(ctrl.nodes, ctrl.used, ctrl.nextSeqId)
    ensures Holds(ctrl.nodes, accept, e, Opt(r)) && Plain(ctrl.nodes, accept)
    ensures Replaced(old(ctrl.nodes), old(ctrl.used), ctrl.nodes, ctrl.used, d, e)
  {
    ghost var n0, u0 := ctrl.nodes, ctrl.used;
    HoldsShape(n0, body, d, r);
    var start;
    start, accept := NewEnds(ctrl, SPLIT, body, d, r);
    var parent := ctrl.nodes[body].parent;
    var entry := ctrl.nodes[start].(id := ctrl.nodes[parent].id, out1 := accept, out2 := parent);
    LinkQmark(ctrl, body, start, accept, entry);
    e := d + {start, accept};
    Wrapped(n0, u0, ctrl.nodes, ctrl.used, ctrl.nextSeqId, d, body, start, accept);
    QmarkHolds(n0, ctrl.nodes, d, body, start, accept, r);
  }

  /** The links of a closure: its exit becomes a split that leads back into the body or on. */
  method LinkLoop(ctrl: NFACtrl, body: Addr, start: Addr, accept: Addr, entry: NFA,
                  ghost n0: seq<NFA>, ghost d: set<Addr>) returns (target: Addr)
    requires ctrl.Valid() && Clean(ctrl.nodes) && entry.Bare()
    requires forall a :: a in d ==> a < |n0| && a < |ctrl.nodes| && n0[a] == ctrl.nodes[a]
    requires body in d && Fragment(View(n0, d), n0[body].parent, body) && Grounded(View(n0, d)) && n0[body].parent in d
    requires start !in d && accept !in d && start != accept && start < |ctrl.nodes| && accept < |ctrl.nodes|
    requires ctrl.nodes[accept] == ZERO.(value := ACCEPTING)
    modifies ctrl`nodes
    ensures ctrl.Valid() && Clean(ctrl.nodes) && |ctrl.nodes| == |old(ctrl.nodes)|
    ensures forall a :: 0 <= a < |ctrl.nodes| && a != start && a != body && a != accept ==>
              ctrl.nodes[a] == old(ctrl.nodes)[a]
    ensures SameFrom(View(n0, d), n0[body].parent, target, body)
    ensures ctrl.nodes[start] == entry && IsSplit(ctrl.nodes[body], target, accept)
    ensures target < |ctrl.nodes| && ctrl.nodes[target].value != EPSILON
    ensures ctrl.nodes[accept] == ZERO.(value := ACCEPTING, parent := start)
  {
    ViewIs(n0, d);
    hide InstOf;
    hide Ring;
    hide Sized;
    hide View;
    hide Fragment;
    hide Grounded;
    hide SameFrom;
    ghost var before := ctrl.nodes;
    var b := ctrl.nodes[body].(value := SPLIT, out2 := accept);
    ctrl.nodes := ctrl.nodes[start := entry][body := b];
    target := TightenLoop(ctrl, b.parent, body, View(n0, d));
    ctrl.nodes := ctrl.nodes[body := b.(out1 := target)];
    ctrl.nodes := ctrl.nodes[accept := ctrl.nodes[accept].(parent := start)];
    ThreeWrites(before, start, entry, body, b.(out1 := target), accept, before[accept].(parent := start), b);
  }

  /** The links of an option: its exit leads on. */
  method LinkQmark(ctrl: NFACtrl, body: Addr, start: Addr, accept: Addr, entry: NFA)
    requires ctrl.Valid() && Clean(ctrl.nodes) && entry.Bare() && body < |ctrl.nodes|
    requires body != start && accept != body && start != accept && start < |ctrl.nodes| && accept < |ctrl.nodes|
    requires ctrl.nodes[accept] == ZERO.(value := ACCEPTING)
    modifies ctrl`nodes
    ensures ctrl.Valid() && Clean(ctrl.nodes) && |ctrl.nodes| == |old(ctrl.nodes)|
    ensures forall a :: 0 <= a < |ctrl.nodes| && a != start && a != body && a != accept ==>
              ctrl.nodes[a] == old(ctrl.nodes)[a]
    ensures ctrl.nodes[start] == entry && IsEpsilon(ctrl.nodes[body], accept)
    ensures ctrl.nodes[accept] == ZERO.(value := ACCEPTING, parent := start)
  {
    hide Ring;
    hide Sized;
    ghost var before := ctrl.nodes;
    var b := ctrl.nodes[body].(value := EPSILON, out1 := accept, out2 := accept);
    ctrl.nodes := ctrl.nodes[start := entry][body := b];
    ctrl.nodes := ctrl.nodes[accept := ctrl.nodes[accept].(parent := start)];
    ThreeWrites(before, start, entry, body, b, accept, before[accept].(parent := start), b);
    assert before[start := entry][body := b] == before[start := entry][body := b][body := b];
  }

  lemma ThreeWrites(n: seq<NFA>, a: Addr, x: NFA, b: Addr, y: NFA, c: Addr, z: NFA, first: NFA)
    requires a < |n| && b < |n| && c < |n| && a != b && b != c && a != c
    ensures var m := n[a := x][b := first][b := y][c := z];
            && n[a := x][b := first][b := y][c] == n[c]
            && |m| == |n| && m[a] == x && m[b] == y && m[c] == z
            && (forall i :: 0 <= i < |n| && i != a && i != b && i != c ==> m[i] == n[i])
            && (Clean(n) && x.Bare() && y.Bare() && z.Bare() ==> Clean(m))
  {
  }

  lemma KleeneHolds(n0: seq<NFA>, n1: seq<NFA>, d: set<Addr>, body: Addr, start: Addr, accept: Addr, target: Addr,
                    r: Expr)
    requires Holds(n0, body, d, r) && Rewired(n0, n1, d, body, start, accept)
    requires SameFrom(View(n0, d), n0[body].parent, target, body)
    requires IsSplit(n1[body], target, accept) && IsSplit(n1[start], accept, n0[body].parent)
    ensures Holds(n1, accept, d + {start, accept}, Star(r)) && Plain(n1, accept)
  {
    HoldsShape(n0, body, d, r);
    WrapView(n0, n1, d, body, start, accept);
    assert Plain(n1, accept);
    hide Plain;
    hide Rewired;
    hide Wraps;
    hide Fragment;
    hide Grounded;
    hide SameFrom;
    hide View;
    hide Holds;
    var g, e, s := View(n0, d), d + {start, accept}, n0[body].parent;
    StarAccepts(g, s, body, target, start, accept, r);
    WrapGrounded(g, s, body, View(n1, e), start, accept);
  }

  lemma PosclosureHolds(n0: seq<NFA>, n1: seq<NFA>, d: set<Addr>, body: Addr, start: Addr, accept: Addr,
                        target: Addr, r: Expr)
    requires Holds(n0, body, d, r) && Rewired(n0, n1, d, body, start, accept)
    requires SameFrom(View(n0, d), n0[body].parent, target, body)
    requires IsSplit(n1[body], target, accept) && IsEpsilon(n1[start], n0[body].parent)
    ensures Holds(n1, accept, d + {start, accept}, Plus(r)) && Plain(n1, accept)
  {
    HoldsShape(n0, body, d, r);
    WrapView(n0, n1, d, body, start, accept);
    assert Plain(n1, accept);
    hide Plain;
    hide Rewired;
    hide Wraps;
    hide Fragment;
    hide Grounded;
    hide SameFrom;
    hide View;
    hide Holds;
    var g, e, s := View(n0, d), d + {start, accept}, n0[body].parent;
    PlusAccepts(g, s, body, target, start, accept, r);
    WrapGrounded(g, s, body, View(n1, e), start, accept);
  }

  lemma QmarkHolds(n0: seq<NFA>, n1: seq<NFA>, d: set<Addr>, body: Addr, start: Addr, accept: Addr, r: Expr)
    requires Holds(n0, body, d, r) && Rewired(n0, n1, d, body, start, accept)
    requires IsEpsilon(n1[body], accept) && IsSplit(n1[start], accept, n0[body].parent)
    ensures Holds(n1, accept, d + {start, accept}, Opt(r)) && Plain(n1, accept)
  {
    HoldsShape(n0, body, d, r);
    WrapView(n0, n1, d, body, start, accept);
    assert Plain(n1, accept);
    hide Plain;
    hide Rewired;
    hide Wraps;
    hide Fragment;
    hide Grounded;
    hide View;
    hide Holds;
    var g, e, s := View(n0, d), d + {start, accept}, n0[body].parent;
    OptAccepts(g, s, body, start, accept, r);
    WrapGrounded(g, s, body, View(n1, e), start, accept);
  }

  lemma WrapView(n0: seq<NFA>, n1: seq<NFA>, d: set<Addr>, body: Addr, start: Addr, accept: Addr)
    requires Rewired(n0, n1, d, body, start, accept)
    ensures var g, e := View(n0, d), d + {start, accept};
            && Fresh(g, start, accept)
            && View(n1, e) == g[body := InstOf(n1[body])][start := InstOf(n1[start])][accept := Accept]
  {
  }

  /** What wrapping a fragment leaves of the rest. */
  lemma Wrapped(n0: seq<NFA>, u0: set<Addr>, n1: seq<NFA>, u1: set<Addr>, next: nat,
                d: set<Addr>, body: Addr, start: Addr, accept: Addr)
    requires Numbered(n0, u0, next) && d <= u0 && body in d && |n0| <= |n1|
    requires u1 == u0 + {start, accept} && start !in u0 && accept !in u0 && start < |n1| && accept < |n1|
    requires forall a :: a in u0 && a < |n0| && a != body ==> n1[a] == n0[a]
    requires start != accept && n1[accept].value == ACCEPTING && n1[accept].parent == start && n1[accept].id == 0
    requires !Consuming(n1[start].value) && !Consuming(n1[body].value)
    ensures Numbered(n1, u1, next) && Replaced(n0, u0, n1, u1, d, d + {start, accept})
    ensures Rewired(n0, n1, d, body, start, accept)
  {
  }

  /** Of the old fragment only the exit has changed; the new exit knows the new entry. */
  ghost predicate Rewired(n0: seq<NFA>, n1: seq<NFA>, d: set<Addr>, body: Addr, start: Addr, accept: Addr) {
    && (forall a :: a in d ==> a < |n0| && a < |n1| && (a != body ==> n1[a] == n0[a]))
    && start !in d && accept !in d && start != accept && start < |n1| && accept < |n1| && body in d
    && n1[accept].value == ACCEPTING && n1[accept].parent == start && n1[accept].id == 0
  }

  // ---------------------------------------------------------------- concatenation

  /** concatenate_nfa: the first exit is overwritten with the second entry, which is recycled. */
  method ConcatenateNfa(ctrl: NFACtrl, prev: Addr, next: Addr, ghost d1: set<Addr>, ghost s1: Shape,
                        ghost d2: set<Addr>, ghost r2: Expr) returns (accept: Addr, ghost e: set<Addr>)
    requires ctrl.Valid() && Building(ctrl.nodes, ctrl.used, ctrl.nextSeqId)
    requires d1 <= ctrl.used && (if prev == NULL then d1 == {} else Shaped(ctrl.nodes, prev, d1, s1))
    requires d2 <= ctrl.used && (if next == NULL then d2 == {} else Holds(ctrl.nodes, next, d2, r2))
    requires d1 !! d2
    modifies ctrl
    ensures ctrl.Valid() && Building(ctrl.nodes, ctrl.used, ctrl.nextSeqId)
    ensures next == NULL ==> accept == prev && e == d1 && ctrl.nodes == old(ctrl.nodes)
    ensures next != NULL && prev == NULL ==> accept == next && e == d2 && ctrl.nodes == old(ctrl.nodes)
    ensures next != NULL && prev != NULL ==> Shaped(ctrl.nodes, accept, e, CatShape(s1, r2))
    ensures Replaced(old(ctrl.nodes), old(ctrl.used), ctrl.nodes, ctrl.used, d1 + d2, e)
  {
    hide *;
    ReplacedByItself(ctrl.nodes, ctrl.used, d1 + d2);
    assert d1 + {} == d1 && {} + d2 == d2;
    if next == NULL {
      return prev, d1;
    }
    e := d1 + d2;
    if prev != NULL {
      e := Append(ctrl, prev, next, d1, s1, d2, r2);
    }
    accept := next;
  }

  method Append(ctrl: NFACtrl, prev: Addr, next: Addr, ghost d1: set<Addr>, ghost s1: Shape,
                ghost d2: set<Addr>, ghost r2: Expr) returns (ghost e: set<Addr>)
    requires ctrl.Valid() && Building(ctrl.nodes, ctrl.used, ctrl.nextSeqId) && d1 !! d2
    requires d1 <= ctrl.used && Shaped(ctrl.nodes, prev, d1, s1)
    requires d2 <= ctrl.used && Holds(ctrl.nodes, next, d2, r2)
    modifies ctrl
    ensures ctrl.Valid() && Building(ctrl.nodes, ctrl.used, ctrl.nextSeqId)
    ensures Shaped(ctrl.nodes, next, e, CatShape(s1, r2))
    ensures Replaced(old(ctrl.nodes), old(ctrl.used), ctrl.nodes, ctrl.used, d1 + d2, e)
  {
    ghost var n0, u0 := ctrl.nodes, ctrl.used;
    ShapedEnds(n0, prev, d1, s1);
    HoldsShape(n0, next, d2, r2);
    var discard := ctrl.nodes[next].parent;
    e := d1 + d2 - {discard};
    assert Clean(ctrl.nodes) && discard in u0 && discard !in {prev, next} && prev != next;
    hide *;
    Overwrite(ctrl, prev, next);
    Appended(n0, u0, ctrl.nodes, ctrl.nextSeqId, d1, prev, s1, d2, next, r2);
    ctrl.Dealloc(discard);
  }

  lemma Appended(n0: seq<NFA>, u0: set<Addr>, n1: seq<NFA>, seqId: nat, d1: set<Addr>, prev: Addr, s1: Shape,
                 d2: set<Addr>, next: Addr, r2: Expr)
    requires Building(n0, u0, seqId) && d1 <= u0 && d2 <= u0 && d1 !! d2
    requires Shaped(n0, prev, d1, s1) && Holds(n0, next, d2, r2) && Concatenated(n0, n1, prev, next) && Clean(n1)
    ensures var discard := n0[next].parent;
            var e := d1 + d2 - {discard};
            && Building(n1, u0 - {discard}, seqId) && Shaped(n1, next, e, CatShape(s1, r2))
            && Replaced(n0, u0, n1, u0 - {discard}, d1 + d2, e)
  {
    ShapedEnds(n0, prev, d1, s1);
    HoldsShape(n0, next, d2, r2);
    CatIsShaped(n0, n1, d1, prev, s1, d2, next, r2);
    hide Fragment;
    hide Holds;
    hide Shaped;
    NumberedMoved(n0, u0, n1, seqId, prev, next, n0[next].parent);
    AppendReplaced(n0, u0, n1, d1, prev, d2, next);
  }

  lemma AppendReplaced(n0: seq<NFA>, u0: set<Addr>, n1: seq<NFA>, d1: set<Addr>, prev: Addr, d2: set<Addr>, next: Addr)
    requires Concatenated(n0, n1, prev, next) && d1 <= u0 && d2 <= u0
    requires prev in d1 && next in d2 && n0[next].parent in d2
    ensures var discard := n0[next].parent;
            Replaced(n0, u0, n1, u0 - {discard}, d1 + d2, d1 + d2 - {discard})
  {
  }

  lemma ReplacedByItself(n: seq<NFA>, used: set<Addr>, d: set<Addr>)
    requires d <= used
    ensures Replaced(n, used, n, used, d, d)
  {
  }

  /** The three nodes that a concatenation writes. */
  method Overwrite(ctrl: NFACtrl, prev: Addr, next: Addr)
    requires ctrl.Valid() && Clean(ctrl.nodes) && prev < |ctrl.nodes| && next < |ctrl.nodes|
    requires ctrl.nodes[next].parent < |ctrl.nodes| && ctrl.nodes[next].parent !in {prev, next} && prev != next
    modifies ctrl`nodes
    ensures ctrl.Valid() && Clean(ctrl.nodes) && |ctrl.nodes| == |old(ctrl.nodes)|
    ensures Concatenated(old(ctrl.nodes), ctrl.nodes, prev, next)
  {
    hide Ring;
    hide Sized;
    ghost var before := ctrl.nodes;
    var discard := ctrl.nodes[next].parent;
    var tmp := ctrl.nodes[prev].parent;
    var copy, last := ctrl.nodes[discard], ctrl.nodes[next].(parent := tmp);
    var dropped := copy.(parent := discard, out1 := NULL, out2 := NULL);
    ctrl.nodes := ctrl.nodes[prev := copy];
    ctrl.nodes := ctrl.nodes[next := last];
    ctrl.nodes := ctrl.nodes[discard := dropped];
    ThreeWrites(before, prev, copy, next, last, discard, dropped, last);
    assert before[prev := copy][next := last] == before[prev := copy][next := last][next := last];
  }

  ghost predicate Concatenated(n0: seq<NFA>, n1: seq<NFA>, prev: Addr, next: Addr) {
    && prev < |n0| && next < |n0| && |n1| == |n0| && n0[next].parent < |n0|
    && n1[prev] == n0[n0[next].parent] && n1[next] == n0[next].(parent := n0[prev].parent)
    && forall a :: 0 <= a < |n0| && a != prev && a != next && a != n0[next].parent ==> n1[a] == n0[a]
  }

  lemma CatIsShaped(n0: seq<NFA>, n1: seq<NFA>, d1: set<Addr>, prev: Addr, s1: Shape,
                    d2: set<Addr>, next: Addr, r2: Expr)
    requires Shaped(n0, prev, d1, s1) && Holds(n0, next, d2, r2) && d1 !! d2 && Concatenated(n0, n1, prev, next)
    ensures Shaped(n1, next, d1 + d2 - {n0[next].parent}, CatShape(s1, r2))
  {
    var a, b, g, h := n0[prev].parent, n0[next].parent, View(n0, d1), View(n0, d2);
    var e := d1 + d2 - {b};
    ShapedEnds(n0, prev, d1, s1);
    HoldsShape(n0, next, d2, r2);
    CatView(n0, n1, d1, prev, d2, next);
    hide Fragment;
    hide View;
    CatShaped(g, a, prev, ForkAt(n0, prev), s1, h, b, next, r2);
    var rank := CatRanked(g, a, prev, SomeRank(g), h, b, next, SomeRank(h));
    hide Ranked;
    hide CatGraph;
    hide CatShape;
    hide ReadsShape;
    assert Grounded(View(n1, e));
    assert n1[next].parent == a && n1[a] == n0[a];
    assert ForkAt(n1, next) == ForkAt(n0, prev);
  }

  lemma CatView(n0: seq<NFA>, n1: seq<NFA>, d1: set<Addr>, prev: Addr, d2: set<Addr>, next: Addr)
    requires (forall a :: a in d1 + d2 ==> a < |n0|) && d1 !! d2 && Concatenated(n0, n1, prev, next)
    requires prev in d1 && next in d2 && n0[next].parent in d2 && n0[next].parent != next
    ensures View(n1, d1 + d2 - {n0[next].parent}) == CatGraph(View(n0, d1), prev, View(n0, d2), n0[next].parent)
    ensures View(n0, d1).Keys !! View(n0, d2).Keys
  {
    assert InstOf(n1[next]) == InstOf(n0[next]);
    hide InstOf;
  }

  /** The number of the recycled entry moves with it. */
  lemma NumberedMoved(n0: seq<NFA>, used: set<Addr>, n1: seq<NFA>, next: nat, prev: Addr, exit: Addr, discard: Addr)
    requires Numbered(n0, used, next) && prev in used && exit in used && discard in used && |n1| == |n0|
    requires discard == n0[exit].parent && discard != prev && discard != exit && prev != exit
    requires Concatenated(n0, n1, prev, exit)
    ensures Numbered(n1, used - {discard}, next)
  {
    forall a, b | a in used - {discard} && b in used - {discard} && a != b
                  && Consuming(n1[a].value) && Consuming(n1[b].value)
      ensures n1[a].id != n1[b].id
    {
      var x, y := if a == prev then discard else a, if b == prev then discard else b;
      assert n1[a].id == n0[x].id && n1[b].id == n0[y].id;
    }
  }

  // ---------------------------------------------------------------- alternation

  ghost predicate InRange(n: seq<NFA>, bs: seq<Addr>) {
    forall i :: 0 <= i < |bs| ==> bs[i] < |n| && n[bs[i]].parent < |n|
  }

  /** The branches, known by their exits, have different cells for entries and exits. */
  ghost predicate Apart(n: seq<NFA>, used: set<Addr>, bs: seq<Addr>) {
    && InRange(n, bs) && (forall i :: 0 <= i < |bs| ==> bs[i] in used && n[bs[i]].parent in used)
    && (forall i, j :: 0 <= i < j < |bs| ==> bs[i] != bs[j] && n[bs[i]].parent != n[bs[j]].parent)
    && (forall i, j :: 0 <= i < |bs| && 0 <= j < |bs| ==> n[bs[i]].parent != bs[j])
  }

  /** The exits of the branches that are not alternations themselves, which stay in the list ... */
  ghost function Kept(n: seq<NFA>, bs: seq<Addr>): seq<Addr>
    requires InRange(n, bs)
  {
    if bs == [] then []
    else
      var last := bs[|bs| - 1];
      Kept(n, bs[..|bs| - 1]) + if Nested(n, last) then [] else [last]
  }

  /** ... and what all of them lead to. */
  ghost function Forks(n: seq<NFA>, bs: seq<Addr>): seq<Fork<Addr>>
    requires InRange(n, bs)
  {
    seq(|bs|, i requires 0 <= i < |bs| => ForkAt(n, bs[i]))
  }

  lemma ForksFront(n: seq<NFA>, bs: seq<Addr>, i: nat)
    requires InRange(n, bs) && i < |bs|
    ensures InRange(n, bs[..i]) && InRange(n, bs[..i + 1]) && bs[..i + 1][..i] == bs[..i]
    ensures Forks(n, bs[..i + 1]) == Forks(n, bs[..i]) + [ForkAt(n, bs[i])]
    ensures Forks(n, bs[..i + 1])[..i] == Forks(n, bs[..i])
  {
  }

  /** The entries that flattening recycles. */
  ghost function Discards(n: seq<NFA>, bs: seq<Addr>): set<Addr>
    requires InRange(n, bs)
  {
    set i | 0 <= i < |bs| && Nested(n, bs[i]) :: n[bs[i]].parent
  }

  function Turned(n: NFA, z: Addr): NFA { n.(value := EPSILON, out2 := z) }

  /** The exits in t lead on to z, and nothing else in use has changed. */
  ghost predicate TurnedAt(n0: seq<NFA>, n1: seq<NFA>, used: set<Addr>, t: set<Addr>, z: Addr) {
    && |n1| == |n0|
    && forall a :: a in used && a < |n0| ==> n1[a] == if a in t then Turned(n0[a], z) else n0[a]
  }

  const NO_LIST: BranchList<Addr> := BranchList([], 0, Last)

  /** What is_nfa_tree does to one branch. */
  ghost predicate TreeStep(n0: seq<NFA>, u0: set<Addr>, b: Addr, z: Addr, found: bool, branches: BranchList<Addr>,
                           n1: seq<NFA>, u1: set<Addr>) {
    && b < |n0| && n0[b].parent < |n0| && found == Nested(n0, b)
    && if found
       then var p := n0[b].parent;
            branches == n0[p].value.branches && u1 == u0 - {p} && n1 == n0[b := Turned(n0[b], z)]
       else branches == NO_LIST && u1 == u0 && n1 == n0
  }

  /** is_nfa_tree: turns the exit of an alternation and recycles its entry. */
  method IsNfaTree(ctrl: NFACtrl, nfa: Addr, z: Addr) returns (found: bool, branches: BranchList<Addr>)
    requires ctrl.Valid() && Clean(ctrl.nodes) && nfa < |ctrl.nodes| && nfa in ctrl.used
    requires ctrl.nodes[nfa].parent < |ctrl.nodes| && ctrl.nodes[nfa].parent in ctrl.used
    requires ctrl.nodes[nfa].parent != nfa
    modifies ctrl
    ensures ctrl.Valid() && Clean(ctrl.nodes) && ctrl.nextSeqId == old(ctrl.nextSeqId)
    ensures TreeStep(old(ctrl.nodes), old(ctrl.used), nfa, z, found, branches, ctrl.nodes, ctrl.used)
  {
    hide Ring;
    hide Sized;
    var parent := ctrl.nodes[nfa].parent;
    found, branches := false, NO_LIST;
    if ctrl.nodes[parent].value.TREE? {
      found, branches := true, ctrl.nodes[parent].value.branches;
      ctrl.nodes := ctrl.nodes[nfa := ctrl.nodes[nfa].(value := EPSILON, out2 := z)];
      ctrl.Dealloc(parent);
    }
  }

  /** The exits of the branches that are alternations. */
  ghost function Trees(n: seq<NFA>, bs: seq<Addr>): set<Addr>
    requires InRange(n, bs)
  {
    set i | 0 <= i < |bs| && Nested(n, bs[i]) :: bs[i]
  }

  /** State of the transfer when the branches bs have been looked at. */
  ghost predicate Transferred(n0: seq<NFA>, u0: set<Addr>, n1: seq<NFA>, u1: set<Addr>, bs: seq<Addr>,
                              kept: seq<Addr>, subs: seq<BranchList<Addr>>, z: Addr) {
    && Apart(n0, u0, bs) && kept == Kept(n0, bs) && subs == Manys(Forks(n0, bs))
    && u1 == u0 - Discards(n0, bs) && TurnedAt(n0, n1, u0, Trees(n0, bs), z)
  }

  /** list_transfer_on_match with is_nfa_tree: takes the alternations out of the list of the branches.
      The tail is mended if one item is left, or none; else it stays at the last item, which may have been
      freed. */
  method TransferTrees(ctrl: NFACtrl, bs: seq<Addr>, z: Addr)
      returns (rest: BranchList<Addr>, subs: seq<BranchList<Addr>>)
    requires ctrl.Valid() && Clean(ctrl.nodes) && Apart(ctrl.nodes, ctrl.used, bs)
    modifies ctrl
    ensures ctrl.Valid() && Clean(ctrl.nodes) && ctrl.nextSeqId == old(ctrl.nextSeqId)
    ensures Transferred(old(ctrl.nodes), old(ctrl.used), ctrl.nodes, ctrl.used, bs, rest.items, subs, z)
    ensures rest.size == |rest.items| && rest.tail == Remaining(Forks(old(ctrl.nodes), bs)).tail
  {
    ghost var n0, u0 := ctrl.nodes, ctrl.used;
    var kept, freed := [], false;
    subs := [];
    NoneTransferred(n0, u0, bs, z);
    hide *;
    var i := 0;
    while i < |bs|
      invariant 0 <= i <= |bs|
      invariant ctrl.Valid() && Clean(ctrl.nodes) && ctrl.nextSeqId == old(ctrl.nextSeqId)
      invariant Transferred(n0, u0, ctrl.nodes, ctrl.used, bs[..i], kept, subs, z)
      invariant LastFreed(n0, bs[..i], freed)
    {
      NotYet(n0, u0, ctrl.nodes, ctrl.used, bs, i, kept, subs, z);
      ghost var n1, u1 := ctrl.nodes, ctrl.used;
      var found, sub := IsNfaTree(ctrl, bs[i], z);
      TransferStep(n0, u0, n1, u1, bs, i, kept, subs, z, found, sub, ctrl.nodes, ctrl.used);
      if found {
        subs := subs + [sub];
      } else {
        kept := kept + [bs[i]];
      }
      freed := found;
      i := i + 1;
    }
    assert bs[..|bs|] == bs;
    rest := BranchList(kept, |kept|, if |kept| < 2 || !freed then Last else Freed);
    TailLeft(n0, u0, ctrl.nodes, ctrl.used, bs, kept, subs, z, freed);
  }

  /** Whether the last of the branches has been taken out. */
  ghost predicate LastFreed(n: seq<NFA>, bs: seq<Addr>, freed: bool) {
    InRange(n, bs) && (freed <==> bs != [] && Nested(n, bs[|bs| - 1]))
  }

  lemma NoneTransferred(n: seq<NFA>, u: set<Addr>, bs: seq<Addr>, z: Addr)
    requires Apart(n, u, bs)
    ensures Transferred(n, u, n, u, bs[..0], [], [], z) && LastFreed(n, bs[..0], false)
  {
    assert u - Discards(n, bs[..0]) == u;
  }

  lemma TailLeft(n0: seq<NFA>, u0: set<Addr>, n1: seq<NFA>, u1: set<Addr>, bs: seq<Addr>,
                 kept: seq<Addr>, subs: seq<BranchList<Addr>>, z: Addr, freed: bool)
    requires Transferred(n0, u0, n1, u1, bs, kept, subs, z) && LastFreed(n0, bs, freed)
    ensures InRange(n0, bs)
    ensures Remaining(Forks(n0, bs)).tail == if |kept| < 2 || !freed then Last else Freed
  {
    KeptOnes(n0, bs);
  }

  lemma NotYet(n0: seq<NFA>, u0: set<Addr>, n1: seq<NFA>, u1: set<Addr>, bs: seq<Addr>, i: nat,
               kept: seq<Addr>, subs: seq<BranchList<Addr>>, z: Addr)
    requires Apart(n0, u0, bs) && i < |bs| && Transferred(n0, u0, n1, u1, bs[..i], kept, subs, z)
    ensures bs[i] < |n1| && n1[bs[i]] == n0[bs[i]] && bs[i] in u1
    ensures var p := n0[bs[i]].parent; p < |n1| && n1[p] == n0[p] && p in u1 && p != bs[i]
  {
  }

  lemma TransferStep(n0: seq<NFA>, u0: set<Addr>, n1: seq<NFA>, u1: set<Addr>, bs: seq<Addr>, i: nat,
                     kept: seq<Addr>, subs: seq<BranchList<Addr>>, z: Addr,
                     found: bool, sub: BranchList<Addr>, n2: seq<NFA>, u2: set<Addr>)
    requires Apart(n0, u0, bs) && i < |bs| && Transferred(n0, u0, n1, u1, bs[..i], kept, subs, z)
    requires TreeStep(n1, u1, bs[i], z, found, sub, n2, u2)
    ensures Transferred(n0, u0, n2, u2, bs[..i + 1], if found then kept else kept + [bs[i]],
                        if found then subs + [sub] else subs, z)
    ensures LastFreed(n0, bs[..i + 1], found)
  {
    var next := bs[..i + 1];
    ApartFront(n0, u0, bs, i);
    KeptStep(n0, bs, i);
    TurnedStep(n0, u0, n1, u1, bs, i, kept, subs, z, found, sub, n2, u2);
    assert next[i] == bs[i];
    hide Kept;
    hide Forks;
    hide Manys;
    hide Apart;
    hide InRange;
    hide Discards;
    hide Trees;
    hide Nested;
    hide ForkAt;
    hide TurnedAt;
    hide TreeStep;
  }

  lemma ApartFront(n: seq<NFA>, u: set<Addr>, bs: seq<Addr>, i: nat)
    requires Apart(n, u, bs) && i < |bs|
    ensures Apart(n, u, bs[..i]) && Apart(n, u, bs[..i + 1]) && InRange(n, bs)
  {
  }

  /** One branch more has been looked at. */
  lemma TurnedStep(n0: seq<NFA>, u0: set<Addr>, n1: seq<NFA>, u1: set<Addr>, bs: seq<Addr>, i: nat,
                   kept: seq<Addr>, subs: seq<BranchList<Addr>>, z: Addr,
                   found: bool, sub: BranchList<Addr>, n2: seq<NFA>, u2: set<Addr>)
    requires Apart(n0, u0, bs) && i < |bs| && Transferred(n0, u0, n1, u1, bs[..i], kept, subs, z)
    requires TreeStep(n1, u1, bs[i], z, found, sub, n2, u2) && InRange(n0, bs) && InRange(n0, bs[..i + 1])
    ensures u2 == u0 - Discards(n0, bs[..i + 1]) && TurnedAt(n0, n2, u0, Trees(n0, bs[..i + 1]), z)
    ensures found == Nested(n0, bs[i]) && (found ==> Many(sub) == ForkAt(n0, bs[i]))
  {
    NotYet(n0, u0, n1, u1, bs, i, kept, subs, z);
    SetStep(n0, bs, i);
    var b := bs[i];
    assert b in u0 && Nested(n1, b) == Nested(n0, b);
    hide Kept;
    hide Forks;
    hide Manys;
    hide Apart;
    hide InRange;
    hide Discards;
    hide Trees;
  }

  lemma KeptStep(n: seq<NFA>, bs: seq<Addr>, i: nat)
    requires InRange(n, bs) && i < |bs|
    ensures InRange(n, bs[..i]) && InRange(n, bs[..i + 1])
    ensures Kept(n, bs[..i + 1]) == if Nested(n, bs[i]) then Kept(n, bs[..i]) else Kept(n, bs[..i]) + [bs[i]]
    ensures Manys(Forks(n, bs[..i + 1]))
         == if Nested(n, bs[i]) then Manys(Forks(n, bs[..i])) + [ForkAt(n, bs[i]).list]
            else Manys(Forks(n, bs[..i]))
  {
    ForksFront(n, bs, i);
  }

  lemma SetStep(n: seq<NFA>, bs: seq<Addr>, i: nat)
    requires InRange(n, bs) && i < |bs|
    ensures Trees(n, bs[..i + 1]) == Trees(n, bs[..i]) + if Nested(n, bs[i]) then {bs[i]} else {}
    ensures Discards(n, bs[..i + 1]) == Discards(n, bs[..i])
                                              + if Nested(n, bs[i]) then {n[bs[i]].parent} else {}
  {
    assert bs[..i + 1][..i] == bs[..i];
  }

  ghost function Parents(n: seq<NFA>, bs: seq<Addr>): seq<Addr>
    requires forall i :: 0 <= i < |bs| ==> bs[i] < |n|
  {
    seq(|bs|, i requires 0 <= i < |bs| => n[bs[i]].parent)
  }

  ghost function Elements(bs: seq<Addr>): set<Addr> { set b | b in bs }

  /** The loop over the remaining branches: turns their exits and puts their entries in the list. */
  method TurnBranches(ctrl: NFACtrl, bs: seq<Addr>, z: Addr) returns (heads: seq<Addr>)
    requires ctrl.Valid() && Clean(ctrl.nodes) && forall i :: 0 <= i < |bs| ==> bs[i] < |ctrl.nodes|
    modifies ctrl`nodes
    ensures ctrl.Valid() && Clean(ctrl.nodes)
    ensures |ctrl.nodes| == |old(ctrl.nodes)| && heads == Parents(old(ctrl.nodes), bs)
    ensures TurnedAt(old(ctrl.nodes), ctrl.nodes, ctrl.used, Elements(bs), z)
  {
    hide Ring;
    hide Sized;
    heads := [];
    ghost var n0 := ctrl.nodes;
    for i := 0 to |bs|
      invariant ctrl.Valid() && Clean(ctrl.nodes)
      invariant |ctrl.nodes| == |n0| && heads == Parents(n0, bs[..i])
      invariant forall a :: 0 <= a < |n0| ==> ctrl.nodes[a] == if a in bs[..i] then Turned(n0[a], z) else n0[a]
    {
      var b := ctrl.nodes[bs[i]].(value := EPSILON, out2 := z);
      ctrl.nodes := ctrl.nodes[bs[i] := b];
      heads := heads + [b.parent];
      assert bs[..i + 1] == bs[..i] + [bs[i]];
    }
    assert bs[..|bs|] == bs;
  }

  /** Disjoint fragments, one for each shape. */
  ghost predicate AllShaped(n: seq<NFA>, used: set<Addr>, bs: seq<Addr>, ds: seq<set<Addr>>, ss: seq<Shape>) {
    && |bs| == |ds| == |ss|
    && (forall i :: 0 <= i < |bs| ==> ds[i] <= used && Shaped(n, bs[i], ds[i], ss[i]))
    && (forall i, j :: 0 <= i < j < |bs| ==> ds[i] !! ds[j])
  }

  ghost function Cells(ds: seq<set<Addr>>): set<Addr> { set i, a | 0 <= i < |ds| && a in ds[i] :: a }

  lemma HoldApart(n: seq<NFA>, used: set<Addr>, bs: seq<Addr>, ds: seq<set<Addr>>, ss: seq<Shape>)
    requires AllShaped(n, used, bs, ds, ss)
    ensures Apart(n, used, bs)
  {
    forall i | 0 <= i < |bs|
      ensures bs[i] < |n| && n[bs[i]].parent < |n| && bs[i] in ds[i] && n[bs[i]].parent in ds[i] && ds[i] <= used
      ensures n[bs[i]].parent != bs[i]
    {
      ShapedEnds(n, bs[i], ds[i], ss[i]);
    }
    hide Shaped;
  }

  ghost function BranchAt(n: seq<NFA>, b: Addr, d: set<Addr>): Branch
    requires b < |n| && forall a :: a in d ==> a < |n|
  {
    Branch(View(n, d), n[b].parent, b)
  }

  /** The fragments as branches of NfaConstruct. */
  ghost function BranchSeq(n: seq<NFA>, bs: seq<Addr>, ds: seq<set<Addr>>): (r: seq<Branch>)
    requires |bs| == |ds|
    requires forall i :: 0 <= i < |bs| ==> bs[i] < |n| && forall a :: a in ds[i] ==> a < |n|
    ensures |r| == |bs| && forall i :: 0 <= i < |bs| ==> r[i] == BranchAt(n, bs[i], ds[i])
  {
    seq(|bs|, i requires 0 <= i < |bs| => BranchAt(n, bs[i], ds[i]))
  }

  lemma {:induction false} KeptFrom(n: seq<NFA>, bs: seq<Addr>)
    requires InRange(n, bs)
    ensures Elements(Kept(n, bs)) + Trees(n, bs) == Elements(bs)
  {
    if bs != [] {
      var m := |bs| - 1;
      var front, last := bs[..m], bs[m];
      assert InRange(n, front) && bs[..m + 1] == bs == front + [last];
      KeptFrom(n, front);
      SetStep(n, bs, m);
      KeptStep(n, bs, m);
      hide *;
      ElementsMore(front, last);
      ElementsMore(Kept(n, front), last);
    }
  }

  lemma ElementsMore(bs: seq<Addr>, b: Addr)
    ensures Elements(bs + [b]) == Elements(bs) + {b}
  {
  }

  lemma KeptIn(n: seq<NFA>, bs: seq<Addr>)
    requires InRange(n, bs)
    ensures forall i :: 0 <= i < |Kept(n, bs)| ==> Kept(n, bs)[i] in Elements(bs)
    ensures forall i :: 0 <= i < |Kept(n, bs)| ==> Kept(n, bs)[i] < |n|
  {
    KeptFrom(n, bs);
    var k := Kept(n, bs);
    forall i | 0 <= i < |k| ensures k[i] in Elements(bs) {
      assert k[i] in Elements(k);
    }
  }

  /** The entries of the branches that stay are the heads that the list keeps. */
  lemma {:induction false} KeptOnes(n: seq<NFA>, bs: seq<Addr>)
    requires InRange(n, bs)
    ensures forall i :: 0 <= i < |Kept(n, bs)| ==> Kept(n, bs)[i] < |n|
    ensures Parents(n, Kept(n, bs)) == Ones(Forks(n, bs))
  {
    if bs == [] {
      assert Forks(n, bs) == [];
    } else {
      var m := |bs| - 1;
      KeptOnes(n, bs[..m]);
      ForksFront(n, bs, m);
      assert bs[..m + 1] == bs;
    }
  }

  /** A fragment as a branch. */
  lemma BranchFacts(n: seq<NFA>, b: Addr, d: set<Addr>, s: Shape)
    requires Shaped(n, b, d, s)
    ensures b < |n| && n[b].parent < |n| && b in d && n[b].parent in d && n[b].parent != b
    ensures forall a :: a in d ==> a < |n|
    ensures var br := BranchAt(n, b, d);
            && br.Valid() && Grounded(br.g) && br.g.Keys == d
            && Forked(br, ForkAt(n, b)) && Alike(br.g, br.t, ForkAt(n, b), s)
            && br.Body().Keys == d - (if Nested(n, b) then {n[b].parent} else {})
            && forall a :: a in br.Body() ==> br.Body()[a] == InstOf(n[a])
  {
    ShapedEnds(n, b, d, s);
    BranchBody(n, b, d);
    hide View;
    hide Fragment;
    hide Nested;
    hide Grounded;
    hide InstOf;
  }

  lemma BranchBody(n: seq<NFA>, b: Addr, d: set<Addr>)
    requires b < |n| && n[b].parent in d && (forall a :: a in d ==> a < |n|)
    requires Fragment(View(n, d), n[b].parent, b)
    ensures var br := BranchAt(n, b, d);
            && br.g.Keys == d
            && br.Body().Keys == d - (if Nested(n, b) then {n[b].parent} else {})
            && forall a :: a in br.Body() ==> br.Body()[a] == InstOf(n[a])
  {
    ViewIs(n, d);
    hide View;
    BranchEntry(n, b, d);
    hide Fragment;
    hide InstOf;
  }

  /** The entry of a branch, as a node and as an instruction. */
  lemma BranchEntry(n: seq<NFA>, b: Addr, d: set<Addr>)
    requires b < |n| && n[b].parent in d && (forall a :: a in d ==> a < |n|)
    requires Fragment(View(n, d), n[b].parent, b)
    ensures n[b].parent in View(n, d) && (View(n, d)[n[b].parent].Tree? <==> Nested(n, b))
  {
    ViewIs(n, d);
    hide View;
    hide Fragment;
  }

  /** The cells of an alternation, whose flattened branches have lost their entries. */
  ghost predicate Joined(n0: seq<NFA>, u0: set<Addr>, n1: seq<NFA>, bs: seq<Addr>, ds: seq<set<Addr>>,
                         start: Addr, z: Addr)
    requires Apart(n0, u0, bs)
  {
    && |bs| == |ds| && start !in u0 && z !in u0 && start != z && start < |n1| && z < |n1| && Cells(ds) <= u0
    && (forall a :: a in Cells(ds) - Discards(n0, bs) ==>
          a < |n0| && a < |n1| && n1[a] == if a in Elements(bs) then Turned(n0[a], z) else n0[a])
    && n1[start].value == TREE(Gathered(Forks(n0, bs)))
    && n1[z].value == ACCEPTING && n1[z].parent == start && n1[z].id == 0
  }

  /** The branches br are the fragments in the cells ds. */
  ghost predicate Matched(n: seq<NFA>, u: set<Addr>, bs: seq<Addr>, ds: seq<set<Addr>>, br: seq<Branch>)
    requires Apart(n, u, bs)
  {
    && |br| == |ds| == |bs|
    && (forall i :: 0 <= i < |bs| ==> br[i].Valid())
    && (forall i :: 0 <= i < |bs| ==> n[bs[i]].parent in ds[i] && bs[i] in ds[i] && br[i].t == bs[i])
    && (forall i :: 0 <= i < |bs| ==>
          br[i].Body().Keys == ds[i] - (if Nested(n, bs[i]) then {n[bs[i]].parent} else {}))
    && (forall i, j :: 0 <= i < j < |bs| ==> ds[i] !! ds[j])
  }

  lemma MatchedBodies(n: seq<NFA>, u: set<Addr>, bs: seq<Addr>, ds: seq<set<Addr>>, br: seq<Branch>)
    requires Apart(n, u, bs) && Matched(n, u, bs, ds, br)
    ensures Bodies(br) == Cells(ds) - Discards(n, bs)
  {
    hide Fragment;
    forall a | a in Bodies(br) ensures a in Cells(ds) && a !in Discards(n, bs) {
      var i := BranchOf(br, a);
      assert a in br[i].Body().Keys && a in ds[i];
      forall j | 0 <= j < |bs| && Nested(n, bs[j]) ensures n[bs[j]].parent != a {
        assert n[bs[j]].parent in ds[j];
      }
    }
    forall a | a in Cells(ds) && a !in Discards(n, bs) ensures a in Bodies(br) {
      var i :| 0 <= i < |ds| && a in ds[i];
      assert a in br[i].Body().Keys;
    }
  }

  /** The branches consist of nodes in n. */
  ghost predicate Instructs(n: seq<NFA>, br: seq<Branch>) {
    forall i :: 0 <= i < |br| ==>
      br[i].Valid() && forall a :: a in br[i].Body() ==> a < |n| && br[i].Body()[a] == InstOf(n[a])
  }

  lemma BranchesMatch(n: seq<NFA>, u: set<Addr>, bs: seq<Addr>, ds: seq<set<Addr>>, ss: seq<Shape>)
      returns (br: seq<Branch>)
    requires AllShaped(n, u, bs, ds, ss) && Apart(n, u, bs)
    ensures Matched(n, u, bs, ds, br) && SoundBranches(br) && AllForked(br, Forks(n, bs))
    ensures forall i :: 0 <= i < |bs| ==> Alike(br[i].g, br[i].t, Forks(n, bs)[i], ss[i])
    ensures Instructs(n, br)
  {
    forall i | 0 <= i < |bs| ensures bs[i] < |n| && forall a :: a in ds[i] ==> a < |n| {
      BranchFacts(n, bs[i], ds[i], ss[i]);
    }
    br := BranchSeq(n, bs, ds);
    var xs := Forks(n, bs);
    forall i | 0 <= i < |bs|
      ensures br[i].Valid() && n[bs[i]].parent in ds[i] && bs[i] in ds[i]
      ensures br[i].Body().Keys == ds[i] - (if Nested(n, bs[i]) then {n[bs[i]].parent} else {})
      ensures Grounded(br[i].g) && br[i].g.Keys == ds[i] && br[i].t == bs[i]
      ensures Forked(br[i], xs[i]) && Alike(br[i].g, br[i].t, xs[i], ss[i])
      ensures forall a :: a in br[i].Body() ==> a < |n| && br[i].Body()[a] == InstOf(n[a])
    {
      BranchFacts(n, bs[i], ds[i], ss[i]);
    }
    hide Fragment;
    hide Shaped;
    hide BranchAt;
    hide InstOf;
    hide Forked;
    hide Alike;
    hide Grounded;
  }

  lemma AltIsShaped(n0: seq<NFA>, u0: set<Addr>, n1: seq<NFA>, bs: seq<Addr>, ds: seq<set<Addr>>, ss: seq<Shape>,
                    start: Addr, z: Addr)
    requires |bs| >= 2 && AllShaped(n0, u0, bs, ds, ss) && Apart(n0, u0, bs)
    requires Joined(n0, u0, n1, bs, ds, start, z)
    ensures Shaped(n1, z, Cells(ds) - Discards(n0, bs) + {start, z}, AltShape(ss))
  {
    var e, xs := Cells(ds) - Discards(n0, bs) + {start, z}, Forks(n0, bs);
    JoinedView(n0, u0, n1, bs, ds, start, z);
    var k := View(n1, e);
    var br := JoinedAlternates(n0, u0, n1, bs, ds, ss, start, z);
    assert |ss| == |bs|;
    hide *;
    AltShaped(br, xs, ss, k, start, z);
    AltRanked(br, xs, k, start, z);
    ShapedNow(n1, z, e, AltShape(ss));
  }

  lemma ShapedNow(n: seq<NFA>, accept: Addr, d: set<Addr>, s: Shape)
    requires (forall a :: a in d ==> a < |n|) && accept in d && n[accept].id == 0 && n[accept].parent in d
    requires ReadsShape(View(n, d), n[accept].parent, accept, ForkAt(n, accept), s) && Grounded(View(n, d))
    ensures Shaped(n, accept, d, s)
  {
  }

  lemma JoinedAlternates(n0: seq<NFA>, u0: set<Addr>, n1: seq<NFA>, bs: seq<Addr>, ds: seq<set<Addr>>,
                         ss: seq<Shape>, start: Addr, z: Addr) returns (br: seq<Branch>)
    requires bs != [] && AllShaped(n0, u0, bs, ds, ss) && Apart(n0, u0, bs) && Joined(n0, u0, n1, bs, ds, start, z)
    ensures var e := Cells(ds) - Discards(n0, bs) + {start, z};
            && (forall a :: a in e ==> a < |n1|)
            && Alternates(br, Forks(n0, bs), View(n1, e), start, z)
    ensures |br| == |bs| == |ss| && SoundBranches(br)
    ensures forall i :: 0 <= i < |bs| ==> Alike(br[i].g, br[i].t, Forks(n0, bs)[i], ss[i])
  {
    var e := Cells(ds) - Discards(n0, bs) + {start, z};
    JoinedView(n0, u0, n1, bs, ds, start, z);
    br := BranchesMatch(n0, u0, bs, ds, ss);
    MatchedBodies(n0, u0, bs, ds, br);
    BranchesPlaced(n0, u0, n1, bs, ds, start, z, br, e);
    assert start != z && |br| == |bs| == |ss| && AllForked(br, Forks(n0, bs));
    hide Apart;
    hide AllShaped;
    hide SoundBranches;
    hide Alike;
    hide Matched;
    hide Joined;
    hide Discards;
    hide Cells;
    hide Bodies;
    hide AllForked;
    hide AllPlaced;
    hide View;
    hide Forks;
    hide Gathered;
    hide Seen;
    hide Instructs;
  }

  lemma BranchesPlaced(n0: seq<NFA>, u0: set<Addr>, n1: seq<NFA>, bs: seq<Addr>, ds: seq<set<Addr>>,
                       start: Addr, z: Addr, br: seq<Branch>, e: set<Addr>)
    requires Apart(n0, u0, bs) && Joined(n0, u0, n1, bs, ds, start, z) && Matched(n0, u0, bs, ds, br)
    requires Instructs(n0, br) && e == Cells(ds) - Discards(n0, bs) + {start, z} && forall a :: a in e ==> a < |n1|
    ensures AllPlaced(br, View(n1, e), start, z)
  {
    MatchedBodies(n0, u0, bs, ds, br);
    JoinedView(n0, u0, n1, bs, ds, start, z);
    forall i | 0 <= i < |br| ensures br[i].Valid() && Placed(br[i], View(n1, e), z) && start !in br[i].Body() {
      JoinedAt(n0, u0, n1, bs, ds, start, z, br, i);
      assert z in e && n1[z].value == ACCEPTING;
      hide Apart;
      hide Joined;
      hide Matched;
      hide Bodies;
      hide Discards;
      hide Cells;
      PlacedHere(br[i], n0, n1, e, z);
    }
  }

  lemma JoinedView(n0: seq<NFA>, u0: set<Addr>, n1: seq<NFA>, bs: seq<Addr>, ds: seq<set<Addr>>, start: Addr, z: Addr)
    requires Apart(n0, u0, bs) && Joined(n0, u0, n1, bs, ds, start, z)
    ensures var e := Cells(ds) - Discards(n0, bs) + {start, z};
            && (forall a :: a in e ==> a < |n1|) && View(n1, e).Keys == e && n1[z].parent == start && n1[z].id == 0
            && View(n1, e)[z] == Accept && View(n1, e)[start] == Tree(Seen(Gathered(Forks(n0, bs))))
            && ForkAt(n1, z) == Many(Gathered(Forks(n0, bs)))
  {
    var e := Cells(ds) - Discards(n0, bs) + {start, z};
    hide Discards;
    hide Cells;
    hide Apart;
    hide Gathered;
    hide Seen;
    ViewIs(n1, e);
  }

  lemma JoinedAt(n0: seq<NFA>, u0: set<Addr>, n1: seq<NFA>, bs: seq<Addr>, ds: seq<set<Addr>>,
                 start: Addr, z: Addr, br: seq<Branch>, i: nat)
    requires Apart(n0, u0, bs) && Joined(n0, u0, n1, bs, ds, start, z) && Matched(n0, u0, bs, ds, br) && i < |br|
    requires Bodies(br) == Cells(ds) - Discards(n0, bs)
    ensures br[i].Valid() && br[i].Body().Keys <= Bodies(br) && br[i].t in br[i].Body()
    ensures start !in br[i].Body() && z !in br[i].Body()
    ensures forall a :: a in br[i].Body() ==> a < |n0| && a < |n1|
    ensures forall a :: a in br[i].Body() ==> n1[a] == if a == br[i].t then Turned(n0[a], z) else n0[a]
  {
    MatchedAt(n0, u0, bs, ds, br, i);
    hide Discards;
    hide Bodies;
    hide Gathered;
    hide Forks;
    hide Apart;
    hide Matched;
    hide Fragment;
    hide Elements;
    hide Cells;
  }

  lemma MatchedAt(n: seq<NFA>, u: set<Addr>, bs: seq<Addr>, ds: seq<set<Addr>>, br: seq<Branch>, i: nat)
    requires Apart(n, u, bs) && Matched(n, u, bs, ds, br) && i < |br|
    ensures br[i].Valid() && br[i].Body().Keys <= Bodies(br) && br[i].t in br[i].Body()
    ensures forall a :: a in br[i].Body() ==> (a in Elements(bs) <==> a == br[i].t)
  {
    var b := br[i];
    BodyClosed(b);
    assert b.t in b.Body() && b.t in Elements(bs);
    assert b.Body().Keys <= ds[i];
    assert forall j :: 0 <= j < |bs| && j != i ==> bs[j] in ds[j] && bs[j] !in ds[i];
    hide Apart;
    hide Fragment;
    forall a | a in b.Body() ensures a in Bodies(br) && (a != b.t ==> a !in Elements(bs)) {
      assert a in b.Body().Keys && a in ds[i];
    }
  }

  lemma PlacedHere(b: Branch, n0: seq<NFA>, n1: seq<NFA>, e: set<Addr>, z: Addr)
    requires b.Valid() && b.Body().Keys <= e && (forall a :: a in e ==> a < |n1|) && b.t in b.Body()
    requires forall a :: a in b.Body() ==> a < |n0| && b.Body()[a] == InstOf(n0[a])
    requires forall a :: a in b.Body() && a != b.t ==> n1[a] == n0[a]
    requires n1[b.t] == Turned(n0[b.t], z) && z in e && z !in b.Body() && n1[z].value == ACCEPTING
    ensures Placed(b, View(n1, e), z)
  {
    hide Fragment;
  }

  lemma ShapedKept(n0: seq<NFA>, n1: seq<NFA>, b: Addr, d: set<Addr>, s: Shape)
    requires Shaped(n0, b, d, s) && forall a :: a in d && a < |n0| ==> a < |n1| && n1[a] == n0[a]
    ensures Shaped(n1, b, d, s)
  {
    ShapedEnds(n0, b, d, s);
    ViewIs(n0, d);
    ViewIs(n1, d);
    assert View(n1, d) == View(n0, d);
    hide ReadsShape;
  }

  lemma AllShapedKept(n0: seq<NFA>, n1: seq<NFA>, u0: set<Addr>, u1: set<Addr>, bs: seq<Addr>, ds: seq<set<Addr>>,
                      ss: seq<Shape>)
    requires AllShaped(n0, u0, bs, ds, ss) && u0 <= u1
    requires forall i, a :: 0 <= i < |ds| && a in ds[i] && a < |n0| ==> a < |n1| && n1[a] == n0[a]
    ensures AllShaped(n1, u1, bs, ds, ss)
  {
    forall i | 0 <= i < |bs| ensures Shaped(n1, bs[i], ds[i], ss[i]) {
      ShapedKept(n0, n1, bs[i], ds[i], ss[i]);
    }
    hide Shaped;
  }

  /** After the transfer and the loop, all exits lead on and the list holds the heads that it keeps. */
  lemma AllTurned(n1: seq<NFA>, u1: set<Addr>, n2: seq<NFA>, u2: set<Addr>, n3: seq<NFA>, bs: seq<Addr>,
                  kept: seq<Addr>, subs: seq<BranchList<Addr>>, heads: seq<Addr>, z: Addr)
    requires Transferred(n1, u1, n2, u2, bs, kept, subs, z)
    requires forall i :: 0 <= i < |kept| ==> kept[i] < |n2|
    requires TurnedAt(n2, n3, u2, Elements(kept), z) && heads == Parents(n2, kept)
    ensures u2 == u1 - Discards(n1, bs) && TurnedAt(n1, n3, u2, Elements(bs), z)
    ensures |heads| == |kept| && heads == Ones(Forks(n1, bs)) && subs == Manys(Forks(n1, bs))
  {
    KeptFrom(n1, bs);
    KeptIn(n1, bs);
    KeptOnes(n1, bs);
    assert heads == Parents(n1, kept) by {
      forall i | 0 <= i < |kept| ensures n2[kept[i]].parent == n1[kept[i]].parent {
        assert kept[i] in u1;
      }
    }
    hide Discards;
    hide Kept;
    hide Forks;
    forall a | a in u2 && a < |n1| ensures n3[a] == if a in Elements(bs) then Turned(n1[a], z) else n1[a] {
      assert a in u1;
      assert a in Elements(bs) <==> a in Elements(kept) || a in Trees(n1, bs);
    }
  }

  /** A list of one branch is that branch. */
  lemma SingleBranch(n: seq<NFA>, used: set<Addr>, bs: seq<Addr>, ds: seq<set<Addr>>, ss: seq<Shape>)
    requires AllShaped(n, used, bs, ds, ss) && |bs| == 1
    ensures Shaped(n, bs[0], ds[0], AltShape(ss)) && Replaced(n, used, n, used, Cells(ds), ds[0])
  {
    assert Cells(ds) == ds[0];
    ReplacedByItself(n, used, ds[0]);
  }

  /** new_alternation_nfa: alternations among the branches are flattened into the new one. */
  method NewAlternationNfa(ctrl: NFACtrl, bs: seq<Addr>, ghost ds: seq<set<Addr>>, ghost ss: seq<Shape>)
      returns (accept: Addr, ghost e: set<Addr>)
    requires ctrl.Valid() && Building(ctrl.nodes, ctrl.used, ctrl.nextSeqId)
    requires bs != [] && AllShaped(ctrl.nodes, ctrl.used, bs, ds, ss)
    modifies ctrl
    ensures ctrl.Valid() && Building(ctrl.nodes, ctrl.used, ctrl.nextSeqId)
    ensures Shaped(ctrl.nodes, accept, e, AltShape(ss))
    ensures Replaced(old(ctrl.nodes), old(ctrl.used), ctrl.nodes, ctrl.used, Cells(ds), e)
  {
    if |bs| < 2 {
      SingleBranch(ctrl.nodes, ctrl.used, bs, ds, ss);
      return bs[0], ds[0];
    }
    ghost var n0, u0 := ctrl.nodes, ctrl.used;
    hide *;
    var start;
    start, accept := NewTree(ctrl, bs, ds, ss);
    ghost var n1, u1 := ctrl.nodes, ctrl.used;
    Flatten(ctrl, bs, start, accept);
    e := Alternated(n0, u0, n1, u1, ctrl.nodes, ctrl.used, bs, ds, ss, start, accept, ctrl.nextSeqId);
  }

  /** The new entry, with the list of the branches, and exit. */
  method NewTree(ctrl: NFACtrl, bs: seq<Addr>, ghost ds: seq<set<Addr>>, ghost ss: seq<Shape>)
      returns (start: Addr, accept: Addr)
    requires ctrl.Valid() && Building(ctrl.nodes, ctrl.used, ctrl.nextSeqId)
    requires AllShaped(ctrl.nodes, ctrl.used, bs, ds, ss)
    modifies ctrl
    ensures ctrl.Valid() && Clean(ctrl.nodes) && ctrl.nextSeqId == old(ctrl.nextSeqId)
    ensures NewPair(old(ctrl.nodes), old(ctrl.used), ctrl.nodes, ctrl.used, start, accept)
    ensures Apart(ctrl.nodes, ctrl.used, bs) && AllShaped(ctrl.nodes, old(ctrl.used), bs, ds, ss)
  {
    hide Ring;
    hide Sized;
    hide Numbered;
    hide AllShaped;
    hide Apart;
    ghost var n0, u0 := ctrl.nodes, ctrl.used;
    start := NewNfa(ctrl, TREE(BranchList(bs, |bs|, Last)));
    accept := NewNfa(ctrl, ACCEPTING);
    ctrl.nodes := ctrl.nodes[accept := ctrl.nodes[accept].(parent := accept)];
    AllShapedNow(n0, ctrl.nodes, u0, ctrl.used, bs, ds, ss);
  }

  lemma AllShapedNow(n0: seq<NFA>, n1: seq<NFA>, u0: set<Addr>, u1: set<Addr>, bs: seq<Addr>, ds: seq<set<Addr>>,
                   ss: seq<Shape>)
    requires AllShaped(n0, u0, bs, ds, ss) && u0 <= u1
    requires forall a :: a in u0 ==> a < |n0| && a < |n1| && n1[a] == n0[a]
    ensures AllShaped(n1, u0, bs, ds, ss) && Apart(n1, u1, bs)
  {
    AllShapedKept(n0, n1, u0, u0, bs, ds, ss);
    AllShapedKept(n0, n1, u0, u1, bs, ds, ss);
    HoldApart(n1, u1, bs, ds, ss);
  }

  /** Two new cells in use: an entry with a list, and an exit. */
  ghost predicate NewPair(n0: seq<NFA>, u0: set<Addr>, n1: seq<NFA>, u1: set<Addr>, start: Addr, z: Addr) {
    && |n0| <= |n1| && u1 == u0 + {start, z} && start !in u0 && z !in u0 && start != z && start < |n1| && z < |n1|
    && n1[z].value == ACCEPTING && n1[z].id == 0 && n1[z].parent == z && n1[start].value.TREE?
    && forall a :: a in u0 ==> a < |n0| && n1[a] == n0[a]
  }

  /** The branches have become one list of heads below start, and all lead on to z. */
  ghost predicate Flattened(n1: seq<NFA>, u1: set<Addr>, n2: seq<NFA>, u2: set<Addr>, bs: seq<Addr>, start: Addr,
                            z: Addr) {
    && InRange(n1, bs) && |n2| == |n1| && u2 == u1 - Discards(n1, bs) && start < |n1| && z < |n1|
    && (forall a :: a in u2 && a < |n1| && a != start && a != z ==>
          n2[a] == if a in Elements(bs) then Turned(n1[a], z) else n1[a])
    && n2[start].value == TREE(Gathered(Forks(n1, bs)))
    && n2[z].value == ACCEPTING && n2[z].parent == start && n2[z].id == 0
  }

  method Flatten(ctrl: NFACtrl, bs: seq<Addr>, start: Addr, accept: Addr)
    requires ctrl.Valid() && Clean(ctrl.nodes) && Apart(ctrl.nodes, ctrl.used, bs)
    requires start < |ctrl.nodes| && accept < |ctrl.nodes| && start != accept
    requires ctrl.nodes[accept].value == ACCEPTING && ctrl.nodes[accept].parent == accept && ctrl.nodes[accept].id == 0
    requires accept in ctrl.used && accept !in bs && forall i :: 0 <= i < |bs| ==> ctrl.nodes[bs[i]].parent != accept
    modifies ctrl
    ensures ctrl.Valid() && Clean(ctrl.nodes) && ctrl.nextSeqId == old(ctrl.nextSeqId)
    ensures Flattened(old(ctrl.nodes), old(ctrl.used), ctrl.nodes, ctrl.used, bs, start, accept)
  {
    ghost var n1, u1 := ctrl.nodes, ctrl.used;
    assert InRange(n1, bs);
    hide *;
    var branches := Collect(ctrl, bs, ctrl.nodes[accept].parent);
    ghost var n3, u3 := ctrl.nodes, ctrl.used;
    ExitUntouched(n1, u1, n3, u3, bs, accept);
    LinkTree(ctrl, start, accept, branches);
    ghost var n4 := ctrl.nodes;
    FlattenedNow(n1, u1, n3, u3, n4, bs, start, accept, branches);
    assert old(ctrl.nodes) == n1 && old(ctrl.used) == u1 && ctrl.used == u3;
  }

  /** Turns all exits and makes one list of what the branches lead to. */
  method Collect(ctrl: NFACtrl, bs: seq<Addr>, z: Addr) returns (branches: BranchList<Addr>)
    requires ctrl.Valid() && Clean(ctrl.nodes) && Apart(ctrl.nodes, ctrl.used, bs) && InRange(ctrl.nodes, bs)
    modifies ctrl
    ensures ctrl.Valid() && Clean(ctrl.nodes) && ctrl.nextSeqId == old(ctrl.nextSeqId)
    ensures ctrl.used == old(ctrl.used) - Discards(old(ctrl.nodes), bs)
    ensures TurnedAt(old(ctrl.nodes), ctrl.nodes, ctrl.used, Elements(bs), z)
    ensures branches == Gathered(Forks(old(ctrl.nodes), bs))
  {
    ghost var n1, u1 := ctrl.nodes, ctrl.used;
    hide *;
    var rest, subs := TransferTrees(ctrl, bs, z);
    TransferredKept(n1, u1, ctrl.nodes, ctrl.used, bs, rest.items, subs, z);
    ghost var n2, u2 := ctrl.nodes, ctrl.used;
    var heads := TurnBranches(ctrl, rest.items, z);
    ghost var n3 := ctrl.nodes;
    AllTurned(n1, u1, n2, u2, n3, bs, rest.items, subs, heads, z);
    branches := JoinLists(BranchList(heads, rest.size, rest.tail), subs);
    ListGathered(n1, bs, rest, heads, subs, branches);
    assert old(ctrl.nodes) == n1 && old(ctrl.used) == u1 && ctrl.used == u2 && ctrl.nodes == n3;
  }

  /** The loop that transfers the lists of the nested alternations. */
  method JoinLists(first: BranchList<Addr>, subs: seq<BranchList<Addr>>) returns (l: BranchList<Addr>)
    ensures l == TransferAll(first, subs)
  {
    l := first;
    for i := 0 to |subs|
      invariant l == TransferAll(first, subs[..i])
    {
      l := Transfer(l, subs[i]);
      assert subs[..i + 1][..i] == subs[..i];
    }
    assert subs[..|subs|] == subs;
  }

  lemma ListGathered(n: seq<NFA>, bs: seq<Addr>, rest: BranchList<Addr>, heads: seq<Addr>,
                     subs: seq<BranchList<Addr>>, l: BranchList<Addr>)
    requires InRange(n, bs) && heads == Ones(Forks(n, bs)) && subs == Manys(Forks(n, bs))
    requires rest.size == |heads| && rest.tail == Remaining(Forks(n, bs)).tail
    requires l == TransferAll(BranchList(heads, rest.size, rest.tail), subs)
    ensures l == Gathered(Forks(n, bs))
  {
    assert BranchList(heads, rest.size, rest.tail) == Remaining(Forks(n, bs));
  }

  lemma TransferredKept(n1: seq<NFA>, u1: set<Addr>, n2: seq<NFA>, u2: set<Addr>, bs: seq<Addr>,
                        kept: seq<Addr>, subs: seq<BranchList<Addr>>, z: Addr)
    requires Transferred(n1, u1, n2, u2, bs, kept, subs, z)
    ensures |n2| == |n1| && forall i :: 0 <= i < |kept| ==> kept[i] < |n2|
  {
    KeptIn(n1, bs);
  }

  lemma ExitUntouched(n1: seq<NFA>, u1: set<Addr>, n3: seq<NFA>, u2: set<Addr>, bs: seq<Addr>, z: Addr)
    requires InRange(n1, bs) && u2 == u1 - Discards(n1, bs) && TurnedAt(n1, n3, u2, Elements(bs), z)
    requires z in u1 && z < |n1| && z !in bs && forall i :: 0 <= i < |bs| ==> n1[bs[i]].parent != z
    ensures |n3| == |n1| && n3[z] == n1[z]
  {
  }

  method LinkTree(ctrl: NFACtrl, start: Addr, accept: Addr, heads: BranchList<Addr>)
    requires ctrl.Valid() && Clean(ctrl.nodes)
    requires start < |ctrl.nodes| && accept < |ctrl.nodes| && start != accept
    modifies ctrl`nodes
    ensures ctrl.Valid() && Clean(ctrl.nodes) && |ctrl.nodes| == |old(ctrl.nodes)|
    ensures ctrl.nodes[start].value == TREE(heads)
    ensures ctrl.nodes[accept] == old(ctrl.nodes)[accept].(parent := start)
    ensures forall a :: 0 <= a < |ctrl.nodes| && a != start && a != accept ==> ctrl.nodes[a] == old(ctrl.nodes)[a]
  {
    hide Ring;
    hide Sized;
    ctrl.nodes := ctrl.nodes[start := ctrl.nodes[start].(value := TREE(heads))];
    ctrl.nodes := ctrl.nodes[accept := ctrl.nodes[accept].(parent := start)];
  }

  lemma FlattenedNow(n1: seq<NFA>, u1: set<Addr>, n3: seq<NFA>, u2: set<Addr>, n4: seq<NFA>, bs: seq<Addr>,
                     start: Addr, z: Addr, heads: BranchList<Addr>)
    requires InRange(n1, bs) && u2 == u1 - Discards(n1, bs) && TurnedAt(n1, n3, u2, Elements(bs), z)
    requires start < |n1| && z < |n1| && start != z && n3[z] == n1[z] && n1[z].value == ACCEPTING && n1[z].id == 0
    requires heads == Gathered(Forks(n1, bs)) && |n4| == |n3| && n4[start].value == TREE(heads)
    requires n4[z] == n3[z].(parent := start)
    requires forall a :: 0 <= a < |n3| && a != start && a != z ==> n4[a] == n3[a]
    ensures Flattened(n1, u1, n4, u2, bs, start, z)
  {
  }

  lemma Alternated(n0: seq<NFA>, u0: set<Addr>, n1: seq<NFA>, u1: set<Addr>, n2: seq<NFA>, u2: set<Addr>,
                   bs: seq<Addr>, ds: seq<set<Addr>>, ss: seq<Shape>, start: Addr, z: Addr, next: nat)
      returns (e: set<Addr>)
    requires Building(n0, u0, next) && NewPair(n0, u0, n1, u1, start, z) && |bs| >= 2
    requires AllShaped(n1, u0, bs, ds, ss) && Flattened(n1, u1, n2, u2, bs, start, z) && Clean(n2)
    ensures Building(n2, u2, next) && Shaped(n2, z, e, AltShape(ss)) && Replaced(n0, u0, n2, u2, Cells(ds), e)
  {
    HoldApart(n1, u0, bs, ds, ss);
    HoldCells(n1, u0, bs, ds, ss);
    e := Cells(ds) - Discards(n1, bs) + {start, z};
    hide *;
    FlattenedJoined(n0, u0, n1, u1, n2, u2, bs, ds, start, z, next);
    AltIsShaped(n1, u0, n2, bs, ds, ss, start, z);
  }

  lemma HoldCells(n: seq<NFA>, used: set<Addr>, bs: seq<Addr>, ds: seq<set<Addr>>, ss: seq<Shape>)
    requires AllShaped(n, used, bs, ds, ss)
    ensures |bs| == |ds| && Cells(ds) <= used && forall i :: 0 <= i < |bs| ==> bs[i] in Cells(ds)
    ensures InRange(n, bs) && Discards(n, bs) <= Cells(ds)
  {
    forall i | 0 <= i < |bs|
      ensures bs[i] in ds[i] && bs[i] < |n| && n[bs[i]].parent < |n| && n[bs[i]].parent in ds[i]
    {
      ShapedEnds(n, bs[i], ds[i], ss[i]);
    }
    hide Shaped;
  }

  lemma FlattenedJoined(n0: seq<NFA>, u0: set<Addr>, n1: seq<NFA>, u1: set<Addr>, n2: seq<NFA>, u2: set<Addr>,
                        bs: seq<Addr>, ds: seq<set<Addr>>, start: Addr, z: Addr, next: nat)
    requires Building(n0, u0, next) && NewPair(n0, u0, n1, u1, start, z) && Apart(n1, u0, bs)
    requires Flattened(n1, u1, n2, u2, bs, start, z) && Clean(n2)
    requires |bs| == |ds| && Cells(ds) <= u0 && forall i :: 0 <= i < |bs| ==> bs[i] in Cells(ds)
    requires Discards(n1, bs) <= Cells(ds)
    ensures Joined(n1, u0, n2, bs, ds, start, z) && Building(n2, u2, next)
    ensures Replaced(n0, u0, n2, u2, Cells(ds), Cells(ds) - Discards(n1, bs) + {start, z})
  {
    hide Cells;
    hide Discards;
    hide Gathered;
    hide Forks;
    hide Clean;
    assert forall a :: a in Elements(bs) ==> a in Cells(ds);
    assert u2 == u0 - Cells(ds) + (Cells(ds) - Discards(n1, bs) + {start, z});
    hide Apart;
    hide Elements;
    NumberedKept(n0, u0, n2, u2, next);
    hide Numbered;
  }
}
