/** The constructor calls that src/regex_parser.c makes for an expression, bottom up, and what
    parse_regex does with the finished fragment. Scanning and token handling are not modelled. */
module RegexParser {
  import opened Regex
  import opened KeptBranches
  import opened NfaGraph
  import opened NfaConstruct
  import opened NfaAlloc
  import opened Nfa

  /** Every alternation has a branch: what the grammar produces. */
  ghost predicate Proper(r: Expr) {
    match r
    case Atom(_) => true
    case Cat(left, right) => Proper(left) && Proper(right)
    case Alt(branches) => branches != [] && forall i :: 0 <= i < |branches| ==> Proper(branches[i])
    case Opt(body) => Proper(body)
    case Star(body) => Proper(body)
    case Plus(body) => Proper(body)
  }

  lemma ThenReplaced(n0: seq<NFA>, u0: set<Addr>, n1: seq<NFA>, u1: set<Addr>, n2: seq<NFA>, u2: set<Addr>,
                     d: set<Addr>, e: set<Addr>)
    requires Replaced(n0, u0, n1, u1, {}, d) && Replaced(n1, u1, n2, u2, d, e)
    ensures Replaced(n0, u0, n2, u2, {}, e)
  {
  }

  lemma BothReplaced(n0: seq<NFA>, u0: set<Addr>, n1: seq<NFA>, u1: set<Addr>, n2: seq<NFA>, u2: set<Addr>,
                     d: set<Addr>, e: set<Addr>)
    requires Replaced(n0, u0, n1, u1, {}, d) && Replaced(n1, u1, n2, u2, {}, e)
    ensures Replaced(n0, u0, n2, u2, {}, d + e) && d !! e && d <= u1 && d + e <= u2 && e <= u2
    ensures forall a :: a in d && a < |n1| ==> a < |n2| && n2[a] == n1[a]
  {
  }

  lemma ReplacedIn(n0: seq<NFA>, u0: set<Addr>, n1: seq<NFA>, u1: set<Addr>, d: set<Addr>)
    requires Replaced(n0, u0, n1, u1, {}, d)
    ensures d <= u1
  {
  }

  /** The nodes built for r read what ShapeOf(r) says: the words of r, but for those of lost branches. */
  method Build(ctrl: NFACtrl, r: Expr) returns (accept: Addr, ghost e: set<Addr>)
    requires ctrl.Valid() && Building(ctrl.nodes, ctrl.used, ctrl.nextSeqId) && Proper(r)
    modifies ctrl
    ensures ctrl.Valid() && Building(ctrl.nodes, ctrl.used, ctrl.nextSeqId)
    ensures Shaped(ctrl.nodes, accept, e, ShapeOf(r))
    ensures Replaced(old(ctrl.nodes), old(ctrl.used), ctrl.nodes, ctrl.used, {}, e)
    decreases r, 1
  {
    hide Ring;
    hide Sized;
    hide Building;
    hide Holds;
    hide Shaped;
    hide Replaced;
    hide LabelOf;
    ghost var n0, u0 := ctrl.nodes, ctrl.used;
    match r
    case Atom(lab) =>
      accept, e := BuildAtom(ctrl, lab);
    case Cat(left, right) =>
      accept, e := BuildCat(ctrl, r);
    case Alt(branches) =>
      accept, e := BuildAlt(ctrl, r);
    case Opt(body) =>
      var b, d := BuildBody(ctrl, body);
      ghost var n1, u1 := ctrl.nodes, ctrl.used;
      accept, e := NewQmarkNfa(ctrl, b, d, Built(body));
      HoldsShaped(ctrl.nodes, accept, e, Opt(Built(body)));
      ThenReplaced(n0, u0, n1, u1, ctrl.nodes, ctrl.used, d, e);
    case Star(body) =>
      var b, d := BuildBody(ctrl, body);
      ghost var n1, u1 := ctrl.nodes, ctrl.used;
      accept, e := NewKleeneNfa(ctrl, b, d, Built(body));
      HoldsShaped(ctrl.nodes, accept, e, Star(Built(body)));
      ThenReplaced(n0, u0, n1, u1, ctrl.nodes, ctrl.used, d, e);
    case Plus(body) =>
      var b, d := BuildBody(ctrl, body);
      ghost var n1, u1 := ctrl.nodes, ctrl.used;
      accept, e := NewPosclosureNfa(ctrl, b, d, Built(body));
      HoldsShaped(ctrl.nodes, accept, e, Plus(Built(body)));
      ThenReplaced(n0, u0, n1, u1, ctrl.nodes, ctrl.used, d, e);
  }

  /** The body of a quantifier, whose list of branches is not used any more. */
  method BuildBody(ctrl: NFACtrl, r: Expr) returns (accept: Addr, ghost e: set<Addr>)
    requires ctrl.Valid() && Building(ctrl.nodes, ctrl.used, ctrl.nextSeqId) && Proper(r)
    modifies ctrl
    ensures ctrl.Valid() && Building(ctrl.nodes, ctrl.used, ctrl.nextSeqId)
    ensures Holds(ctrl.nodes, accept, e, Built(r)) && e <= ctrl.used
    ensures Replaced(old(ctrl.nodes), old(ctrl.used), ctrl.nodes, ctrl.used, {}, e)
    decreases r, 2
  {
    ghost var n0, u0 := ctrl.nodes, ctrl.used;
    hide *;
    accept, e := Build(ctrl, r);
    ShapedBuilt(ctrl.nodes, accept, e, r);
    ReplacedIn(n0, u0, ctrl.nodes, ctrl.used, e);
  }

  lemma ShapedBuilt(n: seq<NFA>, accept: Addr, d: set<Addr>, r: Expr)
    requires Shaped(n, accept, d, ShapeOf(r))
    ensures Holds(n, accept, d, Built(r))
  {
    ShapedHolds(n, accept, d, ShapeOf(r));
  }

  method BuildCat(ctrl: NFACtrl, r: Expr) returns (accept: Addr, ghost e: set<Addr>)
    requires ctrl.Valid() && Building(ctrl.nodes, ctrl.used, ctrl.nextSeqId) && Proper(r) && r.Cat?
    modifies ctrl
    ensures ctrl.Valid() && Building(ctrl.nodes, ctrl.used, ctrl.nextSeqId)
    ensures Shaped(ctrl.nodes, accept, e, ShapeOf(r))
    ensures Replaced(old(ctrl.nodes), old(ctrl.used), ctrl.nodes, ctrl.used, {}, e)
    decreases r, 0
  {
    ghost var n0, u0 := ctrl.nodes, ctrl.used;
    ghost var s1, r2 := ShapeOf(r.left), Built(r.right);
    assert Proper(r.left) && Proper(r.right) && ShapeOf(r) == CatShape(s1, r2);
    hide *;
    var prev, d1 := Build(ctrl, r.left);
    ghost var n1, u1 := ctrl.nodes, ctrl.used;
    var next, d2 := BuildBody(ctrl, r.right);
    ghost var n2, u2 := ctrl.nodes, ctrl.used;
    BothReplaced(n0, u0, n1, u1, n2, u2, d1, d2);
    ShapedKept(n1, n2, prev, d1, s1);
    ShapedHolds(n2, prev, d1, s1);
    NotNull(ctrl, n2, prev, d1, Means(s1));
    NotNull(ctrl, n2, next, d2, r2);
    accept, e := ConcatenateNfa(ctrl, prev, next, d1, s1, d2, r2);
    ThenReplaced(n0, u0, n2, u2, ctrl.nodes, ctrl.used, d1 + d2, e);
  }

  lemma NotNull(ctrl: NFACtrl, n: seq<NFA>, accept: Addr, d: set<Addr>, r: Expr)
    requires ctrl.Valid() && d <= ctrl.used && Holds(n, accept, d, r)
    ensures accept != NULL
  {
  }

  method BuildAtom(ctrl: NFACtrl, lab: Label) returns (accept: Addr, ghost e: set<Addr>)
    requires ctrl.Valid() && Building(ctrl.nodes, ctrl.used, ctrl.nextSeqId)
    modifies ctrl
    ensures ctrl.Valid() && Building(ctrl.nodes, ctrl.used, ctrl.nextSeqId)
    ensures Shaped(ctrl.nodes, accept, e, ShapeOf(Atom(lab)))
    ensures Replaced(old(ctrl.nodes), old(ctrl.used), ctrl.nodes, ctrl.used, {}, e)
  {
    hide Ring;
    hide Sized;
    hide Building;
    hide Holds;
    hide Replaced;
    hide Shaped;
    match lab {
    case Literal(c) => accept, e := NewLiteralNfa(ctrl, LITERAL(c));
    case AnyByte => accept, e := NewLiteralNfa(ctrl, ANY);
    case Range(cs) => accept, e := NewRangeNfa(ctrl, cs);
    }
    HoldsShaped(ctrl.nodes, accept, e, Atom(lab));
  }

  method BuildAlt(ctrl: NFACtrl, r: Expr) returns (accept: Addr, ghost e: set<Addr>)
    requires ctrl.Valid() && Building(ctrl.nodes, ctrl.used, ctrl.nextSeqId) && Proper(r) && r.Alt?
    modifies ctrl
    ensures ctrl.Valid() && Building(ctrl.nodes, ctrl.used, ctrl.nextSeqId)
    ensures Shaped(ctrl.nodes, accept, e, ShapeOf(r))
    ensures Replaced(old(ctrl.nodes), old(ctrl.used), ctrl.nodes, ctrl.used, {}, e)
    decreases r, 0
  {
    ghost var n0, u0 := ctrl.nodes, ctrl.used;
    var bs := [];
    ghost var ds: seq<set<Addr>> := [];
    NoneBuilt(n0, u0);
    BranchesProper(r);
    assert r.branches[..0] == [];
    hide *;
    var i := 0;
    while i < |r.branches|
      invariant 0 <= i <= |r.branches|
      invariant ctrl.Valid() && Building(ctrl.nodes, ctrl.used, ctrl.nextSeqId) && |bs| == i
      invariant AllShaped(ctrl.nodes, ctrl.used, bs, ds, Shapes(r.branches[..i]))
      invariant Replaced(n0, u0, ctrl.nodes, ctrl.used, {}, Cells(ds))
    {
      ghost var n1, u1, ss := ctrl.nodes, ctrl.used, Shapes(r.branches[..i]);
      var b, d := Build(ctrl, r.branches[i]);
      OneMore(n0, u0, n1, u1, ctrl.nodes, ctrl.used, bs, ds, ss, b, d, ShapeOf(r.branches[i]));
      OneShape(r.branches, i);
      bs, ds := [b] + bs, [d] + ds;
      i := i + 1;
    }
    assert r.branches[..|r.branches|] == r.branches;
    ghost var n2, u2 := ctrl.nodes, ctrl.used;
    accept, e := NewAlternationNfa(ctrl, bs, ds, Shapes(r.branches));
    ThenReplaced(n0, u0, n2, u2, ctrl.nodes, ctrl.used, Cells(ds), e);
  }

  lemma BranchesProper(r: Expr)
    requires Proper(r) && r.Alt?
    ensures r.branches != [] && forall i :: 0 <= i < |r.branches| ==> Proper(r.branches[i])
    ensures ShapeOf(r) == AltShape(Shapes(r.branches)) && Shapes([]) == []
  {
  }

  lemma OneShape(rs: seq<Expr>, i: nat)
    requires i < |rs|
    ensures Shapes(rs[..i + 1]) == [ShapeOf(rs[i])] + Shapes(rs[..i])
  {
    assert rs[..i + 1][..i] == rs[..i];
  }

  lemma NoneBuilt(n: seq<NFA>, used: set<Addr>)
    ensures AllShaped(n, used, [], [], []) && Replaced(n, used, n, used, {}, Cells([]))
  {
    assert Cells([]) == {};
  }

  lemma OneMore(n0: seq<NFA>, u0: set<Addr>, n1: seq<NFA>, u1: set<Addr>, n2: seq<NFA>, u2: set<Addr>,
                bs: seq<Addr>, ds: seq<set<Addr>>, ss: seq<Shape>, b: Addr, d: set<Addr>, s: Shape)
    requires AllShaped(n1, u1, bs, ds, ss) && Replaced(n0, u0, n1, u1, {}, Cells(ds))
    requires Shaped(n2, b, d, s) && Replaced(n1, u1, n2, u2, {}, d)
    ensures AllShaped(n2, u2, [b] + bs, [d] + ds, [s] + ss) && Replaced(n0, u0, n2, u2, {}, Cells([d] + ds))
  {
    BothReplaced(n0, u0, n1, u1, n2, u2, Cells(ds), d);
    CellsMore(ds, d);
    InCells(ds);
    hide *;
    assert u1 <= u2 by { MoreUsed(n1, u1, n2, u2, d); }
    AllShapedKept(n1, n2, u1, u2, bs, ds, ss);
    AllShapedMore(n2, u2, bs, ds, ss, b, d, s);
  }

  lemma MoreUsed(n1: seq<NFA>, u1: set<Addr>, n2: seq<NFA>, u2: set<Addr>, d: set<Addr>)
    requires Replaced(n1, u1, n2, u2, {}, d)
    ensures u1 <= u2
  {
  }

  lemma InCells(ds: seq<set<Addr>>)
    ensures forall i :: 0 <= i < |ds| ==> ds[i] <= Cells(ds)
  {
  }

  lemma CellsMore(ds: seq<set<Addr>>, d: set<Addr>)
    ensures Cells([d] + ds) == Cells(ds) + d
  {
    assert ([d] + ds)[0] == d;
    assert forall i :: 0 <= i < |ds| ==> ([d] + ds)[i + 1] == ds[i];
  }

  lemma AllShapedMore(n: seq<NFA>, used: set<Addr>, bs: seq<Addr>, ds: seq<set<Addr>>, ss: seq<Shape>,
                      b: Addr, d: set<Addr>, s: Shape)
    requires AllShaped(n, used, bs, ds, ss) && Shaped(n, b, d, s) && d <= used
    requires forall i :: 0 <= i < |ds| ==> ds[i] !! d
    ensures AllShaped(n, used, [b] + bs, [d] + ds, [s] + ss)
  {
    hide Shaped;
  }

  // ---------------------------------------------------------------- the finished graph

  /** A node that the recognizer can stand on. */
  predicate Stop(nodes: seq<NFA>, accept: Addr, a: Addr)
    requires a < |nodes|
  {
    a == accept || Consuming(nodes[a].value)
  }

  /** The graph accepts r, and the nodes the recognizer can stand on have different numbers. */
  ghost predicate Marked(nodes: seq<NFA>, next: nat, accept: Addr, d: set<Addr>, r: Expr) {
    && (forall a :: a in d ==> a < |nodes|) && accept in d && nodes[accept].parent in d
    && Accepts(View(nodes, d), nodes[accept].parent, accept, r) && Grounded(View(nodes, d))
    && Labelled(nodes, next, accept, d)
  }

  ghost predicate Labelled(nodes: seq<NFA>, next: nat, accept: Addr, d: set<Addr>)
    requires forall a :: a in d ==> a < |nodes|
  {
    && (forall a :: a in d && Stop(nodes, accept, a) ==> 0 < nodes[a].id < next)
    && (forall a, b :: a in d && b in d && a != b && Stop(nodes, accept, a) && Stop(nodes, accept, b)
          ==> nodes[a].id != nodes[b].id)
  }

  /** Ready to be compiled: moreover the entry consumes nothing. */
  ghost predicate Ready(nodes: seq<NFA>, next: nat, accept: Addr, d: set<Addr>, r: Expr) {
    && Marked(nodes, next, accept, d, r) && Clean(nodes)
    && nodes[nodes[accept].parent].value in {SPLIT, EPSILON}
  }

  /** mark_nfa on the finished fragment: its accepting node is numbered like the nodes that consume. */
  method MarkBuilt(ctrl: NFACtrl, accept: Addr, ghost d: set<Addr>, ghost r: Expr)
    requires ctrl.Valid() && Building(ctrl.nodes, ctrl.used, ctrl.nextSeqId) && Holds(ctrl.nodes, accept, d, r)
    requires d <= ctrl.used && accept < |ctrl.nodes| && ctrl.nodes[accept].id == 0
    modifies ctrl`nodes, ctrl`nextSeqId
    ensures ctrl.Valid() && Clean(ctrl.nodes) && Marked(ctrl.nodes, ctrl.nextSeqId, accept, d, r)
  {
    MarkedNow(ctrl.nodes, ctrl.used, ctrl.nextSeqId, accept, d, r);
    hide *;
    MarkNfa(ctrl, accept);
  }

  /** The fragment built for r in a new control block. */
  method BuildNew(r: Expr, num: nat) returns (ctrl: NFACtrl, accept: Addr, ghost d: set<Addr>)
    requires Proper(r) && 0 < num
    ensures fresh(ctrl) && ctrl.Valid() && Building(ctrl.nodes, ctrl.used, ctrl.nextSeqId)
    ensures Holds(ctrl.nodes, accept, d, Built(r))
    ensures d <= ctrl.used && accept < |ctrl.nodes| && ctrl.nodes[accept].id == 0
  {
    ctrl := new NFACtrl(num);
    ghost var empty := ctrl.nodes;
    EmptyBuilding(empty);
    hide *;
    accept, d := BuildBody(ctrl, r);
    BuiltShape(empty, ctrl.nodes, ctrl.used, accept, d, Built(r));
  }

  /** parse_regex after the grammar has been worked through. */
  method ParseRegex(r: Expr, num: nat) returns (ctrl: NFACtrl, accept: Addr, ghost d: set<Addr>)
    requires Proper(r) && 0 < num
    ensures fresh(ctrl) && ctrl.Valid() && d <= ctrl.used && Ready(ctrl.nodes, ctrl.nextSeqId, accept, d, Built(r))
  {
    hide *;
    ctrl, accept, d := BuildNew(r, num);
    MarkBuilt(ctrl, accept, d, Built(r));
    d := InsertEpsilonStart(ctrl, accept, d, Built(r));
  }

  lemma EmptyBuilding(nodes: seq<NFA>)
    requires forall a :: 0 <= a < |nodes| ==> nodes[a] == ZERO
    ensures Building(nodes, {}, 1)
  {
  }

  lemma BuiltShape(empty: seq<NFA>, n: seq<NFA>, used: set<Addr>, accept: Addr, d: set<Addr>, r: Expr)
    requires Holds(n, accept, d, r) && Replaced(empty, {}, n, used, {}, d)
    ensures accept < |n| && n[accept].id == 0 && d <= used
  {
  }

  lemma MarkedNow(n: seq<NFA>, used: set<Addr>, next: nat, accept: Addr, d: set<Addr>, r: Expr)
    requires Holds(n, accept, d, r) && Building(n, used, next) && d <= used && accept < |n|
    ensures var m := n[accept := n[accept].(id := next)]; Marked(m, next + 1, accept, d, r) && Clean(m)
  {
    HoldsShape(n, accept, d, r);
    MarkedView(n, accept, d, next);
    LabelledNow(n, used, next, accept, d);
    hide Numbered;
    hide Labelled;
    hide Accepts;
    hide Grounded;
    hide View;
    hide Fragment;
  }

  lemma LabelledNow(n: seq<NFA>, used: set<Addr>, next: nat, accept: Addr, d: set<Addr>)
    requires Building(n, used, next) && d <= used && accept in d && accept < |n| && !Consuming(n[accept].value)
    ensures var m := n[accept := n[accept].(id := next)];
            (forall a :: a in d ==> a < |m|) && Labelled(m, next + 1, accept, d) && Clean(m)
  {
    var m := n[accept := n[accept].(id := next)];
    assert forall a :: a in d && a != accept ==> m[a] == n[a] && a in used;
  }

  lemma MarkedView(n: seq<NFA>, accept: Addr, d: set<Addr>, next: nat)
    requires accept < |n| && forall a :: a in d ==> a < |n|
    ensures View(n[accept := n[accept].(id := next)], d) == View(n, d)
  {
  }

  /** insert_epsilon_start */
  method InsertEpsilonStart(ctrl: NFACtrl, accept: Addr, ghost d: set<Addr>, ghost r: Expr) returns (ghost e: set<Addr>)
    requires ctrl.Valid() && Clean(ctrl.nodes) && d <= ctrl.used
    requires Marked(ctrl.nodes, ctrl.nextSeqId, accept, d, r)
    modifies ctrl
    ensures ctrl.Valid() && e <= ctrl.used && Ready(ctrl.nodes, ctrl.nextSeqId, accept, e, r)
  {
    hide Ring;
    hide Sized;
    e := d;
    var start := ctrl.nodes[accept].parent;
    if ctrl.nodes[start].value !in {SPLIT, EPSILON} {
      ghost var n0 := ctrl.nodes;
      MarkedShape(n0, ctrl.used, ctrl.nextSeqId, accept, d, r);
      hide *;
      var node := NewNfa(ctrl, EPSILON);
      LinkStart(ctrl, node, start, accept);
      e := d + {node};
      EntryReady(n0, ctrl.nodes, ctrl.nextSeqId, accept, d, node, r);
    }
  }

  lemma MarkedShape(n: seq<NFA>, used: set<Addr>, next: nat, accept: Addr, d: set<Addr>, r: Expr)
    requires Marked(n, next, accept, d, r) && d <= used
    ensures accept in d && accept < |n| && n[accept].parent in d && n[accept].parent != accept
    ensures forall a :: a in d ==> a in used && a < |n|
  {
    FragmentEnds(View(n, d), n[accept].parent, accept);
  }

  method LinkStart(ctrl: NFACtrl, node: Addr, start: Addr, accept: Addr)
    requires ctrl.Valid() && Clean(ctrl.nodes) && node < |ctrl.nodes| && accept < |ctrl.nodes| && node != accept
    modifies ctrl`nodes
    ensures ctrl.Valid() && Clean(ctrl.nodes) && |ctrl.nodes| == |old(ctrl.nodes)|
    ensures ctrl.nodes[node] == old(ctrl.nodes)[node].(out1 := start, out2 := start)
    ensures ctrl.nodes[accept] == old(ctrl.nodes)[accept].(parent := node)
    ensures forall a :: 0 <= a < |ctrl.nodes| && a != node && a != accept ==> ctrl.nodes[a] == old(ctrl.nodes)[a]
  {
    hide Ring;
    hide Sized;
    ctrl.nodes := ctrl.nodes[node := ctrl.nodes[node].(out1 := start, out2 := start)];
    ctrl.nodes := ctrl.nodes[accept := ctrl.nodes[accept].(parent := node)];
  }

  lemma EntryReady(n0: seq<NFA>, n1: seq<NFA>, next: nat, accept: Addr, d: set<Addr>, node: Addr, r: Expr)
    requires Marked(n0, next, accept, d, r) && Clean(n1) && node !in d && node < |n1|
    requires forall a :: a in d ==> a < |n0| && a < |n1| && (a != accept ==> n1[a] == n0[a])
    requires n1[accept] == n0[accept].(parent := node) && IsEpsilon(n1[node], n0[accept].parent)
    ensures Ready(n1, next, accept, d + {node}, r)
  {
    EntryView(n0, n1, accept, d, node);
    EntryAccepts(View(n0, d), n0[accept].parent, accept, node, r);
    EntryLabelled(n0, n1, next, accept, d, node);
    hide Accepts;
    hide Grounded;
    hide Labelled;
    hide View;
  }

  lemma EntryView(n0: seq<NFA>, n1: seq<NFA>, accept: Addr, d: set<Addr>, node: Addr)
    requires node !in d && node < |n1| && accept in d
    requires forall a :: a in d ==> a < |n0| && a < |n1| && (a != accept ==> n1[a] == n0[a])
    requires n1[accept] == n0[accept].(parent := node) && IsEpsilon(n1[node], n0[accept].parent)
    ensures View(n1, d + {node}) == EntryGraph(View(n0, d), n0[accept].parent, node)
  {
  }

  lemma EntryLabelled(n0: seq<NFA>, n1: seq<NFA>, next: nat, accept: Addr, d: set<Addr>, node: Addr)
    requires node !in d && node < |n1| && accept in d && n1[node].value == EPSILON
    requires forall a :: a in d ==> a < |n0| && a < |n1| && (a != accept ==> n1[a] == n0[a])
    requires n1[accept] == n0[accept].(parent := node) && Labelled(n0, next, accept, d)
    ensures Labelled(n1, next, accept, d + {node})
  {
    assert forall a :: a in d + {node} && Stop(n1, accept, a) ==> a in d && Stop(n0, accept, a) && n1[a].id == n0[a].id;
  }
}
