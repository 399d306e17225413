/** Which branches of an expression's alternations are still in their lists when the constructors of
    src/nfa.c have run, and for which expressions that is all of them. */
module KeptBranches {
  import opened Regex
  import opened BranchLists

  /** What an expression is built to: a fragment, or an alternation that can still be flattened, with
      what is read from each item of its list. */
  type Shape = Fork<Expr>

  function Means(s: Shape): Expr {
    match s
    case One(e) => e
    case Many(l) => Alt(Seen(l))
  }

  /** What follows an alternation follows each of its branches. */
  function CatEach(l: BranchList<Expr>, x: Expr): BranchList<Expr> {
    BranchList(seq(|l.items|, i requires 0 <= i < |l.items| => Cat(l.items[i], x)), l.size,
               match l.tail case Last => Last case Freed => Freed case Behind(e) => Behind(Cat(e, x)))
  }

  function CatShape(s: Shape, x: Expr): Shape {
    match s
    case One(e) => One(Cat(e, x))
    case Many(l) => Many(CatEach(l, x))
  }

  /** new_alternation_nfa, for the branches in the order of its list. */
  function AltShape(xs: seq<Shape>): Shape
    requires xs != []
  {
    if |xs| < 2 then xs[0] else Many(Gathered(xs))
  }

  function ShapeOf(r: Expr): Shape
    decreases r
  {
    match r
    case Atom(_) => One(r)
    case Cat(left, right) => CatShape(ShapeOf(left), Means(ShapeOf(right)))
    case Alt(branches) => if branches == [] then One(r) else AltShape(Shapes(branches))
    case Opt(body) => One(Opt(Means(ShapeOf(body))))
    case Star(body) => One(Star(Means(ShapeOf(body))))
    case Plus(body) => One(Plus(Means(ShapeOf(body))))
  }

  /** The branches are pushed onto the list, so the last one comes first. */
  function Shapes(rs: seq<Expr>): (xs: seq<Shape>)
    ensures |xs| == |rs|
    decreases rs
  {
    if rs == [] then [] else [ShapeOf(rs[|rs| - 1])] + Shapes(rs[..|rs| - 1])
  }

  /** What the graph built for r reads. */
  function Built(r: Expr): Expr { Means(ShapeOf(r)) }

  lemma {:induction false} ShapesAt(rs: seq<Expr>, k: nat)
    requires k < |rs|
    ensures Shapes(rs)[k] == ShapeOf(rs[|rs| - 1 - k])
    decreases |rs|
  {
    if k > 0 {
      ShapesAt(rs[..|rs| - 1], k - 1);
    }
  }

  // ---------------------------------------------------------------- nothing is added

  ghost predicate Inside(e: Expr, r: Expr) { forall w :: In(e, w) ==> In(r, w) }

  lemma MeansIs(s: Shape, w: Word)
    ensures In(Means(s), w) <==> exists h :: h in HeadsIn(s) && In(h, w)
  {
    if s.Many? {
      var l := Seen(s.list);
      if In(Alt(l), w) {
        var i :| 0 <= i < |l| && In(l[i], w);
        assert l[i] in HeadsIn(s);
      }
      if h :| h in HeadsIn(s) && In(h, w) {
        var i :| 0 <= i < |l| && l[i] == h;
      }
    } else {
      assert s.head in HeadsIn(s);
    }
  }

  lemma CatEachSeen(l: BranchList<Expr>, x: Expr)
    requires Usable(l)
    ensures Usable(CatEach(l, x)) && (Intact(l) ==> Intact(CatEach(l, x)))
    ensures |Seen(CatEach(l, x))| == |Seen(l)|
    ensures forall i :: 0 <= i < |Seen(l)| ==> Seen(CatEach(l, x))[i] == Cat(Seen(l)[i], x)
  {
    SeenIs(l);
    SeenIs(CatEach(l, x));
  }

  lemma CatWithin(e: Expr, x: Expr, left: Expr, right: Expr)
    requires Inside(e, left) && Inside(x, right)
    ensures Inside(Cat(e, x), Cat(left, right))
  {
    forall w | In(Cat(e, x), w) ensures In(Cat(left, right), w) {
      var k :| 0 <= k <= |w| && In(e, w[..k]) && In(x, w[k..]);
      assert In(left, w[..k]) && In(right, w[k..]);
    }
  }

  lemma {:induction false} StarWithin(e: Expr, r: Expr, w: Word)
    requires Inside(e, r) && InStar(e, w)
    ensures InStar(r, w)
    decreases |w|
  {
    if w != [] {
      var k :| 0 < k <= |w| && In(e, w[..k]) && InStar(e, w[k..]);
      StarWithin(e, r, w[k..]);
      assert In(r, w[..k]);
    }
  }

  lemma QuantifiedWithin(e: Expr, r: Expr)
    requires Inside(e, r)
    ensures Inside(Opt(e), Opt(r)) && Inside(Star(e), Star(r)) && Inside(Plus(e), Plus(r))
  {
    forall w | InStar(e, w) ensures InStar(r, w) { StarWithin(e, r, w); }
    forall w | In(Plus(e), w) ensures In(Plus(r), w) {
      var k :| 0 <= k <= |w| && In(e, w[..k]) && InStar(e, w[k..]);
      assert In(r, w[..k]) && InStar(r, w[k..]);
    }
  }

  lemma MeansWithin(s: Shape, r: Expr)
    requires forall h :: h in HeadsIn(s) ==> Inside(h, r)
    ensures Inside(Means(s), r)
  {
    forall w | In(Means(s), w) ensures In(r, w) {
      MeansIs(s, w);
    }
  }

  ghost predicate SoundShape(s: Shape, r: Expr) {
    (s.Many? ==> Usable(s.list)) && forall h :: h in HeadsIn(s) ==> Inside(h, r)
  }

  lemma CatSound(s: Shape, left: Expr, x: Expr, right: Expr)
    requires SoundShape(s, left) && Inside(x, right)
    ensures SoundShape(CatShape(s, x), Cat(left, right))
  {
    if s.Many? {
      CatEachSeen(s.list, x);
    }
    forall h | h in HeadsIn(CatShape(s, x)) ensures Inside(h, Cat(left, right)) {
      var i :| 0 <= i < |HeadsIn(s)| && h == Cat(HeadsIn(s)[i], x);
      CatWithin(HeadsIn(s)[i], x, left, right);
    }
  }

  lemma AltSound(xs: seq<Shape>, rs: seq<Expr>)
    requires |xs| == |rs| > 0 && forall k :: 0 <= k < |xs| ==> SoundShape(xs[k], rs[|rs| - 1 - k])
    ensures SoundShape(AltShape(xs), Alt(rs))
  {
    forall k | 0 <= k < |rs| ensures Inside(rs[k], Alt(rs)) {}
    if |xs| < 2 {
      assert SoundShape(xs[0], rs[0]) && Inside(rs[0], Alt(rs));
    } else {
      assert AllUsable(xs);
      GatheredUsable(xs);
      forall h | h in Seen(Gathered(xs)) ensures Inside(h, Alt(rs)) {
        var k := GatheredFrom(xs, h);
        var j := |rs| - 1 - k;
        assert SoundShape(xs[k], rs[j]) && Inside(rs[j], Alt(rs));
      }
    }
  }

  lemma {:induction false} ShapeSound(r: Expr)
    ensures SoundShape(ShapeOf(r), r)
    decreases r, 0
  {
    match r
    case Atom(_) =>
    case Cat(left, right) =>
      ShapeSound(left);
      ShapeSound(right);
      MeansWithin(ShapeOf(right), right);
      CatSound(ShapeOf(left), left, Built(right), right);
    case Alt(rs) =>
      if rs != [] {
        forall k | 0 <= k < |rs| ensures SoundShape(Shapes(rs)[k], rs[|rs| - 1 - k]) {
          ShapesAt(rs, k);
          ShapeSound(rs[|rs| - 1 - k]);
        }
        AltSound(Shapes(rs), rs);
      }
    case Opt(body) => BodySound(body);
    case Star(body) => BodySound(body);
    case Plus(body) => BodySound(body);
  }

  lemma {:induction false} BodySound(body: Expr)
    ensures Inside(Opt(Built(body)), Opt(body)) && Inside(Star(Built(body)), Star(body))
    ensures Inside(Plus(Built(body)), Plus(body))
    decreases body, 1
  {
    ShapeSound(body);
    MeansWithin(ShapeOf(body), body);
    QuantifiedWithin(Built(body), body);
  }

  /** Whatever is lost, the graph reads words of r only. */
  lemma NothingAdded(r: Expr, w: Word)
    requires In(Built(r), w)
    ensures In(r, w)
  {
    ShapeSound(r);
    MeansWithin(ShapeOf(r), r);
  }

  // ---------------------------------------------------------------- when nothing is lost

  /** The entry of the graph is that of an alternation. */
  predicate StartsWithTree(r: Expr) {
    match r
    case Cat(left, _) => StartsWithTree(left)
    case Alt(rs) => |rs| >= 2 || (|rs| == 1 && StartsWithTree(rs[0]))
    case _ => false
  }

  /** The first branch starts with an alternation and at least two of the others do not. */
  predicate LosesBranches(rs: seq<Expr>) {
    && rs != [] && StartsWithTree(rs[0])
    && exists i, j :: 0 < i < j < |rs| && !StartsWithTree(rs[i]) && !StartsWithTree(rs[j])
  }

  /** No alternation in r loses branches. */
  predicate KeepsBranches(r: Expr) {
    match r
    case Atom(_) => true
    case Cat(left, right) => KeepsBranches(left) && KeepsBranches(right)
    case Alt(rs) => !LosesBranches(rs) && forall i :: 0 <= i < |rs| ==> KeepsBranches(rs[i])
    case Opt(body) => KeepsBranches(body)
    case Star(body) => KeepsBranches(body)
    case Plus(body) => KeepsBranches(body)
  }

  lemma {:induction false} ShapeIsMany(r: Expr)
    ensures ShapeOf(r).Many? <==> StartsWithTree(r)
    decreases r
  {
    match r
    case Cat(left, _) => ShapeIsMany(left);
    case Alt(rs) =>
      if |rs| == 1 {
        ShapesAt(rs, 0);
        ShapeIsMany(rs[0]);
      }
    case _ =>
  }

  lemma {:induction false} TwoOnes<T>(xs: seq<Fork<T>>)
    ensures |Ones(xs)| >= 1 <==> exists i :: 0 <= i < |xs| && xs[i].One?
    ensures |Ones(xs)| >= 2 <==> exists i, j :: 0 <= i < j < |xs| && xs[i].One? && xs[j].One?
  {
    if xs != [] {
      var m := |xs| - 1;
      var front := xs[..m];
      TwoOnes(front);
      if i, j :| 0 <= i < j < |front| && front[i].One? && front[j].One? { assert xs[i].One? && xs[j].One?; }
      if i :| 0 <= i < |front| && front[i].One? { assert xs[i].One?; }
      if i, j :| 0 <= i < j < |xs| && xs[i].One? && xs[j].One? { assert front[i].One?; }
      if i :| 0 <= i < |xs| && xs[i].One? && i < m { assert front[i].One?; }
    }
  }

  /** The list of an alternation has lost its tail exactly when the first branch starts with an
      alternation and at least two others do not. */
  lemma StaleIff(rs: seq<Expr>)
    requires rs != []
    ensures Stale(Shapes(rs)) <==> LosesBranches(rs)
  {
    var xs, n := Shapes(rs), |rs|;
    forall k | 0 <= k < n ensures xs[k].Many? <==> StartsWithTree(rs[n - 1 - k]) {
      ShapesAt(rs, k);
      ShapeIsMany(rs[n - 1 - k]);
    }
    TwoOnes(xs);
    if Stale(xs) {
      var i, j :| 0 <= i < j < n && xs[i].One? && xs[j].One?;
      assert 0 < n - 1 - j < n - 1 - i < n && !StartsWithTree(rs[n - 1 - j]) && !StartsWithTree(rs[n - 1 - i]);
    }
    if LosesBranches(rs) {
      var i, j :| 0 < i < j < n && !StartsWithTree(rs[i]) && !StartsWithTree(rs[j]);
      assert xs[n - 1 - j].One? && xs[n - 1 - i].One?;
    }
  }

  /** Each word of r is read from one of the heads. */
  ghost predicate FullShape(s: Shape, r: Expr) {
    && (s.Many? ==> Intact(s.list) && |s.list.items| >= 2)
    && forall w :: In(r, w) ==> exists h :: h in HeadsIn(s) && In(h, w)
  }

  lemma MeansFull(s: Shape, r: Expr)
    requires FullShape(s, r)
    ensures Inside(r, Means(s))
  {
    forall w | In(r, w) ensures In(Means(s), w) {
      MeansIs(s, w);
    }
  }

  lemma CatFull(s: Shape, left: Expr, x: Expr, right: Expr)
    requires FullShape(s, left) && Inside(right, x)
    ensures FullShape(CatShape(s, x), Cat(left, right))
  {
    if s.Many? {
      CatEachSeen(s.list, x);
    }
    forall w | In(Cat(left, right), w) ensures exists h :: h in HeadsIn(CatShape(s, x)) && In(h, w) {
      var k :| 0 <= k <= |w| && In(left, w[..k]) && In(right, w[k..]);
      var i := HeadFor(s, left, w[..k]);
      var h := HeadsIn(s)[i];
      CatIn(h, x, w, k);
      assert HeadsIn(CatShape(s, x))[i] == Cat(h, x);
      assert Cat(h, x) in HeadsIn(CatShape(s, x));
    }
  }

  lemma HeadFor(s: Shape, r: Expr, w: Word) returns (i: nat)
    requires FullShape(s, r) && In(r, w)
    ensures i < |HeadsIn(s)| && In(HeadsIn(s)[i], w)
  {
    var h :| h in HeadsIn(s) && In(h, w);
    i :| 0 <= i < |HeadsIn(s)| && HeadsIn(s)[i] == h;
  }

  lemma CatIn(e: Expr, x: Expr, w: Word, k: nat)
    requires k <= |w| && In(e, w[..k]) && In(x, w[k..])
    ensures In(Cat(e, x), w)
  {
  }

  lemma AltFull(xs: seq<Shape>, rs: seq<Expr>)
    requires |xs| == |rs| > 0 && !Stale(xs) && forall k :: 0 <= k < |xs| ==> FullShape(xs[k], rs[|rs| - 1 - k])
    ensures FullShape(AltShape(xs), Alt(rs))
  {
    var n := |rs|;
    if n < 2 {
      assert FullShape(xs[0], rs[0]);
    } else {
      assert AllIntact(xs);
      AllSeenIff(xs);
      HeadsCounted(xs);
      forall w | In(Alt(rs), w) ensures exists h :: h in HeadsIn(AltShape(xs)) && In(h, w) {
        var i :| 0 <= i < n && In(rs[i], w);
        var k := n - 1 - i;
        assert FullShape(xs[k], rs[i]);
        var h :| h in HeadsIn(xs[k]) && In(h, w);
        GatheredAll(xs, k, h);
      }
    }
  }

  lemma {:induction false} HeadsCounted<T(!new)>(xs: seq<Fork<T>>)
    requires AllIntact(xs)
    ensures |AllHeads(xs)| >= |xs|
  {
    if xs != [] {
      var m := |xs| - 1;
      var front := Manys(xs[..m]);
      HeadsCounted(xs[..m]);
      if xs[m].Many? {
        assert Manys(xs) == front + [xs[m].list] && Manys(xs)[..|front|] == front;
      } else {
        assert Manys(xs) == front + [] == front;
      }
    }
  }

  lemma {:induction false} ShapeFull(r: Expr)
    requires KeepsBranches(r)
    ensures FullShape(ShapeOf(r), r)
    decreases r, 0
  {
    match r
    case Atom(_) => assert r in HeadsIn(ShapeOf(r));
    case Cat(left, right) =>
      ShapeFull(left);
      ShapeFull(right);
      MeansFull(ShapeOf(right), right);
      CatFull(ShapeOf(left), left, Built(right), right);
    case Alt(rs) =>
      if rs != [] {
        forall k | 0 <= k < |rs| ensures FullShape(Shapes(rs)[k], rs[|rs| - 1 - k]) {
          ShapesAt(rs, k);
          ShapeFull(rs[|rs| - 1 - k]);
        }
        StaleIff(rs);
        AltFull(Shapes(rs), rs);
      }
    case Opt(body) => BodyFull(body);
    case Star(body) => BodyFull(body);
    case Plus(body) => BodyFull(body);
  }

  lemma {:induction false} BodyFull(body: Expr)
    requires KeepsBranches(body)
    ensures FullShape(ShapeOf(Opt(body)), Opt(body)) && FullShape(ShapeOf(Star(body)), Star(body))
    ensures FullShape(ShapeOf(Plus(body)), Plus(body))
    decreases body, 1
  {
    ShapeFull(body);
    MeansFull(ShapeOf(body), body);
    QuantifiedWithin(body, Built(body));
    assert Opt(Built(body)) in HeadsIn(ShapeOf(Opt(body))) && Star(Built(body)) in HeadsIn(ShapeOf(Star(body)));
    assert Plus(Built(body)) in HeadsIn(ShapeOf(Plus(body)));
  }

  /** If no alternation loses branches, exactly the words of r are read. */
  lemma NothingLost(r: Expr)
    requires KeepsBranches(r)
    ensures SameWords(Built(r), r)
  {
    ShapeFull(r);
    MeansFull(ShapeOf(r), r);
    ShapeSound(r);
    MeansWithin(ShapeOf(r), r);
  }

  // ---------------------------------------------------------------- what is lost

  /** The list that the graph of r starts with, if it starts with one, ends at its tail. */
  predicate EndsAtTail(r: Expr) {
    match r
    case Cat(left, _) => EndsAtTail(left)
    case Alt(rs) => !LosesBranches(rs) && forall i :: 0 <= i < |rs| && StartsWithTree(rs[i]) ==> EndsAtTail(rs[i])
    case _ => true
  }

  /** xs are the shapes of rs, in reverse order. */
  ghost predicate ShapesMatch(rs: seq<Expr>, xs: seq<Shape>) {
    |xs| == |rs| && forall i :: 0 <= i < |rs| ==> ShapeMatches(rs[i], xs[|rs| - 1 - i])
  }

  ghost predicate ShapeMatches(r: Expr, x: Shape) {
    && x == ShapeOf(r) && (x.Many? <==> StartsWithTree(r))
    && (x.Many? ==> Usable(x.list) && (x.list.tail.Last? <==> EndsAtTail(r)))
  }

  lemma {:induction false} EndsAtTailIff(r: Expr)
    ensures ShapeMatches(r, ShapeOf(r))
    decreases r, 1
  {
    ShapeIsMany(r);
    ShapeSound(r);
    match r
    case Cat(left, _) => EndsAtTailIff(left);
    case Alt(rs) =>
      if rs != [] {
        BranchesMatch(rs);
        AltEndsAtTail(rs, Shapes(rs));
      }
    case _ =>
  }

  lemma {:induction false} BranchesMatch(rs: seq<Expr>)
    ensures ShapesMatch(rs, Shapes(rs))
    decreases rs, 0
  {
    forall i | 0 <= i < |rs| ensures ShapeMatches(rs[i], Shapes(rs)[|rs| - 1 - i]) {
      ShapesAt(rs, |rs| - 1 - i);
      EndsAtTailIff(rs[i]);
    }
  }

  lemma AltEndsAtTail(rs: seq<Expr>, xs: seq<Shape>)
    requires rs != [] && ShapesMatch(rs, xs) && xs == Shapes(rs)
    ensures AltShape(xs).Many? ==> (AltShape(xs).list.tail.Last? <==> EndsAtTail(Alt(rs)))
  {
    var n := |rs|;
    forall k | 0 <= k < n ensures ShapeMatches(rs[n - 1 - k], xs[k]) {
      assert xs[n - 1 - (n - 1 - k)] == xs[k];
    }
    hide ShapeOf;
    hide In;
    if n >= 2 {
      StaleIff(rs);
      GatheredTail(xs);
      hide Gathered;
      hide Stale;
      hide Shapes;
      if !LosesBranches(rs) {
        if Unbroken(xs, n) {
          forall i | 0 <= i < n && StartsWithTree(rs[i]) ensures EndsAtTail(rs[i]) {
            assert ShapeMatches(rs[i], xs[n - 1 - i]);
          }
        }
      }
    }
  }

  /** A branch that does not start with an alternation reads w. */
  ghost predicate PlainReads(rs: seq<Expr>, w: Word) {
    exists i :: 0 <= i < |rs| && !StartsWithTree(rs[i]) && In(Built(rs[i]), w)
  }

  /** An item of the list of a branch reads w, and all lists of later branches end at their tails. */
  ghost predicate ListedReads(rs: seq<Expr>, w: Word) {
    exists i, h :: 0 <= i < |rs| && ItemOf(rs[i], h) && TailsFrom(rs, i + 1) && In(h, w)
  }

  ghost predicate ItemOf(r: Expr, h: Expr) { ShapeOf(r).Many? && h in ShapeOf(r).list.items }

  ghost predicate TailsFrom(rs: seq<Expr>, i: nat) {
    forall k :: i <= k < |rs| && StartsWithTree(rs[k]) ==> EndsAtTail(rs[k])
  }

  /** What the first branch that starts with an alternation has at the tail of its list reads w. */
  ghost predicate TailReads(rs: seq<Expr>, w: Word) {
    exists i, h :: 0 <= i < |rs| && FirstTree(rs, i) && TailOf(rs[i], h) && In(h, w)
  }

  ghost predicate TailOf(r: Expr, h: Expr) { ShapeOf(r).Many? && End(ShapeOf(r).list) == Some(h) }

  ghost predicate FirstTree(rs: seq<Expr>, i: int) {
    0 <= i < |rs| && StartsWithTree(rs[i]) && forall k :: 0 <= k < i ==> !StartsWithTree(rs[k])
  }

  /** For all branches, those included that have lost some of their own: exactly what an alternation
      reads. */
  lemma BuiltIff(rs: seq<Expr>, w: Word)
    requires |rs| >= 2
    ensures In(Built(Alt(rs)), w) <==>
            || PlainReads(rs, w)
            || (!LosesBranches(rs) && ListedReads(rs, w))
            || ((LosesBranches(rs) || !TailsFrom(rs, 0)) && TailReads(rs, w))
  {
    var xs := Shapes(rs);
    BranchesMatch(rs);
    StaleIff(rs);
    assert Built(Alt(rs)) == Alt(Seen(Gathered(xs)));
    MeansIs(Many(Gathered(xs)), w);
    MatchUsable(rs, xs);
    forall h ensures h in Seen(Gathered(xs)) <==> Found(xs, h) {
      SeenIff(xs, h);
    }
    PlainFound(rs, xs, w);
    ListedFound(rs, xs, w);
    TailFound(rs, xs, w);
    FoundAny(rs, xs, w);
  }

  lemma MatchAt(rs: seq<Expr>, xs: seq<Shape>, k: nat)
    requires ShapesMatch(rs, xs) && k < |xs|
    ensures ShapeMatches(rs[|rs| - 1 - k], xs[k])
  {
    var i := |rs| - 1 - k;
    assert |rs| - 1 - i == k;
  }

  lemma MatchUsable(rs: seq<Expr>, xs: seq<Shape>)
    requires ShapesMatch(rs, xs)
    ensures AllUsable(xs)
  {
    forall k | 0 <= k < |xs| && xs[k].Many? ensures Usable(xs[k].list) {
      MatchAt(rs, xs, k);
    }
  }

  ghost predicate FoundPlain(xs: seq<Shape>, w: Word) { exists i :: 0 <= i < |xs| && xs[i].One? && In(xs[i].head, w) }

  ghost predicate FoundListed(xs: seq<Shape>, w: Word) {
    exists j, h :: 0 <= j < |xs| && xs[j].Many? && Unbroken(xs, j) && h in xs[j].list.items && In(h, w)
  }

  ghost predicate FoundTail(xs: seq<Shape>, w: Word) {
    exists j, h :: LastMany(xs, j) && End(xs[j].list) == Some(h) && In(h, w)
  }

  lemma PlainFound(rs: seq<Expr>, xs: seq<Shape>, w: Word)
    requires ShapesMatch(rs, xs)
    ensures FoundPlain(xs, w) <==> PlainReads(rs, w)
  {
    var n := |rs|;
    if i :| 0 <= i < n && xs[i].One? && In(xs[i].head, w) {
      MatchAt(rs, xs, i);
      assert Built(rs[n - 1 - i]) == xs[i].head;
      assert !StartsWithTree(rs[n - 1 - i]) && In(Built(rs[n - 1 - i]), w);
    }
    if i :| 0 <= i < n && !StartsWithTree(rs[i]) && In(Built(rs[i]), w) {
      assert ShapeMatches(rs[i], xs[n - 1 - i]);
      assert Built(rs[i]) == xs[n - 1 - i].head;
    }
  }

  /** The order of the list is that of the branches, reversed. */
  lemma TailsUnbroken(rs: seq<Expr>, xs: seq<Shape>, i: nat)
    requires ShapesMatch(rs, xs) && i <= |rs|
    ensures Unbroken(xs, |rs| - i) <==> TailsFrom(rs, i)
  {
    var n := |rs|;
    hide ShapeOf;
    forall k | 0 <= k < n ensures ShapeMatches(rs[n - 1 - k], xs[k]) { MatchAt(rs, xs, k); }
    if TailsFrom(rs, i) {
      forall k | 0 <= k < n - i && xs[k].Many? ensures xs[k].list.tail.Last? {
        assert i <= n - 1 - k < n && StartsWithTree(rs[n - 1 - k]);
      }
    }
    if Unbroken(xs, n - i) {
      forall k | i <= k < n && StartsWithTree(rs[k]) ensures EndsAtTail(rs[k]) {
        assert ShapeMatches(rs[k], xs[n - 1 - k]);
      }
    }
  }

  lemma ListedFound(rs: seq<Expr>, xs: seq<Shape>, w: Word)
    requires ShapesMatch(rs, xs)
    ensures FoundListed(xs, w) <==> ListedReads(rs, w)
  {
    var n := |rs|;
    if j, h :| 0 <= j < n && xs[j].Many? && Unbroken(xs, j) && h in xs[j].list.items && In(h, w) {
      var i := n - 1 - j;
      MatchAt(rs, xs, j);
      TailsUnbroken(rs, xs, i + 1);
      assert ItemOf(rs[i], h) && TailsFrom(rs, i + 1) && In(h, w);
    }
    if i, h :| 0 <= i < n && ItemOf(rs[i], h) && TailsFrom(rs, i + 1) && In(h, w) {
      var j := n - 1 - i;
      assert ShapeMatches(rs[i], xs[j]);
      TailsUnbroken(rs, xs, i + 1);
      assert xs[j].Many? && Unbroken(xs, j) && h in xs[j].list.items && In(h, w);
    }
  }

  lemma LastIsFirst(rs: seq<Expr>, xs: seq<Shape>, i: nat)
    requires ShapesMatch(rs, xs) && i < |rs|
    ensures LastMany(xs, |rs| - 1 - i) <==> FirstTree(rs, i)
  {
    var n := |rs|;
    hide ShapeOf;
    forall k | 0 <= k < n ensures xs[k].Many? <==> StartsWithTree(rs[n - 1 - k]) { MatchAt(rs, xs, k); }
    forall k | 0 <= k < n ensures xs[n - 1 - k].Many? <==> StartsWithTree(rs[k]) {
      assert ShapeMatches(rs[k], xs[n - 1 - k]);
    }
    if LastMany(xs, n - 1 - i) {
      forall k | 0 <= k < i ensures !StartsWithTree(rs[k]) { assert xs[n - 1 - k].One?; }
    }
    if FirstTree(rs, i) {
      forall k | n - 1 - i < k < n ensures xs[k].One? { assert !StartsWithTree(rs[n - 1 - k]); }
    }
  }

  lemma TailFound(rs: seq<Expr>, xs: seq<Shape>, w: Word)
    requires ShapesMatch(rs, xs)
    ensures FoundTail(xs, w) <==> TailReads(rs, w)
  {
    var n := |rs|;
    if j, h :| LastMany(xs, j) && End(xs[j].list) == Some(h) && In(h, w) {
      var i := n - 1 - j;
      MatchAt(rs, xs, j);
      LastIsFirst(rs, xs, i);
      assert FirstTree(rs, i) && TailOf(rs[i], h) && In(h, w);
    }
    if i, h :| 0 <= i < n && FirstTree(rs, i) && TailOf(rs[i], h) && In(h, w) {
      var j := n - 1 - i;
      assert ShapeMatches(rs[i], xs[j]);
      LastIsFirst(rs, xs, i);
      assert LastMany(xs, j) && End(xs[j].list) == Some(h) && In(h, w);
    }
  }

  lemma FoundAny(rs: seq<Expr>, xs: seq<Shape>, w: Word)
    requires ShapesMatch(rs, xs)
    ensures (exists h :: Found(xs, h) && In(h, w)) <==>
            || FoundPlain(xs, w)
            || (!Stale(xs) && FoundListed(xs, w))
            || ((Stale(xs) || !TailsFrom(rs, 0)) && FoundTail(xs, w))
  {
    TailsUnbroken(rs, xs, 0);
    hide In;
    hide Stale;
    hide End;
    forall j | LastMany(xs, j) ensures Unbroken(xs, j + 1) <==> Unbroken(xs, |xs|) {}
    if i :| 0 <= i < |xs| && xs[i].One? && In(xs[i].head, w) {
      assert Found(xs, xs[i].head);
    }
    if j, h :| 0 <= j < |xs| && xs[j].Many? && Unbroken(xs, j) && h in xs[j].list.items && In(h, w) && !Stale(xs) {
      assert Found(xs, h);
    }
    if j, h :| LastMany(xs, j) && End(xs[j].list) == Some(h) && In(h, w) && (Stale(xs) || !TailsFrom(rs, 0)) {
      assert Found(xs, h);
    }
  }

  /** What the first branch has at the tail of its list. */
  function Survivor(rs: seq<Expr>): Expr
    requires rs != []
  {
    match ShapeOf(rs[0])
    case One(e) => e
    case Many(l) => match End(l) case Some(h) => h case None => rs[0]
  }

  /** Where branches are lost that had lost none of their own, what is left are those that do not start with
      an alternation and the survivor. */
  lemma WhatIsLeft(rs: seq<Expr>, w: Word)
    requires LosesBranches(rs) && forall i :: 0 <= i < |rs| ==> KeepsBranches(rs[i])
    ensures In(Built(Alt(rs)), w) <==>
            || (exists i :: 0 < i < |rs| && !StartsWithTree(rs[i]) && In(rs[i], w))
            || In(Survivor(rs), w)
  {
    BuiltIff(rs, w);
    forall i | 0 <= i < |rs| ensures In(Built(rs[i]), w) <==> In(rs[i], w) {
      NothingLost(rs[i]);
    }
    EndsAtTailIff(rs[0]);
    hide Built;
    hide LosesBranches;
    TailSurvives(rs, w);
    hide TailReads;
    hide In;
    hide KeepsBranches;
  }

  lemma TailSurvives(rs: seq<Expr>, w: Word)
    requires rs != [] && StartsWithTree(rs[0]) && ShapeMatches(rs[0], ShapeOf(rs[0]))
    ensures TailReads(rs, w) <==> In(Survivor(rs), w)
  {
    hide In;
    hide StartsWithTree;
    if In(Survivor(rs), w) {
      assert FirstTree(rs, 0) && TailOf(rs[0], Survivor(rs));
    }
  }

  /** The list of `a|b` holds b and a. */
  lemma PairItems(a: Label, b: Label)
    ensures ShapeOf(Alt([Atom(a), Atom(b)])) == Many(BranchList([Atom(b), Atom(a)], 2, Last))
  {
    var rs := [Atom(a), Atom(b)];
    var xs := Shapes(rs);
    ShapesAt(rs, 0);
    ShapesAt(rs, 1);
    assert xs == [One(Atom(b)), One(Atom(a))];
    assert xs[..1] == [One(Atom(b))] && xs[..1][..0] == [];
    assert Ones(xs[..1]) == [Atom(b)] && Manys(xs[..1]) == [];
    assert Ones(xs) == [Atom(b), Atom(a)] && Manys(xs) == [];
  }

  function Lit(c: Letter): Expr { Atom(Literal(c)) }

  /** `(a|b)|c|d` */
  function Example(): Expr { Alt([Alt([Lit(97), Lit(98)]), Lit(99), Lit(100)]) }

  /** It has the word b, but what is built for it reads a, c and d only. */
  lemma ExampleLosesB(w: Word)
    ensures In(Example(), [98])
    ensures In(Built(Example()), w) <==> w == [97] || w == [99] || w == [100]
  {
    var ab := Alt([Lit(97), Lit(98)]);
    var rs := Example().branches;
    assert In(Example(), [98]) by {
      assert ab.branches[1] == Lit(98) && In(ab, [98]) && rs[0] == ab;
    }
    assert LosesBranches(rs) by {
      assert !StartsWithTree(rs[1]) && !StartsWithTree(rs[2]);
    }
    PairItems(Literal(97), Literal(98));
    assert Survivor(rs) == Lit(97);
    WhatIsLeft(rs, w);
    OtherBranches(rs, w);
  }

  lemma OtherBranches(rs: seq<Expr>, w: Word)
    requires |rs| == 3 && StartsWithTree(rs[0]) && rs[1] == Lit(99) && rs[2] == Lit(100)
    ensures (exists i :: 0 < i < |rs| && !StartsWithTree(rs[i]) && In(rs[i], w)) <==> w == [99] || w == [100]
  {
    if w == [99] { assert !StartsWithTree(rs[1]) && In(rs[1], w); }
    if w == [100] { assert !StartsWithTree(rs[2]) && In(rs[2], w); }
  }

  /** Its list: d and c on the chain, a at a tail elsewhere, and four items counted. */
  lemma ExampleList()
    ensures ShapeOf(Example()) == Many(BranchList([Lit(100), Lit(99)], 4, Behind(Lit(97))))
  {
    var rs := Example().branches;
    var xs := Shapes(rs);
    PairItems(Literal(97), Literal(98));
    ShapesAt(rs, 0);
    ShapesAt(rs, 1);
    ShapesAt(rs, 2);
    var pair := Many(BranchList([Lit(98), Lit(97)], 2, Last));
    assert xs == [One(Lit(100)), One(Lit(99)), pair];
    hide ShapeOf;
    hide Shapes;
    ThreeGathered(xs, Lit(100), Lit(99), pair.list);
  }

  lemma ThreeGathered<T>(xs: seq<Fork<T>>, x: T, y: T, l: BranchList<T>)
    requires xs == [One(x), One(y), Many(l)] && l.items != []
    ensures Gathered(xs) == Transfer(BranchList([x, y], 2, Freed), l)
  {
    assert xs[..2] == [One(x), One(y)] && xs[..2][..1] == [One(x)] && xs[..2][..1][..0] == [];
    assert Ones(xs[..2][..1]) == [x] && Manys(xs[..2][..1]) == [];
    assert Ones(xs[..2]) == [x, y] && Manys(xs[..2]) == [];
    assert Ones(xs) == [x, y] && Manys(xs) == [l];
    assert [l][..0] == [] && TransferAll(Remaining(xs), [l][..0]) == Remaining(xs);
  }

  /** With one more branch behind it, `((a|b)|c|d)|e`, a is still read. */
  lemma NestedExample(w: Word)
    ensures In(Built(Alt([Example(), Lit(101)])), w) <==> w == [97] || w == [99] || w == [100] || w == [101]
  {
    var rs := [Example(), Lit(101)];
    assert !LosesBranches(rs) && StartsWithTree(rs[0]) && !StartsWithTree(rs[1]) && !EndsAtTail(rs[0]) by {
      var more := Example().branches;
      assert LosesBranches(more) by { assert !StartsWithTree(more[1]) && !StartsWithTree(more[2]); }
    }
    ExampleList();
    BuiltIff(rs, w);
    NestedReads(rs, w);
  }

  lemma NestedReads(rs: seq<Expr>, w: Word)
    requires rs == [Example(), Lit(101)] && StartsWithTree(rs[0]) && !StartsWithTree(rs[1]) && !EndsAtTail(rs[0])
    requires ShapeOf(rs[0]) == Many(BranchList([Lit(100), Lit(99)], 4, Behind(Lit(97))))
    ensures PlainReads(rs, w) <==> w == [101]
    ensures ListedReads(rs, w) <==> w == [100] || w == [99]
    ensures TailReads(rs, w) <==> w == [97]
    ensures !TailsFrom(rs, 0)
  {
    assert Built(rs[1]) == Lit(101) && !ShapeOf(rs[1]).Many?;
    assert TailsFrom(rs, 1) && FirstTree(rs, 0) && TailOf(rs[0], Lit(97));
    assert ItemOf(rs[0], Lit(100)) && ItemOf(rs[0], Lit(99));
    if w == [101] { assert In(Built(rs[1]), w); }
    if w == [100] { assert In(Lit(100), w); }
    if w == [99] { assert In(Lit(99), w); }
    if w == [97] { assert In(Lit(97), w); }
  }
}
