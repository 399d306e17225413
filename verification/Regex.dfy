/** The expressions the engine compiles (literals, `.`, bracket ranges, concatenation, alternation,
    `?`, `*`, `+`) and the words they denote. */
module Regex {

  import opened Bytes

  type Word = seq<Byte>

  /** C's string terminator, and the marker the scanner stores at the end of a line (-2 as a char). */
  const NUL: Byte := 0
  const EOL: Byte := 254

  /** A byte that a pattern can name. */
  type Letter = b: Byte | b != NUL && b != EOL witness 97

  /** The size of a range's bit map: bytes from here on are in no range, negated or not. */
  const SIZE_OF_LOCALE := 128

  /** What a consuming node accepts: one byte, any byte but the end of the line, or one of a set. */
  datatype Label = Literal(c: Letter) | AnyByte | Range(cs: set<Byte>) {
    predicate Accepts(b: Byte) {
      match this {
      case Literal(c) => b == c
      case AnyByte => b != EOL
      case Range(cs) => b < SIZE_OF_LOCALE && b in cs
      }
    }
  }

  datatype Expr =
    | Atom(lab: Label)
    | Cat(left: Expr, right: Expr)
    | Alt(branches: seq<Expr>)
    | Opt(body: Expr)
    | Star(body: Expr)
    | Plus(body: Expr)

  /** The word is in the language of the expression. */
  ghost predicate In(r: Expr, w: Word)
    decreases r, |w|, 1
  {
    match r
    case Atom(lab) => |w| == 1 && lab.Accepts(w[0])
    case Cat(left, right) => exists k :: 0 <= k <= |w| && In(left, w[..k]) && In(right, w[k..])
    case Alt(branches) => exists i :: 0 <= i < |branches| && In(branches[i], w)
    case Opt(body) => w == [] || In(body, w)
    case Star(body) => InStar(body, w)
    case Plus(body) => exists k :: 0 <= k <= |w| && In(body, w[..k]) && InStar(body, w[k..])
  }

  /** A sequence of words of the body; empty ones can be left out. */
  ghost predicate InStar(body: Expr, w: Word)
    decreases body, |w|, 2
  {
    w == [] || exists k :: 0 < k <= |w| && In(body, w[..k]) && InStar(body, w[k..])
  }

  // ---------------------------------------------------------------- what the operators mean

  /** A literal is its own byte, `.` any byte but the end-of-line marker, a range the ASCII bytes of its
      set. */
  lemma AtomWords(c: Letter, cs: set<Byte>, w: Word)
    ensures In(Atom(Literal(c)), w) <==> w == [c]
    ensures In(Atom(AnyByte), w) <==> |w| == 1 && w[0] != 254
    ensures In(Atom(Range(cs)), w) <==> |w| == 1 && w[0] < 128 && w[0] in cs
  {
  }

  /** The words one after another. */
  function Joined(ws: seq<Word>): Word { if ws == [] then [] else ws[0] + Joined(ws[1..]) }

  ghost predicate AllIn(r: Expr, ws: seq<Word>) { forall i :: 0 <= i < |ws| ==> In(r, ws[i]) }

  /** The closure is made of all sequences of words, ... */
  lemma StarWords(r: Expr, w: Word)
    ensures In(Star(r), w) <==> exists ws :: AllIn(r, ws) && w == Joined(ws)
  {
    if InStar(r, w) {
      var ws := StarSplit(r, w);
    }
    if ws :| AllIn(r, ws) && w == Joined(ws) {
      StarJoin(r, ws);
    }
  }

  /** ... and without the empty sequence it is the positive closure. */
  lemma PlusWords(r: Expr, w: Word)
    ensures In(Plus(r), w) <==> exists ws :: ws != [] && AllIn(r, ws) && w == Joined(ws)
  {
    if In(Plus(r), w) {
      var k :| 0 <= k <= |w| && In(r, w[..k]) && InStar(r, w[k..]);
      var ws := StarSplit(r, w[k..]);
      var all := [w[..k]] + ws;
      assert all[1..] == ws && w == w[..k] + w[k..];
      assert AllIn(r, all) && w == Joined(all);
    }
    if ws :| ws != [] && AllIn(r, ws) && w == Joined(ws) {
      StarJoin(r, ws[1..]);
      var k := |ws[0]|;
      assert w[..k] == ws[0] && w[k..] == Joined(ws[1..]);
    }
  }

  lemma {:induction false} StarSplit(r: Expr, w: Word) returns (ws: seq<Word>)
    requires InStar(r, w)
    ensures AllIn(r, ws) && w == Joined(ws)
    decreases |w|
  {
    ws := [];
    if w != [] {
      var k :| 0 < k <= |w| && In(r, w[..k]) && InStar(r, w[k..]);
      var rest := StarSplit(r, w[k..]);
      ws := [w[..k]] + rest;
      assert ws[1..] == rest && w == w[..k] + w[k..];
    }
  }

  lemma {:induction false} StarJoin(r: Expr, ws: seq<Word>)
    requires AllIn(r, ws)
    ensures InStar(r, Joined(ws))
    decreases |ws|
  {
    if ws != [] {
      StarJoin(r, ws[1..]);
      StarStep(r, ws[0], Joined(ws[1..]));
    }
  }

  /** Putting a word of the body in front, empty or not, stays in the closure. */
  lemma StarStep(body: Expr, u: Word, v: Word)
    requires In(body, u) && InStar(body, v)
    ensures InStar(body, u + v)
  {
    var w := u + v;
    if u == [] {
      assert w == v;
    } else {
      assert w[..|u|] == u && w[|u|..] == v;
    }
  }

  /** The expressions denote the same words. */
  ghost predicate SameWords(r: Expr, q: Expr) { forall w :: In(r, w) <==> In(q, w) }
}
