/** Running the graph without its silent nodes: the set of stops that can be occupied at each
    position, and its agreement with the words that the graph reads. */
module Simulation {
  import opened Bytes
  import opened Regex
  import opened NfaGraph
  import opened NfaConstruct
  import opened EpsilonClosure

  /** The stops that follow a on byte c. */
  ghost function Step(g: Graph, a: Node, c: Byte): set<Node> {
    if a in g && g[a].Match? && g[a].lab.Accepts(c) then Closure(g, g[a].out, {}) else {}
  }

  ghost function StepAll(g: Graph, live: set<Node>, c: Byte): set<Node> {
    set a, x | a in live && x in Step(g, a, c) :: x
  }

  /** The stops occupied at position p by a match attempt that started at position i. */
  ghost function Live(g: Graph, s: Node, text: Word, i: nat, p: nat): set<Node>
    requires i <= p <= |text|
  {
    if p == i then Closure(g, s, {})
    else StepAll(g, Live(g, s, text, i, p - 1), text[p - 1])
  }

  lemma {:induction false} SilentRun(g: Graph, p: seq<Node>)
    requires p != [] && Stops(g, p[|p| - 1])
    ensures Run(g, p, []) <==> Path(g, p, {})
    decreases |p|
  {
    if |p| > 1 { SilentRun(g, p[1..]); }
  }

  /** Silent runs to a stop are what the closure collects. */
  lemma ClosureReads(g: Graph, v: Node, x: Node)
    requires Stops(g, x)
    ensures x in Closure(g, v, {}) <==> Reads(g, v, x, [])
  {
    if x in Closure(g, v, {}) {
      var p :| Path(g, p, {}) && p[0] == v && p[|p| - 1] == x;
      SilentRun(g, p);
      assert RunFrom(g, v, x, p, []);
    }
    if Reads(g, v, x, []) {
      var p :| RunFrom(g, v, x, p, []);
      SilentRun(g, p);
      assert Leads(g, v, x, {});
    }
  }

  /** A run that reads something has a last node that consumes. */
  lemma {:induction false} LastConsumer(g: Graph, p: seq<Node>, w: Word) returns (k: nat)
    requires Run(g, p, w) && w != []
    ensures k + 1 < |p| && Run(g, p[..k + 1], w[..|w| - 1])
    ensures Consumes(g, p[k], w[|w| - 1], p[k + 1]) && Run(g, p[k + 1..], [])
    decreases |p|
  {
    if Silent(g, p[0], p[1]) && Run(g, p[1..], w) {
      k := LastConsumer(g, p[1..], w);
      k := k + 1;
      assert p[..k + 1][1..] == p[1..][..k] && p[1..][k..] == p[k + 1..];
    } else if |w| == 1 {
      k := 0;
      assert w[1..] == [] && w[..0] == [];
      assert Run(g, p[..1], []);
    } else {
      k := LastConsumer(g, p[1..], w[1..]);
      k := k + 1;
      assert p[..k + 1][1..] == p[1..][..k] && p[1..][k..] == p[k + 1..];
      assert w[..|w| - 1][1..] == w[1..][..|w| - 2];
    }
  }

  lemma LastStep(g: Graph, s: Node, x: Node, w: Word, c: Byte) returns (a: Node)
    requires Stops(g, x) && Reads(g, s, x, w + [c])
    ensures Stops(g, a) && Reads(g, s, a, w) && x in Step(g, a, c)
  {
    var u := w + [c];
    var p :| RunFrom(g, s, x, p, u);
    var k := LastConsumer(g, p, u);
    a := p[k];
    assert u[..|u| - 1] == w;
    assert RunFrom(g, s, a, p[..k + 1], w);
    assert RunFrom(g, p[k + 1], x, p[k + 1..], []);
    ClosureReads(g, p[k + 1], x);
  }

  lemma OneStep(g: Graph, s: Node, a: Node, x: Node, w: Word, c: Byte)
    requires Reads(g, s, a, w) && x in Step(g, a, c)
    ensures Reads(g, s, x, w + [c]) && Stops(g, x)
  {
    var b := g[a].out;
    ClosureStops(g, b, {});
    ClosureReads(g, b, x);
    assert Run(g, [a, b][1..], [c][1..]);
    assert RunFrom(g, a, b, [a, b], [c]);
    ReadsJoin(g, a, b, x, [c], []);
    ReadsJoin(g, s, a, x, w, [c] + []);
    assert w + ([c] + []) == w + [c];
  }

  /** The occupied stops are those the graph reaches by reading the text in between. */
  lemma {:induction false} LiveReads(g: Graph, s: Node, text: Word, i: nat, p: nat, x: Node)
    requires i <= p <= |text|
    ensures x in Live(g, s, text, i, p) <==> Stops(g, x) && Reads(g, s, x, text[i..p])
    decreases p
  {
    if p == i {
      ClosureStops(g, s, {});
      assert text[i..p] == [];
      if Stops(g, x) { ClosureReads(g, s, x); }
    } else {
      var w, c := text[i..p - 1], text[p - 1];
      assert text[i..p] == w + [c];
      if x in Live(g, s, text, i, p) {
        var a :| a in Live(g, s, text, i, p - 1) && x in Step(g, a, c);
        LiveReads(g, s, text, i, p - 1, a);
        OneStep(g, s, a, x, w, c);
      }
      if Stops(g, x) && Reads(g, s, x, w + [c]) {
        var a := LastStep(g, s, x, w, c);
        LiveReads(g, s, text, i, p - 1, a);
      }
    }
  }

  /** A match attempt is at the exit after reading exactly the words of the expression. */
  lemma LiveAccepts(g: Graph, s: Node, t: Node, r: Expr, text: Word, i: nat, p: nat)
    requires Accepts(g, s, t, r) && i <= p <= |text|
    ensures t in Live(g, s, text, i, p) <==> In(r, text[i..p])
  {
    LiveReads(g, s, text, i, p, t);
  }
}
