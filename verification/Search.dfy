/** The way of an expression through the whole program: parsed, compiled and run on lines. */
module Search {
  import opened Bytes
  import opened Regex
  import opened KeptBranches
  import opened RegexParser
  import opened RegexCompiler
  import opened ThreadSpec
  import opened LongestMatches
  import opened RunSpec
  import opened Recognizer

  /** A file of lines, with -o and -g, with -v or with -q: what is printed depends only on what is built
      for r, which matches what r matches if no alternation loses branches. */
  method SearchFile(r: Expr, num: nat, flags: Flags, lines: seq<Word>)
      returns (status: nat, printed: seq<(int, int)>)
    requires Proper(r) && 0 < num && flags.Lasting()
    requires forall k :: 0 <= k < |lines| ==> Line(lines[k])
    ensures FileDone(flags, Built(r), lines, status, printed)
    ensures KeepsBranches(r) ==> FileDone(flags, r, lines, status, printed)
  {
    hide *;
    var parser, start, total;
    ghost var m;
    parser, start, total, m := CompileRegex(r, num);
    var sim := new NFASimCtrl(parser.nodes, start, total, flags, m);
    status := sim.ProcessFile(lines, Built(r));
    printed := sim.printed;
    FileNow(flags, Built(r), lines, status, printed);
    if KeepsBranches(r) { SameFile(flags, Built(r), r, lines, status, printed); }
  }

  /** All that r matches is reported and printed, and nothing else. */
  ghost predicate FileDone(flags: Flags, r: Expr, lines: seq<Word>, status: nat, printed: seq<(int, int)>) {
    && printed == Report(flags, r, lines)
    && if flags.silent then status != 0 <==> Matching(r, lines) != 0 else status == Matching(r, lines)
  }

  lemma FileNow(flags: Flags, r: Expr, lines: seq<Word>, status: nat, printed: seq<(int, int)>)
    requires printed == [] + Report(flags, r, lines)
    requires if flags.silent then status != 0 <==> Matching(r, lines) != 0 else status == Matching(r, lines)
    ensures FileDone(flags, r, lines, status, printed)
  {
    assert [] + Report(flags, r, lines) == Report(flags, r, lines);
  }

  lemma SameFile(flags: Flags, r: Expr, q: Expr, lines: seq<Word>, status: nat, printed: seq<(int, int)>)
    requires SameWords(r, q) && FileDone(flags, r, lines, status, printed)
    ensures FileDone(flags, q, lines, status, printed)
  {
    SameReport(flags, r, q, lines);
  }

  /** One line, whatever the options. */
  method SearchLine(r: Expr, num: nat, flags: Flags, line: Word)
      returns (matched: bool, printed: seq<(int, int)>)
    requires Proper(r) && 0 < num && Line(line)
    ensures LineSearched(flags, Built(r), line, matched, printed)
    ensures KeepsBranches(r) ==> LineSearched(flags, r, line, matched, printed)
    ensures matched ==> HasMatch(r, line)
    ensures r.Atom? && r.lab.Range? ==>
              (matched <==> exists k :: 0 <= k < |line| && line[k] < 128 && line[k] in r.lab.cs)
  {
    hide *;
    var parser, start, total;
    ghost var m;
    parser, start, total, m := CompileRegex(r, num);
    var sim := new NFASimCtrl(parser.nodes, start, total, flags, m);
    sim.ResetNfaSim(line);
    matched := sim.RunNfa(Built(r));
    printed := sim.printed;
    LineNow(flags, Built(r), line, matched, printed);
    if matched { MatchKept(Built(r), r, line); }
    if KeepsBranches(r) { SameSearch(flags, Built(r), r, line, matched, printed); }
    if r.Atom? && r.lab.Range? { RangeSearched(flags, r, line, matched, printed); }
  }

  /** The line is reported if and only if r matches in it; what is printed for each option. */
  ghost predicate LineSearched(flags: Flags, r: Expr, line: Word, matched: bool, printed: seq<(int, int)>) {
    && (matched <==> HasMatch(r, line))
    && if !flags.Individual() then LineShown(flags, line, matched, [], printed)
       else if flags.mglobal then printed == Matches(r, line, 0)
       else FirstReported(r, line, [], printed)
  }

  lemma LineNow(flags: Flags, r: Expr, line: Word, matched: bool, printed: seq<(int, int)>)
    requires matched <==> HasMatch(r, line)
    requires flags.Individual() && flags.mglobal ==> printed == [] + Matches(r, line, 0)
    requires flags.Individual() && !flags.mglobal ==> FirstReported(r, line, [], printed)
    requires !flags.Individual() ==> LineShown(flags, line, matched, [], printed)
    ensures LineSearched(flags, r, line, matched, printed)
  {
    assert [] + Matches(r, line, 0) == Matches(r, line, 0);
    hide Matches;
    hide FirstReported;
    hide MatchesAt;
  }

  lemma SameSearch(flags: Flags, r: Expr, q: Expr, line: Word, matched: bool, printed: seq<(int, int)>)
    requires SameWords(r, q) && LineSearched(flags, r, line, matched, printed)
    ensures LineSearched(flags, q, line, matched, printed)
  {
    SameMatches(r, q, line, 0);
    SameLine(r, q, line);
    hide Matches;
    hide FirstReported;
    hide HasMatch;
  }

  /** A range is found exactly where one of its ASCII bytes is. */
  lemma RangeSearched(flags: Flags, r: Expr, line: Word, matched: bool, printed: seq<(int, int)>)
    requires r.Atom? && r.lab.Range? && LineSearched(flags, Built(r), line, matched, printed)
    ensures matched <==> exists k :: 0 <= k < |line| && line[k] < 128 && line[k] in r.lab.cs
  {
    assert Built(r) == r;
    hide Built;
    if matched {
      var i: nat, e: nat :| i < |line| && MatchesAt(r, line, i, e);
      AtomWords(97, r.lab.cs, line[i..e]);
      assert line[i..e][0] == line[i];
    }
    if k :| 0 <= k < |line| && line[k] < 128 && line[k] in r.lab.cs {
      AtomWords(97, r.lab.cs, line[k..k + 1]);
      MatchFound(r, line, k, line[k..k + 1]);
    }
  }

  lemma MatchKept(q: Expr, r: Expr, line: Word)
    requires HasMatch(q, line) && forall w :: In(q, w) ==> In(r, w)
    ensures HasMatch(r, line)
  {
    var i: nat, e: nat :| i < |line| && MatchesAt(q, line, i, e);
    assert MatchesAt(r, line, i, e);
  }

  lemma MissesB(r: Expr, q: Expr, line: Word)
    requires line == [98, EOL] && In(r, [98]) && forall w :: In(q, w) ==> w == [97] || w == [99] || w == [100]
    ensures Line(line) && HasMatch(r, line) && !HasMatch(q, line)
  {
    assert line[0..1] == [98];
    hide In;
    MatchFound(r, line, 0, [98]);
    OneByteWords(q, line, {97, 99, 100});
  }

  /** So the expression `(a|b)|c|d` does not find the line `b`. */
  lemma ExampleMissesB(line: Word)
    requires line == [98, EOL]
    ensures Line(line) && HasMatch(Example(), line) && !HasMatch(Built(Example()), line)
  {
    hide *;
    ExampleLosesB([]);
    forall w | In(Built(Example()), w) ensures w == [97] || w == [99] || w == [100] {
      ExampleLosesB(w);
    }
    MissesB(Example(), Built(Example()), line);
  }

  lemma MatchFound(r: Expr, line: Word, i: nat, w: Word)
    requires i + |w| <= |line| && i < |line| && line[i..i + |w|] == w && In(r, w)
    ensures HasMatch(r, line)
  {
    assert MatchesAt(r, line, i, i + |w|);
  }

  lemma OneByteWords(r: Expr, line: Word, cs: set<Byte>)
    requires forall w :: In(r, w) ==> |w| == 1 && w[0] in cs
    requires forall k :: 0 <= k < |line| ==> line[k] !in cs
    ensures !HasMatch(r, line)
  {
    forall i: nat, e: nat ensures !MatchesAt(r, line, i, e) {
      if i <= e <= |line| && |line[i..e]| == 1 { assert line[i..e][0] == line[i]; }
    }
  }
}
