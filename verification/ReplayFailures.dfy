/** Files on which applying all findings does not give what the parser accepted. */
module ReplayFailures {
  import opened Text
  import opened Findings
  import opened Patcher
  import opened SyntaxRepair
  import opened Reindenting
  import opened Collector
  import opened EndToEnd

  // ----- Reading short files -----

  lemma PlainLine(s: string)
    requires s != "" && !IsSpace(s[0]) && !IsSpace(s[|s| - 1])
    ensures LStrip(s) == s && RStrip(s) == s && Indent(s) == 0 && !Blank(s)
  {
    RStripIs(s, |s|);
  }

  lemma ReadsBack(lines: seq<string>)
    requires AllLines(lines) && lines != [] && lines[|lines| - 1] != ""
    ensures SplitLines(Join(lines)) == lines == DropLastEmpty(lines)
  {
    SplitJoin(lines);
  }

  /** Moving a line gives another text. */
  lemma MovedIsNew(lines: seq<string>, e: SyntaxError, r: Repair, k: nat, other: seq<string>)
    requires AllLines(lines) && AllLines(other) && |other| == |lines| && k < |lines|
    requires r.Repair? && 0 < r.start <= |lines| && Candidate(lines, e, r)[k] != other[k]
    ensures Join(Candidate(lines, e, r)) != Join(other)
  {
    hide Join, IsLine, Shifted, Aligned;
    CandidateLines(lines, e, r);
    if Join(Candidate(lines, e, r)) == Join(other) {
      JoinInjective(Candidate(lines, e, r), other);
    }
  }

  /** The span of line 2 and line 3, moved below the header in line 1. */
  function BlockRepair(lines: seq<string>): Repair
    requires |lines| >= 3 && Indent(lines[1]) == 0
  {
    Repair(Join(Shifted(lines, 1, 3, INDENT_STEP)[1..3]), 2, 3, INDENT_STEP)
  }

  const BLOCK_ERROR := SyntaxError(2, ExpectedBlock(1))

  /** When the forward bound is line 3 and the parser takes the whole span, that is the repair. */
  lemma BlockIsRepaired(parse: Parser, lines: seq<string>)
    requires AllLines(lines) && |lines| >= 3 && lines[|lines| - 1] != ""
    requires !Blank(lines[1]) && Indent(lines[0]) == Indent(lines[1]) == 0
    requires ForwardBound(lines, 2, SearchLimit(lines, 2), 0, 0) == 3
    requires parse(Join(Shifted(lines, 1, 3, INDENT_STEP))).Parses?
    ensures IsSyntaxFix(parse, Join(lines), BLOCK_ERROR, BlockRepair(lines), Medium)
  {
    hide Join, Shifted, ForwardBound, SplitLines, LStrip, IsMisalignedFix, IsBackwardFix;
    ReadsBack(lines);
    assert IsIndentFix(parse, lines, BLOCK_ERROR, BlockRepair(lines));
  }

  // ----- The span ends in an empty line -----

  const WITH_GAP := ["def f():", "x", "", "def g(): pass"]

  /** The body of the first function is not indented; every other text parses. */
  function ParseWithGap(code: string): ParseResult {
    if code == Join(WITH_GAP) then Fails(BLOCK_ERROR) else Parses
  }

  lemma DefinitionStops(line: string)
    requires LStrip(line) == line != "" && StartsWithWord(line, "def")
    ensures Stops(line, 0, 0)
  {
    hide LStrip;
  }

  lemma GapIsLines()
    ensures AllLines(WITH_GAP)
  {
    forall i | 0 <= i < |WITH_GAP| ensures IsLine(WITH_GAP[i]) {
      assert IsLine("def f():") && IsLine("x") && IsLine("") && IsLine("def g(): pass");
    }
  }

  /** Blank lines never end the span. */
  lemma EmptyGoesOn()
    ensures !Stops("", 0, 0)
  {
  }

  lemma GapBound()
    ensures Indent(WITH_GAP[0]) == Indent(WITH_GAP[1]) == 0 && !Blank(WITH_GAP[1])
    ensures ForwardBound(WITH_GAP, 2, SearchLimit(WITH_GAP, 2), 0, 0) == 3
  {
    hide LStrip, RStrip, IsBoundary, Stops;
    PlainLine("def f():");
    PlainLine("x");
    PlainLine("def g(): pass");
    DefinitionStops("def g(): pass");
    EmptyGoesOn();
    assert ForwardBound(WITH_GAP, 3, 4, 0, 0) == 3;
  }

  /** What the collector finds. */
  lemma GapCollection(filename: string) returns (finding: Finding, stop: Stop)
    ensures IsCollection(ParseWithGap, filename, Join(WITH_GAP), MAX_SYNTAX_ERRORS,
                         [finding], WITH_GAP, stop)
    ensures Indent(WITH_GAP[1]) == 0 && stop == Reindent(BLOCK_ERROR, BlockRepair(WITH_GAP))
    ensures SplitLines(Join(WITH_GAP)) == WITH_GAP
  {
    hide Join, ForwardBound, SplitLines, LStrip, IsSyntaxFix, Blank, FindingFor, IsLine, IsCollection,
         IsColonChain, ColonFixed, Shifted, IsSpace;
    var lines, code := WITH_GAP, Join(WITH_GAP);
    GapIsLines();
    GapBound();
    ReadsBack(lines);
    var r := BlockRepair(lines);
    assert Candidate(lines, BLOCK_ERROR, r)[1] == Spaces(INDENT_STEP) + lines[1];
    assert |Candidate(lines, BLOCK_ERROR, r)[1]| > |lines[1]|;
    MovedIsNew(lines, BLOCK_ERROR, r, 1, lines);
    BlockIsRepaired(ParseWithGap, lines);
    EmptyChain(ParseWithGap, filename, lines);
    stop := Reindent(BLOCK_ERROR, r);
    finding := FindingFor(filename, lines, BLOCK_ERROR, r, Medium);
    RunEndsAtError(ParseWithGap, filename, code, MAX_SYNTAX_ERRORS, [], finding, BLOCK_ERROR, r);
    assert [] + [finding] == [finding];
  }

  lemma GapEnd(stop: Stop)
    requires Indent(WITH_GAP[1]) == 0 && stop == Reindent(BLOCK_ERROR, BlockRepair(WITH_GAP))
    ensures stop.repair.Repair? && stop.repair.start == 2 && stop.repair.end == 3 <= |WITH_GAP|
    ensures 0 < stop.repair.start <= |DropLastEmpty(WITH_GAP)|
    ensures WITH_GAP[2] == "" && SpanMisses([], stop.repair)
  {
    hide Join, LStrip, Shifted;
  }

  /** A patch of a file whose only finding is a guess that ends in an empty line. */
  lemma GuessLosesEnd(parse: Parser, filename: string, code: string, cap: nat, finding: Finding,
                      working: seq<string>, stop: Stop,
                      patched: string, applied: seq<Finding>, notApplied: seq<Finding>)
    requires IsCollection(parse, filename, code, cap, [finding], working, stop)
    requires stop.Reindent? && stop.repair.Repair? && SpanMisses([], stop.repair)
    requires 0 < stop.repair.start <= |DropLastEmpty(working)|
    requires 0 < stop.repair.end <= |SplitLines(code)| && SplitLines(code)[stop.repair.end - 1] == ""
    requires IsPatch(code, [finding], patched, applied, notApplied)
    ensures notApplied == []
    ensures patched != AsText(code, AcceptedLines(working, stop.error, stop.repair))
  {
    hide *;
    assert [finding][..0] == [];
    PatchIsAcceptedExactlyWhen(parse, filename, code, cap, [finding], working, stop,
                               patched, applied, notApplied);
  }

  /** The blank line before the second function is taken into the span, and lost in every patch. */
  lemma EmptyLineIsLost(filename: string) returns (finding: Finding, stop: Stop)
    ensures IsCollection(ParseWithGap, filename, Join(WITH_GAP), MAX_SYNTAX_ERRORS,
                         [finding], WITH_GAP, stop)
    ensures stop.Reindent? && stop.repair.Repair? && SpanMisses([], stop.repair)
    ensures 0 < stop.repair.start < stop.repair.end == 3 <= |WITH_GAP| && WITH_GAP[2] == ""
    ensures stop.repair.start <= |DropLastEmpty(WITH_GAP)|
    ensures forall patched, applied, notApplied
      | IsPatch(Join(WITH_GAP), [finding], patched, applied, notApplied) ::
        && notApplied == []
        && patched != AsText(Join(WITH_GAP), AcceptedLines(WITH_GAP, stop.error, stop.repair))
  {
    hide *;
    var code, lines := Join(WITH_GAP), WITH_GAP;
    finding, stop := GapCollection(filename);
    GapEnd(stop);
    forall patched, applied, notApplied | IsPatch(code, [finding], patched, applied, notApplied)
      ensures notApplied == [] && patched != AsText(code, AcceptedLines(lines, stop.error, stop.repair))
    {
      GuessLosesEnd(ParseWithGap, filename, code, MAX_SYNTAX_ERRORS, finding, lines,
                    stop, patched, applied, notApplied);
    }
  }

  // ----- The span holds a line that was repaired before -----

  const NO_COLONS := ["def f()", "if x", "    y"]
  const ONE_COLON := ["def f():", "if x", "    y"]
  const TWO_COLONS := ["def f():", "if x:", "    y"]
  const FIRST_COLON := SyntaxError(1, ExpectedColon)
  const SECOND_COLON := SyntaxError(2, ExpectedColon)

  /** Two colons are missing, and then an indent; every other text parses. */
  function ParseColons(code: string): ParseResult {
    if code == Join(NO_COLONS) then Fails(FIRST_COLON)
    else if code == Join(ONE_COLON) then Fails(SECOND_COLON)
    else if code == Join(TWO_COLONS) then Fails(BLOCK_ERROR)
    else Parses
  }

  lemma ColonLines()
    ensures AllLines(NO_COLONS) && AllLines(ONE_COLON) && AllLines(TWO_COLONS)
  {
    assert IsLine("def f()") && IsLine("def f():") && IsLine("if x") && IsLine("if x:") && IsLine("    y");
  }

  /** The three texts are told apart by their lines. */
  lemma TextsOfColons()
    ensures ParseColons(Join(NO_COLONS)) == Fails(FIRST_COLON)
    ensures ParseColons(Join(ONE_COLON)) == Fails(SECOND_COLON)
    ensures ParseColons(Join(TWO_COLONS)) == Fails(BLOCK_ERROR)
  {
    hide Join, IsLine;
    ColonLines();
    assert |NO_COLONS[0]| < |ONE_COLON[0]| && |ONE_COLON[1]| < |TWO_COLONS[1]|;
    if Join(NO_COLONS) == Join(ONE_COLON) { JoinInjective(NO_COLONS, ONE_COLON); }
    if Join(NO_COLONS) == Join(TWO_COLONS) { JoinInjective(NO_COLONS, TWO_COLONS); }
    if Join(ONE_COLON) == Join(TWO_COLONS) { JoinInjective(ONE_COLON, TWO_COLONS); }
  }

  /** A line with neither a colon at its end nor a comment sign gets its colon. */
  lemma AddsColon(lines: seq<string>, e: SyntaxError)
    requires AllLines(lines) && lines != [] && lines[|lines| - 1] != ""
    requires e.msg == ExpectedColon && 0 < e.lineno <= |lines|
    requires var line := lines[e.lineno - 1];
      line != "" && !IsSpace(line[0]) && !IsSpace(line[|line| - 1]) && line[|line| - 1] != ':'
      && '#' !in line
    ensures MissingColonFix(Join(lines), e) == lines[e.lineno - 1] + ":"
  {
    hide Join, SplitLines, IsLine, LStrip;
    ReadsBack(lines);
    PlainLine(lines[e.lineno - 1]);
  }

  /** The findings of the two colon repairs. */
  function ColonFinding(filename: string, working: seq<string>, e: SyntaxError, fix: string): Finding {
    FindingFor(filename, working, e, Repair(fix, e.lineno, 0, 0), High)
  }

  lemma ColonsAdded()
    ensures MissingColonFix(Join(NO_COLONS), FIRST_COLON) == "def f():"
    ensures MissingColonFix(Join(ONE_COLON), SECOND_COLON) == "if x:"
  {
    hide Join, IsLine, MissingColonFix;
    ColonLines();
    AddsColon(NO_COLONS, FIRST_COLON);
    AddsColon(ONE_COLON, SECOND_COLON);
  }

  lemma ColonChain(filename: string) returns (colons: seq<Finding>)
    ensures IsColonChain(ParseColons, filename, NO_COLONS, colons)
    ensures ColonFixed(NO_COLONS, colons) == TWO_COLONS
    ensures |colons| == 2 && colons[0].line == 1 && colons[1].line == 2
  {
    hide Join, ParseColons, IsColonChain, ColonFixed, MissingColonFix, IsLine, Strip;
    TextsOfColons();
    ColonLines();
    ColonsAdded();
    EmptyChain(ParseColons, filename, NO_COLONS);
    RoundDone(ParseColons, filename, NO_COLONS, [], FIRST_COLON);
    var first := ColonFinding(filename, NO_COLONS, FIRST_COLON, "def f():");
    assert [] + [first] == [first];
    assert NO_COLONS[0 := "def f():"] == ONE_COLON;
    RoundDone(ParseColons, filename, NO_COLONS, [first], SECOND_COLON);
    var second := ColonFinding(filename, ONE_COLON, SECOND_COLON, "if x:");
    assert ONE_COLON[1 := "if x:"] == TWO_COLONS;
    colons := [first] + [second];
  }

  lemma PlainLines()
    ensures Indent("def f():") == Indent("if x:") == 0 && !Blank("if x:")
  {
    hide LStrip, RStrip;
    PlainLine("def f():");
    PlainLine("if x:");
  }

  lemma IndentedGoesOn()
    ensures !Stops("    y", 0, 0)
  {
    hide LStrip, IsBoundary;
    assert Spaces(4) + "y" == "    y";
    LStripAfterSpaces(4, "y");
    PlainLine("y");
  }

  lemma BodyBound()
    ensures Indent(TWO_COLONS[0]) == Indent(TWO_COLONS[1]) == 0 && !Blank(TWO_COLONS[1])
    ensures ForwardBound(TWO_COLONS, 2, SearchLimit(TWO_COLONS, 2), 0, 0) == 3
  {
    hide RStrip, IsBoundary, LStrip, IsSpace, Stops;
    PlainLines();
    IndentedGoesOn();
    assert ForwardBound(TWO_COLONS, 3, 3, 0, 0) == 3;
  }

  lemma SpanParses(r: Repair)
    requires r.Repair? && r.start == 2 && r.end == 3 && r.column == INDENT_STEP
    requires Indent(TWO_COLONS[1]) == 0 && !Blank(TWO_COLONS[1])
    ensures ParseColons(Join(Candidate(TWO_COLONS, BLOCK_ERROR, r))).Parses?
  {
    hide Join, IsLine, LStrip, Blank, Shifted, Aligned;
    ColonLines();
    var moved := Candidate(TWO_COLONS, BLOCK_ERROR, r);
    assert moved[1] == Spaces(INDENT_STEP) + TWO_COLONS[1];
    assert |moved[1]| > |TWO_COLONS[1]| > |ONE_COLON[1]| == |NO_COLONS[1]|;
    MovedIsNew(TWO_COLONS, BLOCK_ERROR, r, 1, NO_COLONS);
    MovedIsNew(TWO_COLONS, BLOCK_ERROR, r, 1, ONE_COLON);
    MovedIsNew(TWO_COLONS, BLOCK_ERROR, r, 1, TWO_COLONS);
  }

  lemma CandidateShifts(lines: seq<string>, r: Repair)
    requires r.Repair? && r.start == 2 && r.end == 3 && r.column == INDENT_STEP
    requires |lines| >= 3 && Indent(lines[1]) == 0
    ensures Candidate(lines, BLOCK_ERROR, r) == Shifted(lines, 1, 3, INDENT_STEP)
  {
    hide LStrip, Shifted;
  }

  /** What the collector finds: two colons, and a guess whose span starts at the second one. */
  lemma ColonCollection(filename: string)
    returns (colons: seq<Finding>, guess: Finding, stop: Stop)
    ensures IsCollection(ParseColons, filename, Join(NO_COLONS), MAX_SYNTAX_ERRORS,
                         colons + [guess], TWO_COLONS, stop)
    ensures stop.Reindent? && stop.repair.Repair? && !SpanMisses(colons, stop.repair)
    ensures 0 < stop.repair.start == 2 < stop.repair.end == 3
    ensures SplitLines(Join(NO_COLONS)) == NO_COLONS
  {
    hide Join, ForwardBound, SplitLines, LStrip, IsSyntaxFix, Blank, FindingFor, IsLine, IsCollection,
         IsColonChain, ColonFixed, Shifted, ParseColons, Candidate;
    var code := Join(NO_COLONS);
    ColonLines();
    ReadsBack(NO_COLONS);
    BodyBound();
    TextsOfColons();
    colons := ColonChain(filename);
    var r := BlockRepair(TWO_COLONS);
    SpanParses(r);
    CandidateShifts(TWO_COLONS, r);
    BlockIsRepaired(ParseColons, TWO_COLONS);
    stop := Reindent(BLOCK_ERROR, r);
    guess := FindingFor(filename, TWO_COLONS, BLOCK_ERROR, r, Medium);
    RunEndsAtError(ParseColons, filename, code, MAX_SYNTAX_ERRORS, colons, guess, BLOCK_ERROR, r);
    assert colons[1] in colons;
  }

  lemma TwoColonsSize()
    ensures |DropLastEmpty(TWO_COLONS)| == 3
  {
  }

  /** The guess and the second colon repair are in each other's way, so no patch applies all. */
  lemma RepairedLineConflicts(filename: string)
    returns (colons: seq<Finding>, guess: Finding, stop: Stop)
    ensures IsCollection(ParseColons, filename, Join(NO_COLONS), MAX_SYNTAX_ERRORS,
                         colons + [guess], TWO_COLONS, stop)
    ensures stop.Reindent? && stop.repair.Repair? && !SpanMisses(colons, stop.repair)
    ensures 0 < stop.repair.start <= |DropLastEmpty(TWO_COLONS)|
    ensures forall patched, applied, notApplied
      | IsPatch(Join(NO_COLONS), colons + [guess], patched, applied, notApplied) ::
        && notApplied != []
        && patched != AsText(Join(NO_COLONS), AcceptedLines(TWO_COLONS, stop.error, stop.repair))
  {
    hide *;
    var code, lines := Join(NO_COLONS), TWO_COLONS;
    colons, guess, stop := ColonCollection(filename);
    assert (colons + [guess])[..|colons + [guess]| - 1] == colons;
    TwoColonsSize();
    forall patched, applied, notApplied | IsPatch(code, colons + [guess], patched, applied, notApplied)
      ensures notApplied != [] && patched != AsText(code, AcceptedLines(lines, stop.error, stop.repair))
    {
      PatchIsAcceptedExactlyWhen(ParseColons, filename, code, MAX_SYNTAX_ERRORS, colons + [guess],
                                 lines, stop, patched, applied, notApplied);
    }
  }
}
