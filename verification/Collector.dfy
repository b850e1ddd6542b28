/** Chaining the unambiguous colon repairs, `_collect_syntax_error_findings`. */
module Collector {
  import opened Text
  import opened Findings
  import opened SyntaxRepair

  const MAX_SYNTAX_ERRORS: nat := 25

  /** Why the collector stopped. */
  datatype Stop =
    | Parsed                                       // the working copy parses
    | CapReached                                   // the cap on the number of findings
    | NoFix(error: SyntaxError)                    // an error without a repair
    | Reindent(error: SyntaxError, repair: Repair) // a repair that is only a guess

  function FindingFor(filename: string, working: seq<string>, e: SyntaxError, r: Repair,
                      confidence: Confidence): Finding
  {
    var start := if r.Repair? then r.start else e.lineno;
    Finding(filename,
            if start != 0 then start else if e.lineno != 0 then e.lineno else 1,
            if r.Repair? then r.end else 0,
            if 0 < e.lineno <= |working| then Strip(working[e.lineno - 1]) else "",
            if r.Repair? then r.fix else "",
            false,
            confidence)
  }

  /** The lines with each finding's fix put in place of its line. */
  ghost function ColonFixed(lines: seq<string>, fs: seq<Finding>): (fixed: seq<string>)
    ensures |fixed| == |lines|
  {
    if fs == [] then lines
    else
      var fixed := ColonFixed(lines, fs[..|fs| - 1]);
      var f := fs[|fs| - 1];
      if 0 < f.line <= |lines| then fixed[f.line - 1 := f.fix] else fixed
  }

  /** Finding `i` repairs the colon error that the parser reports after the repairs before it. */
  ghost predicate IsColonStep(parse: Parser, filename: string, lines: seq<string>,
                              fs: seq<Finding>, i: nat)
    requires i < |fs|
  {
    var working := ColonFixed(lines, fs[..i]);
    && parse(Join(working)).Fails?
    && var e := parse(Join(working)).error;
    && var colon := MissingColonFix(Join(working), e);
    && colon != ""
    && fs[i] == FindingFor(filename, working, e, Repair(colon, e.lineno, 0, 0), High)
  }

  ghost predicate IsColonChain(parse: Parser, filename: string, lines: seq<string>, fs: seq<Finding>) {
    forall i | 0 <= i < |fs| :: IsColonStep(parse, filename, lines, fs, i)
  }

  /** How many of the findings are colon repairs: all of them, or all but the last. */
  function ColonCount(findings: seq<Finding>, stop: Stop): int {
    if stop.Parsed? || stop.CapReached? then |findings| else |findings| - 1
  }

  /** The findings of one run, the working copy it ends with, and why it stopped. */
  ghost predicate IsCollection(parse: Parser, filename: string, code: string, cap: nat,
                               findings: seq<Finding>, working: seq<string>, stop: Stop)
  {
    var lines, n := SplitLines(code), ColonCount(findings, stop);
    && 0 <= n <= cap && n <= |findings|
    && IsColonChain(parse, filename, lines, findings[..n])
    && working == ColonFixed(lines, findings[..n])
    && match stop
       case Parsed => n < cap && parse(Join(working)).Parses?
       case CapReached => n == cap
       case NoFix(e) =>
         && n < cap && parse(Join(working)) == Fails(e)
         && IsSyntaxFix(parse, Join(working), e, NoRepair, Medium)
         && findings[n] == FindingFor(filename, working, e, NoRepair, Medium)
       case Reindent(e, r) =>
         && n < cap && parse(Join(working)) == Fails(e)
         && r.Repair? && IsSyntaxFix(parse, Join(working), e, r, Medium)
         && findings[n] == FindingFor(filename, working, e, r, Medium)
  }

  /** The chain so far, as a loop invariant. */
  lemma ChainGrows(parse: Parser, filename: string, lines: seq<string>, fs: seq<Finding>, f: Finding)
    requires IsColonChain(parse, filename, lines, fs)
    requires IsColonStep(parse, filename, lines, fs + [f], |fs|)
    ensures IsColonChain(parse, filename, lines, fs + [f])
  {
    var more := fs + [f];
    forall i | 0 <= i < |fs| ensures IsColonStep(parse, filename, lines, more, i) {
      assert more[..i] == fs[..i] && more[i] == fs[i];
      assert IsColonStep(parse, filename, lines, fs, i);
    }
  }

  lemma EmptyChain(parse: Parser, filename: string, lines: seq<string>)
    ensures IsColonChain(parse, filename, lines, []) && ColonFixed(lines, []) == lines
  {
  }

  lemma RunEnds(parse: Parser, filename: string, code: string, cap: nat, findings: seq<Finding>,
                stop: Stop)
    requires |findings| <= cap && IsColonChain(parse, filename, SplitLines(code), findings)
    requires
      if |findings| < cap
      then stop == Parsed && parse(Join(ColonFixed(SplitLines(code), findings))).Parses?
      else stop == CapReached
    ensures IsCollection(parse, filename, code, cap, findings,
                         ColonFixed(SplitLines(code), findings), stop)
  {
    hide Join, IsColonChain, ColonFixed;
    assert findings[..|findings|] == findings;
  }

  lemma RunEndsAtError(parse: Parser, filename: string, code: string, cap: nat,
                       done: seq<Finding>, last: Finding, e: SyntaxError, r: Repair)
    requires |done| < cap && IsColonChain(parse, filename, SplitLines(code), done)
    requires var working := ColonFixed(SplitLines(code), done);
      && parse(Join(working)) == Fails(e)
      && IsSyntaxFix(parse, Join(working), e, r, Medium)
      && last == FindingFor(filename, working, e, r, Medium)
    ensures IsCollection(parse, filename, code, cap, done + [last],
                         ColonFixed(SplitLines(code), done),
                         if r == NoRepair then NoFix(e) else Reindent(e, r))
  {
    hide Join, IsColonChain, ColonFixed, IsSyntaxFix, FindingFor;
    assert (done + [last])[..|done|] == done;
  }

  // ----- One colon repair -----

  lemma ColonAtEnd(stem: string)
    ensures EndsInColon(stem + ":") && !Blank(stem + ":")
  {
    assert !IsSpace(':');
    hide LStrip, RStrip, IsSpace;
    var fixed := stem + ":";
    assert fixed[|stem|] == ':';
    BlankIsAllSpace(fixed);
    RStripIs(fixed, |fixed|);
  }

  lemma StemIsLine(line: string)
    requires IsLine(line)
    ensures IsLine(RStrip(line) + ":")
  {
    assert !IsBreak(':');
    hide IsBreak, RStrip, IsSpace;
    var stem := RStrip(line);
    RStripIsStart(line);
    assert forall i | 0 <= i < |stem| :: stem[i] == line[i];
  }

  lemma SplitOne(line: string)
    requires IsLine(line) && line != ""
    ensures SplitLines(line) == [line]
  {
    SplitJoin([line]);
  }

  lemma AddColon(line: string)
    requires IsLine(line)
    ensures IsLine(RStrip(line) + ":") && EndsInColon(RStrip(line) + ":")
    ensures !Blank(RStrip(line) + ":") && SplitLines(RStrip(line) + ":") == [RStrip(line) + ":"]
  {
    hide *;
    StemIsLine(line);
    ColonAtEnd(RStrip(line));
    SplitOne(RStrip(line) + ":");
  }

  /** The repair is the line, without blanks at its end and with a colon; it was not there yet. */
  lemma ColonRepairsLine(working: seq<string>, e: SyntaxError)
    requires AllLines(working) && MissingColonFix(Join(working), e) != ""
    ensures 0 < e.lineno <= |working|
    ensures e.msg == ExpectedColon
    ensures !EndsInColon(working[e.lineno - 1]) && '#' !in working[e.lineno - 1]
    ensures MissingColonFix(Join(working), e) == RStrip(working[e.lineno - 1]) + ":"
    ensures var fix := RStrip(working[e.lineno - 1]) + ":";
      IsLine(fix) && EndsInColon(fix) && !Blank(fix) && SplitLines(fix) == [fix]
  {
    SplitJoin(working);
    hide Join, SplitLines, RStrip, LStrip, EndsInColon, IsLine;
    var line := DropLastEmpty(working)[e.lineno - 1];
    assert line == working[e.lineno - 1];
    AddColon(line);
  }

  // ----- The loop -----

  lemma FixedLines(lines: seq<string>, fs: seq<Finding>, f: Finding)
    requires 0 < f.line <= |lines|
    ensures ColonFixed(lines, fs + [f]) == ColonFixed(lines, fs)[f.line - 1 := f.fix]
  {
    assert (fs + [f])[..|fs|] == fs;
  }

  /** One more colon repair, put into the working copy. */
  lemma RoundDone(parse: Parser, filename: string, lines: seq<string>,
                  done: seq<Finding>, e: SyntaxError)
    requires IsColonChain(parse, filename, lines, done)
    requires AllLines(ColonFixed(lines, done))
    requires parse(Join(ColonFixed(lines, done))) == Fails(e)
    requires MissingColonFix(Join(ColonFixed(lines, done)), e) != ""
    ensures var working := ColonFixed(lines, done);
      var colon := MissingColonFix(Join(working), e);
      var more := done + [FindingFor(filename, working, e, Repair(colon, e.lineno, 0, 0), High)];
      && 0 < e.lineno <= |working|
      && IsColonChain(parse, filename, lines, more)
      && working[e.lineno - 1 := colon] == ColonFixed(lines, more)
      && AllLines(ColonFixed(lines, more))
  {
    hide Join, MissingColonFix, Strip, SplitLines, IsLine, RStrip, EndsInColon, Blank;
    var working := ColonFixed(lines, done);
    var colon := MissingColonFix(Join(working), e);
    var f := FindingFor(filename, working, e, Repair(colon, e.lineno, 0, 0), High);
    ColonRepairsLine(working, e);
    assert (done + [f])[..|done|] == done;
    ChainGrows(parse, filename, lines, done, f);
    FixedLines(lines, done, f);
  }

  /** Only a colon repair has high confidence, and it always names a line. */
  lemma HighIsColon(parse: Parser, code: string, e: SyntaxError, r: Repair, confidence: Confidence)
    requires IsSyntaxFix(parse, code, e, r, confidence)
    ensures confidence == High <==> MissingColonFix(code, e) != ""
    ensures confidence == High || confidence == Medium
    ensures confidence == High ==>
      r == Repair(MissingColonFix(code, e), e.lineno, 0, 0) && e.lineno != 0
  {
  }

  method CollectSyntaxErrors(parse: Parser, code: string, filename: string, cap: nat)
    returns (findings: seq<Finding>, ghost working: seq<string>, ghost stop: Stop)
    ensures IsCollection(parse, filename, code, cap, findings, working, stop)
  {
    hide Join, IsSyntaxFix, MissingColonFix, FindingFor, IsColonChain, ColonFixed, IsCollection, AllLines;
    findings := [];
    var workingLines := SplitLines(code);
    var round := 0;
    EmptyChain(parse, filename, SplitLines(code));
    while round < cap
      invariant round == |findings| <= cap
      invariant IsColonChain(parse, filename, SplitLines(code), findings)
      invariant workingLines == ColonFixed(SplitLines(code), findings) && AllLines(workingLines)
    {
      var workingCode := Join(workingLines);
      var parsed := parse(workingCode);
      if parsed.Parses? {
        working, stop := workingLines, Parsed;
        RunEnds(parse, filename, code, cap, findings, Parsed);
        return;
      }
      var e := parsed.error;
      var r, confidence := SyntaxErrorFix(parse, workingCode, e);
      var finding := FindingFor(filename, workingLines, e, r, confidence);
      HighIsColon(parse, workingCode, e, r, confidence);
      if confidence != High || r == NoRepair || e.lineno == 0 {
        working, stop := workingLines, if r == NoRepair then NoFix(e) else Reindent(e, r);
        RunEndsAtError(parse, filename, code, cap, findings, finding, e, r);
        findings := findings + [finding];
        return;
      }
      RoundDone(parse, filename, SplitLines(code), findings, e);
      workingLines := workingLines[e.lineno - 1 := r.fix];
      findings := findings + [finding];
      round := round + 1;
    }
    working, stop := workingLines, CapReached;
    RunEnds(parse, filename, code, cap, findings, CapReached);
  }

  // ----- A chain of colon repairs -----

  /** What is known of each finding of a chain, in terms of the original file. */
  ghost predicate IsColonFinding(lines: seq<string>, f: Finding) {
    && 0 < f.line <= |lines|
    && f.endLine == 0 && !f.fixIsDeletion && f.confidence == High
    && f.badCode == Strip(lines[f.line - 1])
    && !EndsInColon(lines[f.line - 1]) && '#' !in lines[f.line - 1]
    && f.fix == RStrip(lines[f.line - 1]) + ":"
    && EndsInColon(f.fix) && !Blank(f.fix) && SplitLines(f.fix) == [f.fix]
  }

  ghost predicate LinesDiffer(fs: seq<Finding>) {
    forall i, j | 0 <= i < j < |fs| :: fs[i].line != fs[j].line
  }

  lemma ChainPrefix(parse: Parser, filename: string, lines: seq<string>, fs: seq<Finding>, n: nat)
    requires n <= |fs| && IsColonChain(parse, filename, lines, fs)
    ensures IsColonChain(parse, filename, lines, fs[..n])
  {
    hide Join, FindingFor, MissingColonFix, ColonFixed;
    forall i | 0 <= i < n ensures IsColonStep(parse, filename, lines, fs[..n], i) {
      assert fs[..n][..i] == fs[..i] && fs[..n][i] == fs[i];
      assert IsColonStep(parse, filename, lines, fs, i);
    }
  }

  /** What the working copy looks like after a chain. */
  ghost predicate IsWorkingCopy(lines: seq<string>, fs: seq<Finding>, working: seq<string>) {
    && |working| == |lines| && AllLines(working)
    && (forall f | f in fs :: 0 < f.line <= |lines| && working[f.line - 1] == f.fix)
    && (forall k | 0 <= k < |lines| && (forall f | f in fs :: f.line != k + 1) ::
          working[k] == lines[k])
  }

  lemma NothingRepaired(lines: seq<string>)
    requires AllLines(lines)
    ensures LinesDiffer([]) && IsWorkingCopy(lines, [], ColonFixed(lines, []))
  {
  }

  lemma ChainLast(parse: Parser, filename: string, lines: seq<string>, fs: seq<Finding>)
    requires fs != [] && IsColonChain(parse, filename, lines, fs)
    ensures IsColonStep(parse, filename, lines, fs, |fs| - 1)
  {
    hide IsColonStep;
  }

  /** The line that the parser complains about has not been repaired before. */
  lemma StepFinding(parse: Parser, filename: string, lines: seq<string>, working: seq<string>,
                    front: seq<Finding>, f: Finding)
    requires parse(Join(working)).Fails?
    requires var e := parse(Join(working)).error;
      var colon := MissingColonFix(Join(working), e);
      colon != "" && f == FindingFor(filename, working, e, Repair(colon, e.lineno, 0, 0), High)
    requires forall g | g in front :: IsColonFinding(lines, g)
    requires IsWorkingCopy(lines, front, working)
    ensures IsColonFinding(lines, f) && IsLine(f.fix)
    ensures forall g | g in front :: g.line != f.line
  {
    hide Join, RStrip, EndsInColon, SplitLines, IsLine, Blank, Strip, MissingColonFix;
    var e := parse(Join(working)).error;
    ColonRepairsLine(working, e);
    forall g | g in front ensures g.line != e.lineno {
      assert IsColonFinding(lines, g) && working[g.line - 1] == g.fix;
    }
  }

  lemma OneMoreFixed(lines: seq<string>, front: seq<Finding>, f: Finding, working: seq<string>)
    requires IsWorkingCopy(lines, front, working)
    requires 0 < f.line <= |lines| && IsLine(f.fix)
    requires LinesDiffer(front) && forall g | g in front :: g.line != f.line
    ensures LinesDiffer(front + [f])
    ensures IsWorkingCopy(lines, front + [f], working[f.line - 1 := f.fix])
  {
    hide IsLine;
    var more := front + [f];
    assert forall g :: g in more <==> g in front || g == f;
  }

  lemma StepRepairsOriginal(parse: Parser, filename: string,
                            lines: seq<string>, front: seq<Finding>, f: Finding)
    requires AllLines(lines)
    requires IsColonStep(parse, filename, lines, front + [f], |front|)
    requires forall g | g in front :: IsColonFinding(lines, g)
    requires LinesDiffer(front)
    requires IsWorkingCopy(lines, front, ColonFixed(lines, front))
    ensures IsColonFinding(lines, f)
    ensures LinesDiffer(front + [f])
    ensures IsWorkingCopy(lines, front + [f], ColonFixed(lines, front + [f]))
  {
    var working := ColonFixed(lines, front);
    assert (front + [f])[..|front|] == front;
    StepFinding(parse, filename, lines, working, front, f);
    FixedLines(lines, front, f);
    OneMoreFixed(lines, front, f, working);
  }

  /** Every finding is numbered against the original file and repairs an original line, no line
      is repaired twice, and the working copy is the original with just these lines replaced. */
  lemma {:induction false} ChainRepairsOriginal(parse: Parser, filename: string,
                                                lines: seq<string>, fs: seq<Finding>)
    requires AllLines(lines) && IsColonChain(parse, filename, lines, fs)
    ensures forall f | f in fs :: IsColonFinding(lines, f)
    ensures LinesDiffer(fs)
    ensures IsWorkingCopy(lines, fs, ColonFixed(lines, fs))
  {
    hide IsColonChain, IsColonFinding, IsWorkingCopy, LinesDiffer, AllLines, ColonFixed, IsColonStep;
    if fs == [] {
      NothingRepaired(lines);
    } else {
      var n := |fs| - 1;
      var front, f := fs[..n], fs[n];
      ChainPrefix(parse, filename, lines, fs, n);
      ChainRepairsOriginal(parse, filename, lines, front);
      assert fs == front + [f];
      ChainLast(parse, filename, lines, fs);
      StepRepairsOriginal(parse, filename, lines, front, f);
    }
  }

  // ----- The loop would end without the cap -----

  /** The number of lines that do not end in a colon. */
  function OpenLines(lines: seq<string>): nat {
    if lines == [] then 0
    else
      OpenLines(lines[..|lines| - 1]) + if EndsInColon(lines[|lines| - 1]) then 0 else 1
  }

  lemma {:induction false} ClosingOne(lines: seq<string>, k: nat, fix: string)
    requires k < |lines| && !EndsInColon(lines[k]) && EndsInColon(fix)
    ensures OpenLines(lines[k := fix]) + 1 == OpenLines(lines)
  {
    hide EndsInColon;
    var n := |lines| - 1;
    var closed := lines[k := fix];
    if k == n {
      assert closed[..n] == lines[..n];
    } else {
      assert closed[..n] == lines[..n][k := fix];
      ClosingOne(lines[..n], k, fix);
    }
  }

  lemma {:induction false} OpenLinesBound(lines: seq<string>)
    ensures OpenLines(lines) <= |lines|
  {
    hide EndsInColon;
    if lines != [] {
      OpenLinesBound(lines[..|lines| - 1]);
    }
  }

  lemma LastIsOpen(lines: seq<string>, front: seq<Finding>, f: Finding)
    requires IsColonFinding(lines, f) && LinesDiffer(front + [f])
    requires IsWorkingCopy(lines, front, ColonFixed(lines, front))
    ensures 0 < f.line <= |lines| && EndsInColon(f.fix)
    ensures !EndsInColon(ColonFixed(lines, front)[f.line - 1])
  {
    hide EndsInColon, RStrip, Blank, SplitLines, ColonFixed;
    var more := front + [f];
    forall g | g in front ensures g.line != f.line {
      var i :| 0 <= i < |front| && front[i] == g;
      assert more[i] == g && more[|front|] == f;
    }
  }

  lemma LastCloses(lines: seq<string>, front: seq<Finding>, f: Finding)
    requires IsColonFinding(lines, f) && LinesDiffer(front + [f])
    requires IsWorkingCopy(lines, front, ColonFixed(lines, front))
    ensures OpenLines(ColonFixed(lines, front + [f])) + 1 == OpenLines(ColonFixed(lines, front))
  {
    hide IsColonFinding, IsWorkingCopy, LinesDiffer, OpenLines, ColonFixed;
    LastIsOpen(lines, front, f);
    FixedLines(lines, front, f);
    ClosingOne(ColonFixed(lines, front), f.line - 1, f.fix);
  }

  /** Every round closes one open line, so there are never more rounds than open lines. */
  lemma {:induction false} ChainClosesLines(parse: Parser, filename: string,
                                            lines: seq<string>, fs: seq<Finding>)
    requires AllLines(lines) && IsColonChain(parse, filename, lines, fs)
    ensures OpenLines(ColonFixed(lines, fs)) + |fs| == OpenLines(lines)
  {
    hide IsColonChain, IsColonFinding, IsWorkingCopy, LinesDiffer, OpenLines, AllLines;
    if fs != [] {
      var n := |fs| - 1;
      var front, f := fs[..n], fs[n];
      ChainPrefix(parse, filename, lines, fs, n);
      ChainClosesLines(parse, filename, lines, front);
      ChainRepairsOriginal(parse, filename, lines, fs);
      ChainRepairsOriginal(parse, filename, lines, front);
      assert fs == front + [f];
      LastCloses(lines, front, f);
    }
  }

  /** The cap only ever stops a file with at least that many lines that lack a colon; with a
      cap above the number of lines the collector always runs to its natural end. */
  lemma CapIsOnlyASafetyNet(parse: Parser, filename: string, code: string, cap: nat,
                            findings: seq<Finding>, working: seq<string>, stop: Stop)
    requires IsCollection(parse, filename, code, cap, findings, working, stop)
    ensures ColonCount(findings, stop) + OpenLines(working) == OpenLines(SplitLines(code))
    ensures |SplitLines(code)| < cap ==> stop != CapReached
  {
    var lines := SplitLines(code);
    hide SplitLines, IsColonChain, OpenLines, ColonFixed, IsSyntaxFix, FindingFor, Join;
    var chain := findings[..ColonCount(findings, stop)];
    ChainClosesLines(parse, filename, lines, chain);
    OpenLinesBound(lines);
  }

  /** Only the last finding can be a guess or lack a fix; all others are colon repairs. */
  lemma OnlyTheLastIsAGuess(parse: Parser, filename: string, code: string, cap: nat,
                            findings: seq<Finding>, working: seq<string>, stop: Stop)
    requires IsCollection(parse, filename, code, cap, findings, working, stop)
    ensures |findings| <= cap
    ensures forall i | 0 <= i < |findings| - 1 ::
      findings[i].confidence == High && IsColonFinding(SplitLines(code), findings[i])
    ensures forall i, j | 0 <= i < j < ColonCount(findings, stop) ::
      findings[i].line != findings[j].line
    ensures forall i | 0 <= i < |findings| ::
      findings[i].confidence != High ==> i == |findings| - 1 && (stop.NoFix? || stop.Reindent?)
  {
    var lines := SplitLines(code);
    hide SplitLines, IsColonChain, ColonFixed, IsSyntaxFix, Join, Strip, RStrip, EndsInColon, Blank,
         IsWorkingCopy;
    var chain := findings[..ColonCount(findings, stop)];
    ChainRepairsOriginal(parse, filename, lines, chain);
    forall i | 0 <= i < |chain| ensures IsColonFinding(lines, findings[i]) {
      assert chain[i] == findings[i] && chain[i] in chain;
    }
    forall i, j | 0 <= i < j < |chain| ensures findings[i].line != findings[j].line {
      assert chain[i] == findings[i] && chain[j] == findings[j];
    }
  }
}
