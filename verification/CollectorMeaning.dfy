/** What the collector reports, in terms of characters and line numbers alone. */
module CollectorMeaning {
  import opened Text
  import opened Findings
  import opened SyntaxRepair
  import opened Collector

  // ----- One missing colon -----

  /** A colon with only blanks after it. */
  ghost predicate HasColonAtEnd(line: string) {
    exists k :: 0 <= k < |line| && line[k] == ':' && forall i | k < i < |line| :: IsSpace(line[i])
  }

  /** The parser misses a colon, and the line it names lacks one and has no comment sign. */
  ghost predicate LacksColon(lines: seq<string>, e: SyntaxError) {
    && e.msg == ExpectedColon && 0 < e.lineno <= |lines|
    && '#' !in lines[e.lineno - 1] && !HasColonAtEnd(lines[e.lineno - 1])
  }

  lemma EndsInColonMeans(line: string)
    ensures EndsInColon(line) <==> HasColonAtEnd(line)
  {
    assert !IsSpace(':');
    hide RStrip, IsSpace;
    var s := RStrip(line);
    RStripIsStart(line);
    if s != "" {
      assert line[|s| - 1] == s[|s| - 1];
    }
    forall k | 0 <= k < |line| && line[k] == ':' && forall i | k < i < |line| :: IsSpace(line[i])
      ensures k == |s| - 1
    {
    }
  }

  /** There is a colon repair if and only if a colon is lacking, whatever the line's indent. */
  lemma ColonFixMeans(code: string, e: SyntaxError)
    ensures var lines := SplitLines(code);
      && (MissingColonFix(code, e) != "" <==> LacksColon(lines, e))
      && (LacksColon(lines, e) ==> MissingColonFix(code, e) == RStrip(lines[e.lineno - 1]) + ":")
  {
    hide SplitLines, RStrip, EndsInColon, HasColonAtEnd;
    var lines := SplitLines(code);
    if 0 < e.lineno <= |lines| {
      EndsInColonMeans(lines[e.lineno - 1]);
    }
  }

  // ----- The findings of a run -----

  /** The code that a finding quotes: the line that the parser names, if there is one. */
  function Quoted(working: seq<string>, e: SyntaxError): string {
    if 0 < e.lineno <= |working| then Strip(working[e.lineno - 1]) else ""
  }

  lemma LacksColonLine(lines: seq<string>, e: SyntaxError)
    requires LacksColon(lines, e)
    ensures 0 < e.lineno <= |lines|
  {
  }

  /** Each finding but the last one, and the last one too if the run did not end on an error,
      repairs the colon that is lacking once those before it are in place. */
  lemma ColonFindingMeans(parse: Parser, filename: string, code: string, cap: nat,
                          findings: seq<Finding>, working: seq<string>, stop: Stop, i: nat)
    requires IsCollection(parse, filename, code, cap, findings, working, stop)
    requires i < |findings| && (stop.NoFix? || stop.Reindent? ==> i < |findings| - 1)
    ensures var before := ColonFixed(SplitLines(code), findings[..i]);
      && parse(Join(before)).Fails?
      && var e := parse(Join(before)).error;
      var seen := SplitLines(Join(before));
      && LacksColon(seen, e)
      && findings[i] == Finding(filename, e.lineno, 0, Quoted(before, e),
                                RStrip(seen[e.lineno - 1]) + ":", false, High)
  {
    hide Join, SplitLines, LacksColon, ColonFixed, MissingColonFix, Strip, RStrip, IsSyntaxFix;
    var chain := findings[..ColonCount(findings, stop)];
    assert chain[..i] == findings[..i] && chain[i] == findings[i];
    assert IsColonStep(parse, filename, SplitLines(code), chain, i);
    var before := ColonFixed(SplitLines(code), findings[..i]);
    ColonFixMeans(Join(before), parse(Join(before)).error);
    LacksColonLine(SplitLines(Join(before)), parse(Join(before)).error);
  }

  lemma GuessStarts(parse: Parser, code: string, e: SyntaxError, r: Repair)
    requires r.Repair? && IsSyntaxFix(parse, code, e, r, Medium)
    ensures MissingColonFix(code, e) == "" && r.start > 0
  {
    hide SplitLines, MissingColonFix, Join, Indent, Blank, ShiftParses, AlignParses, IsRunAbove, ForwardBound;
  }

  /** A run ends on an error only if no colon is lacking there. Its last finding is on the line of
      the error, or line 1 if the parser names none, without a fix; or it carries the repair. */
  lemma LastFindingMeans(parse: Parser, filename: string, code: string, cap: nat,
                         findings: seq<Finding>, working: seq<string>, stop: Stop)
    requires IsCollection(parse, filename, code, cap, findings, working, stop)
    ensures stop.NoFix? ==>
      && parse(Join(working)) == Fails(stop.error)
      && !LacksColon(SplitLines(Join(working)), stop.error)
      && IsSyntaxFix(parse, Join(working), stop.error, NoRepair, Medium)
      && findings != []
      && findings[|findings| - 1]
         == Finding(filename, if stop.error.lineno == 0 then 1 else stop.error.lineno, 0,
                    Quoted(working, stop.error), "", false, Medium)
    ensures stop.Reindent? ==>
      && parse(Join(working)) == Fails(stop.error)
      && !LacksColon(SplitLines(Join(working)), stop.error)
      && stop.repair.Repair? && IsSyntaxFix(parse, Join(working), stop.error, stop.repair, Medium)
      && findings != []
      && findings[|findings| - 1]
         == Finding(filename, stop.repair.start, stop.repair.end, Quoted(working, stop.error),
                    stop.repair.fix, false, Medium)
    ensures stop.Parsed? || stop.CapReached? ==>
      forall f | f in findings :: f.confidence == High
  {
    hide Join, SplitLines, LacksColon, ColonFixed, Strip, MissingColonFix, IsReindent, IsColonStep,
         IsIndentFix, IsMisalignedFix, IsBackwardFix;
    if stop.NoFix? || stop.Reindent? {
      ColonFixMeans(Join(working), stop.error);
    }
    if stop.Reindent? {
      GuessStarts(parse, Join(working), stop.error, stop.repair);
    }
    if stop.Parsed? || stop.CapReached? {
      forall i | 0 <= i < |findings| ensures findings[i].confidence == High {
        ColonFindingMeans(parse, filename, code, cap, findings, working, stop, i);
      }
    }
  }
}
