/** What every reindenting repair does to the lines it touches. */
module Reindenting {
  import opened Text
  import opened SyntaxRepair

  /** The same text, `offset` columns further right. */
  ghost predicate Moved(before: string, after: string, offset: int) {
    LStrip(after) == LStrip(before) && Indent(after) == Indent(before) + offset
  }

  /** Only the leading blanks of the lines with text in `lo..hi` differ, all by one offset. */
  ghost predicate Reindented(lines: seq<string>, moved: seq<string>, lo: nat, hi: nat, offset: int)
  {
    && |moved| == |lines|
    && (forall i | 0 <= i < |lines| && !(lo <= i < hi) :: moved[i] == lines[i])
    && (forall i | lo <= i < hi && i < |lines| && Blank(lines[i]) :: moved[i] == lines[i])
    && (forall i | lo <= i < hi && i < |lines| && !Blank(lines[i]) ::
          Moved(lines[i], moved[i], offset))
  }

  lemma SizeOfSpaces(n: nat)
    ensures |Spaces(n)| == n
  {
  }

  lemma ShiftMoves(line: string, offset: nat)
    requires !Blank(line)
    ensures Moved(line, ShiftLine(line, offset), offset)
  {
    hide LStrip, Spaces;
    LStripAfterSpaces(offset, line);
    SizeOfSpaces(offset);
  }

  lemma AlignMoves(line: string, offset: int)
    requires !Blank(line) && Indent(line) + offset >= 0
    ensures Moved(line, AlignLine(line, offset), offset)
  {
    hide LStrip, Spaces;
    var n, text := Indent(line) + offset, LStrip(line);
    StripsOnce(line);
    LStripAfterSpaces(n, text);
    SizeOfSpaces(n);
    assert AlignLine(line, offset) == Spaces(n) + text;
  }

  lemma ShiftedReindents(lines: seq<string>, lo: nat, hi: nat, column: nat)
    requires lo < |lines| && 0 <= Offset(lines, lo, column)
    ensures Reindented(lines, Shifted(lines, lo, hi, column), lo, hi, Offset(lines, lo, column))
  {
    var offset := Offset(lines, lo, column);
    forall i | lo <= i < hi && i < |lines| && !Blank(lines[i])
      ensures Moved(lines[i], Shifted(lines, lo, hi, column)[i], offset)
    {
      ShiftMoves(lines[i], offset);
    }
  }

  lemma AlignedReindents(lines: seq<string>, lo: nat, hi: nat, column: nat)
    requires lo < |lines| && hi <= |lines| && Fits(lines, lo, hi, column)
    ensures Reindented(lines, Aligned(lines, lo, hi, column), lo, hi, Offset(lines, lo, column))
  {
    var offset := Offset(lines, lo, column);
    forall i | lo <= i < hi && !Blank(lines[i])
      ensures Moved(lines[i], Aligned(lines, lo, hi, column)[i], offset)
    {
      AlignMoves(lines[i], offset);
    }
  }

  /** The whole file with the repair in it, the text that the parser was asked about. */
  ghost function Candidate(lines: seq<string>, e: SyntaxError, r: Repair): seq<string>
    requires r.Repair? && 0 < r.start <= |lines|
  {
    var lo := r.start - 1;
    if e.msg.ExpectedBlock? && 0 <= Offset(lines, lo, r.column)
    then Shifted(lines, lo, r.end, r.column)
    else Aligned(lines, lo, r.end, r.column)
  }

  /** All that later steps rely on about a repair. */
  ghost predicate IsAcceptedReindent(parse: Parser, lines: seq<string>, e: SyntaxError, r: Repair) {
    && r.Repair? && 0 < r.start <= r.end <= |lines|
    && !Blank(lines[r.start - 1])
    && var moved := Candidate(lines, e, r);
    && Reindented(lines, moved, r.start - 1, r.end, Offset(lines, r.start - 1, r.column))
    && Indent(moved[r.start - 1]) == r.column
    && parse(Join(moved)).Parses?
    && r.fix == Join(moved[r.start - 1..r.end])
  }

  lemma FirstLineMoves(lines: seq<string>, moved: seq<string>, lo: nat, hi: nat, column: nat)
    requires lo < |lines| && lo < hi && !Blank(lines[lo])
    requires Reindented(lines, moved, lo, hi, Offset(lines, lo, column))
    ensures Indent(moved[lo]) == column
  {
  }

  /** What the first repair leaves to show. */
  ghost predicate IsShiftedFix(parse: Parser, lines: seq<string>, e: SyntaxError, r: Repair) {
    && r.Repair? && 0 < r.start <= r.end <= |lines| && e.msg.ExpectedBlock?
    && !Blank(lines[r.start - 1])
    && 0 <= Offset(lines, r.start - 1, r.column)
    && ShiftParses(parse, lines, r.start - 1, r.end, r.column)
    && r.fix == Join(Shifted(lines, r.start - 1, r.end, r.column)[r.start - 1..r.end])
  }

  lemma IndentFixIsShifted(parse: Parser, lines: seq<string>, e: SyntaxError, r: Repair)
    requires r.Repair? && IsIndentFix(parse, lines, e, r)
    ensures IsShiftedFix(parse, lines, e, r)
  {
    hide Join, LStrip, Blank, Indent, Shifted, ForwardBound, NoneLargerShifted, ShiftParses, ShiftLine;
  }

  lemma ShiftedFixIsSafe(parse: Parser, lines: seq<string>, e: SyntaxError, r: Repair)
    requires IsShiftedFix(parse, lines, e, r)
    ensures IsAcceptedReindent(parse, lines, e, r)
  {
    hide Join, LStrip, Blank, Shifted, Aligned, Reindented, ShiftLine, AlignLine, Indent;
    ShiftedReindents(lines, r.start - 1, r.end, r.column);
    FirstLineMoves(lines, Shifted(lines, r.start - 1, r.end, r.column), r.start - 1, r.end, r.column);
  }

  /** What the two repairs of misaligned lines have in common. */
  ghost predicate IsAlignedFix(parse: Parser, lines: seq<string>, e: SyntaxError, r: Repair) {
    && r.Repair? && 0 < r.start <= r.end <= |lines| && !e.msg.ExpectedBlock?
    && !Blank(lines[r.start - 1])
    && AlignParses(parse, lines, r.start - 1, r.end, r.column)
    && r.fix == Join(Aligned(lines, r.start - 1, r.end, r.column)[r.start - 1..r.end])
  }

  lemma AlignedFixIsSafe(parse: Parser, lines: seq<string>, e: SyntaxError, r: Repair)
    requires IsAlignedFix(parse, lines, e, r)
    ensures IsAcceptedReindent(parse, lines, e, r)
  {
    hide Join, LStrip, Blank, Shifted, Aligned, Reindented, Fits, ShiftLine, AlignLine, Indent;
    AlignedReindents(lines, r.start - 1, r.end, r.column);
    FirstLineMoves(lines, Aligned(lines, r.start - 1, r.end, r.column), r.start - 1, r.end, r.column);
  }

  lemma MisalignedFixIsAligned(parse: Parser, lines: seq<string>, e: SyntaxError, r: Repair)
    requires r.Repair? && IsMisalignedFix(parse, lines, e, r)
    ensures IsAlignedFix(parse, lines, e, r)
  {
    hide Join, LStrip, Blank, Indent, Aligned, ForwardBound, NoneLarger, IsLevel, AlignParses,
         AlignLine, Fits;
  }

  lemma BackwardRun(lines: seq<string>, lo: nat, begin: nat, last: nat)
    requires lo < |lines| && IsRunAbove(lines, lo, begin, last)
    ensures !Blank(lines[begin]) && last < lo
  {
    hide LStrip, Indent, Blank;
    assert SameBlock(lines[begin], lines[last]);
  }

  lemma BackwardFixIsAligned(parse: Parser, lines: seq<string>, e: SyntaxError, r: Repair)
    requires r.Repair? && IsBackwardFix(parse, lines, e, r)
    ensures IsAlignedFix(parse, lines, e, r)
  {
    hide Join, LStrip, Blank, Indent, Aligned, IsRunAbove, AlignParses, AlignLine, Fits;
    BackwardRun(lines, e.lineno - 1, r.start - 1, r.end - 1);
  }

  /** Every repair by reindenting keeps the stripped text of each line and the nesting of the
      lines relative to each other, leaves all other lines alone, and is taken by the parser. */
  lemma ReindentIsSafe(parse: Parser, lines: seq<string>, e: SyntaxError, r: Repair)
    requires r.Repair? && IsReindent(parse, lines, e, r)
    ensures IsAcceptedReindent(parse, lines, e, r)
  {
    hide IsIndentFix, IsMisalignedFix, IsBackwardFix, IsAcceptedReindent, IsShiftedFix,
         IsAlignedFix;
    if IsIndentFix(parse, lines, e, r) {
      IndentFixIsShifted(parse, lines, e, r);
      ShiftedFixIsSafe(parse, lines, e, r);
    } else if IsMisalignedFix(parse, lines, e, r) {
      MisalignedFixIsAligned(parse, lines, e, r);
      AlignedFixIsSafe(parse, lines, e, r);
    } else {
      BackwardFixIsAligned(parse, lines, e, r);
      AlignedFixIsSafe(parse, lines, e, r);
    }
  }

  /** Lines keep their distance from each other. */
  lemma NestingIsKept(lines: seq<string>, moved: seq<string>, lo: nat, hi: nat, offset: int,
                      i: nat, j: nat)
    requires Reindented(lines, moved, lo, hi, offset) && hi <= |lines|
    requires lo <= i < hi && lo <= j < hi && !Blank(lines[i]) && !Blank(lines[j])
    ensures Indent(moved[i]) - Indent(moved[j]) == Indent(lines[i]) - Indent(lines[j])
    ensures Strip(moved[i]) == Strip(lines[i])
  {
    hide LStrip, RStrip, Blank;
    assert Moved(lines[i], moved[i], offset) && Moved(lines[j], moved[j], offset);
  }

  // ----- What reindenting keeps of a line -----

  lemma SplitAtText(line: string)
    ensures line == line[..Indent(line)] + LStrip(line)
  {
  }

  lemma LastOfSum(a: string, b: string)
    requires b != ""
    ensures (a + b)[|a + b| - 1] == b[|b| - 1]
  {
  }

  lemma ColonByText(line: string)
    requires !Blank(line)
    ensures EndsInColon(line) <==> EndsInColon(LStrip(line))
    ensures !Blank(LStrip(line))
  {
    hide LStrip, RStrip, IsSpace;
    var text := LStrip(line);
    var lead := line[..|line| - |text|];
    StripsOnce(line);
    SplitAtText(line);
    RStripAfter(lead, text);
    BlankIsEmptyStrip(line);
    LastOfSum(lead, RStrip(text));
  }

  lemma MovedKeepsColon(before: string, after: string, offset: int)
    requires !Blank(before) && Moved(before, after, offset)
    ensures EndsInColon(after) <==> EndsInColon(before)
  {
    hide EndsInColon, LStrip;
    ColonByText(before);
    ColonByText(after);
  }

  lemma IndentedLine(n: int, s: string)
    requires IsLine(s)
    ensures n >= 0 ==> IsLine(Spaces(n) + s)
  {
    assert !IsBreak(' ');
    hide IsBreak;
  }

  lemma TextIsLine(s: string)
    requires IsLine(s)
    ensures IsLine(LStrip(s))
  {
    hide IsBreak, LStrip, IsSpace;
    var t := LStrip(s);
    LStripIsRest(s);
    assert forall i | 0 <= i < |t| :: t[i] == s[|s| - |t| + i];
  }

  lemma MovedKeepsLine(before: string, offset: int)
    requires IsLine(before)
    ensures offset >= 0 ==> IsLine(ShiftLine(before, offset))
    ensures IsLine(AlignLine(before, offset))
  {
    hide IsLine, LStrip, Blank;
    IndentedLine(offset, before);
    TextIsLine(before);
    IndentedLine(Indent(before) + offset, LStrip(before));
  }

  lemma MovedLines(lines: seq<string>, lo: nat, hi: nat, column: nat)
    requires AllLines(lines) && lo < |lines|
    ensures AllLines(Aligned(lines, lo, hi, column))
    ensures 0 <= Offset(lines, lo, column) ==> AllLines(Shifted(lines, lo, hi, column))
  {
    hide IsLine, ShiftLine, AlignLine, Shifted, Aligned, Offset;
    var offset := Offset(lines, lo, column);
    forall i | 0 <= i < |lines|
      ensures IsLine(AlignLine(lines[i], offset))
      ensures 0 <= offset ==> IsLine(ShiftLine(lines[i], offset))
    {
      MovedKeepsLine(lines[i], offset);
    }
  }

  lemma CandidateLines(lines: seq<string>, e: SyntaxError, r: Repair)
    requires AllLines(lines) && r.Repair? && 0 < r.start <= |lines|
    ensures AllLines(Candidate(lines, e, r)) && |Candidate(lines, e, r)| == |lines|
  {
    hide AllLines, Shifted, Aligned, ShiftLine, AlignLine, Offset;
    MovedLines(lines, r.start - 1, r.end, r.column);
  }

  /** A line becomes empty only if it was empty. */
  lemma EmptyStaysEmpty(lines: seq<string>, moved: seq<string>, lo: nat, hi: nat, offset: int, i: nat)
    requires Reindented(lines, moved, lo, hi, offset) && i < |lines|
    ensures moved[i] == "" <==> lines[i] == ""
  {
    if lo <= i < hi && !Blank(lines[i]) {
      assert Moved(lines[i], moved[i], offset);
    }
  }
}
