/** The narrow repairs tried on one syntax error. The parser is an arbitrary function. */
module SyntaxRepair {
  import opened Text
  import opened Lists
  import opened Findings

  /** The message shapes the repairs tell apart. `header` is the line that the message
      "expected an indented block ... on line N" names, 0 when it names none. */
  datatype Message =
    | ExpectedColon
    | ExpectedBlock(header: nat)
    | UnexpectedIndent
    | UnindentMismatch
    | OtherMessage

  /** `lineno` is 0 when the parser gives no line. */
  datatype SyntaxError = SyntaxError(lineno: nat, msg: Message)

  datatype ParseResult = Parses | Fails(error: SyntaxError)

  type Parser = string -> ParseResult

  /** A reindented block: `fix` replaces lines `start..end`; `column` is where the first of
      them now starts, the target that the reason text quotes. */
  datatype Repair = NoRepair | Repair(fix: string, start: nat, end: nat, column: nat)

  const SEARCH_WINDOW: nat := 50
  const INDENT_STEP: nat := 4

  // ----- Missing colon -----

  predicate EndsInColon(line: string) {
    var s := RStrip(line);
    s != "" && s[|s| - 1] == ':'
  }

  /** The repaired line, or "" when this repair does not apply. */
  function MissingColonFix(code: string, e: SyntaxError): string {
    var lines := SplitLines(code);
    if e.msg != ExpectedColon || e.lineno == 0 then ""
    else if e.lineno > |lines| then ""
    else
      var line := lines[e.lineno - 1];
      if '#' in line || EndsInColon(line) then "" else RStrip(line) + ":"
  }

  // ----- Lines that end a block -----

  predicate IsWordChar(c: char) {
    'a' <= c <= 'z' || 'A' <= c <= 'Z' || '0' <= c <= '9' || c == '_'
  }

  /** `s` starts with `word`, and the word ends there. */
  predicate StartsWithWord(s: string, word: string) {
    word <= s && (|s| > |word| ==> !IsWordChar(s[|word|]))
  }

  /** A new definition, or a bare return, break, continue or raise. */
  predicate IsBoundary(line: string) {
    var s := LStrip(line);
    || StartsWithWord(s, "def") || StartsWithWord(s, "class") || "@" <= s
    || ("async" <= s && Indent(s[5..]) > 0 && StartsWithWord(LStrip(s[5..]), "def"))
    || StartsWithWord(s, "return") || StartsWithWord(s, "break")
    || StartsWithWord(s, "continue") || StartsWithWord(s, "raise")
  }

  /** A line that the span may not take in: it dedents below `floor`, or it is a boundary at
      the first line's own indent. */
  predicate Stops(line: string, floor: nat, own: nat) {
    !Blank(line) && (Indent(line) < floor || (Indent(line) == own && IsBoundary(line)))
  }

  /** The run of lines from `from` (counted from 0) to the first stop, or to `limit`. */
  function ForwardBound(lines: seq<string>, from: nat, limit: nat, floor: nat, own: nat): (m: nat)
    requires from <= limit <= |lines|
    ensures from <= m <= limit
    decreases limit - from
  {
    if from < limit && !Stops(lines[from], floor, own)
    then ForwardBound(lines, from + 1, limit, floor, own)
    else from
  }

  /** It is the longest run without a stop. */
  lemma {:induction false} ForwardBoundIsLongest(lines: seq<string>, from: nat, limit: nat,
                                                 floor: nat, own: nat)
    requires from <= limit <= |lines|
    ensures var m := ForwardBound(lines, from, limit, floor, own);
      && (forall i | from <= i < m :: !Stops(lines[i], floor, own))
      && (m < limit ==> Stops(lines[m], floor, own))
    decreases limit - from
  {
    hide Stops;
    if from < limit && !Stops(lines[from], floor, own) {
      ForwardBoundIsLongest(lines, from + 1, limit, floor, own);
    }
  }

  function SearchLimit(lines: seq<string>, from: nat): nat {
    if |lines| < from + SEARCH_WINDOW then |lines| else from + SEARCH_WINDOW
  }

  method FindForwardBound(lines: seq<string>, from: nat, floor: nat, own: nat) returns (maxEnd: nat)
    requires from <= |lines|
    ensures maxEnd == ForwardBound(lines, from, SearchLimit(lines, from), floor, own)
  {
    var limit := SearchLimit(lines, from);
    maxEnd := from;
    for idx := from to limit
      invariant maxEnd == idx
      invariant ForwardBound(lines, idx, limit, floor, own)
                == ForwardBound(lines, from, limit, floor, own)
    {
      var candidate := lines[idx];
      if Blank(candidate) {
        maxEnd := idx + 1;
        continue;
      }
      if Indent(candidate) < floor {
        break;
      }
      if Indent(candidate) == own && IsBoundary(candidate) {
        break;
      }
      maxEnd := idx + 1;
    }
  }

  // ----- Reindenting -----

  /** More spaces in front of a line that is not blank. */
  function ShiftLine(line: string, offset: nat): string {
    if Blank(line) then line else Spaces(offset) + line
  }

  /** Leading blank characters replaced by spaces, `offset` more of them (or fewer). */
  function AlignLine(line: string, offset: int): string {
    if Blank(line) || Indent(line) + offset < 0 then line
    else Spaces(Indent(line) + offset) + LStrip(line)
  }

  /** How far line `lo` is from `column`. */
  function Offset(lines: seq<string>, lo: nat, column: nat): int
    requires lo < |lines|
  {
    column - Indent(lines[lo])
  }

  /** Lines `lo..hi` (counted from 0, `hi` excluded) moved so that the first one starts at
      `column`, by spaces put in front. */
  function Shifted(lines: seq<string>, lo: nat, hi: nat, column: nat): (moved: seq<string>)
    requires lo < |lines| && 0 <= Offset(lines, lo, column)
    ensures |moved| == |lines|
    ensures forall i | 0 <= i < |lines| ::
      moved[i] == if lo <= i < hi then ShiftLine(lines[i], Offset(lines, lo, column)) else lines[i]
  {
    seq(|lines|, i requires 0 <= i < |lines| =>
      if lo <= i < hi then ShiftLine(lines[i], Offset(lines, lo, column)) else lines[i])
  }

  /** The same, by leading blank characters replaced. */
  function Aligned(lines: seq<string>, lo: nat, hi: nat, column: nat): (moved: seq<string>)
    requires lo < |lines|
    ensures |moved| == |lines|
    ensures forall i | 0 <= i < |lines| ::
      moved[i] == if lo <= i < hi then AlignLine(lines[i], Offset(lines, lo, column)) else lines[i]
  {
    seq(|lines|, i requires 0 <= i < |lines| =>
      if lo <= i < hi then AlignLine(lines[i], Offset(lines, lo, column)) else lines[i])
  }

  /** No line would have to start left of column 0. */
  predicate Fits(lines: seq<string>, lo: nat, hi: nat, column: nat)
    requires lo < |lines| && hi <= |lines|
  {
    forall i | lo <= i < hi :: Blank(lines[i]) || Indent(lines[i]) + Offset(lines, lo, column) >= 0
  }

  method ShiftInPlace(lines: seq<string>, lo: nat, hi: nat, column: nat)
    returns (patched: seq<string>)
    requires lo <= hi <= |lines| && lo < |lines| && 0 <= Offset(lines, lo, column)
    ensures patched == Shifted(lines, lo, hi, column)
  {
    hide LStrip, Blank;
    var offset := Offset(lines, lo, column);
    patched := lines;
    for idx := lo to hi
      invariant |patched| == |lines|
      invariant forall i | lo <= i < idx :: patched[i] == ShiftLine(lines[i], offset)
      invariant forall i | 0 <= i < lo || idx <= i < |lines| :: patched[i] == lines[i]
    {
      if !Blank(patched[idx]) {
        patched := patched[idx := Spaces(offset) + patched[idx]];
      }
    }
  }

  method AlignInPlace(lines: seq<string>, lo: nat, hi: nat, column: nat)
    returns (patched: seq<string>, underflow: bool)
    requires lo <= hi <= |lines| && lo < |lines|
    ensures underflow <==> !Fits(lines, lo, hi, column)
    ensures !underflow ==> patched == Aligned(lines, lo, hi, column)
  {
    hide LStrip, Blank;
    var offset := Offset(lines, lo, column);
    patched, underflow := lines, false;
    for idx := lo to hi
      invariant |patched| == |lines| && !underflow
      invariant forall i | lo <= i < idx :: patched[i] == AlignLine(lines[i], offset)
      invariant forall i | 0 <= i < lo || idx <= i < |lines| :: patched[i] == lines[i]
      invariant Fits(lines, lo, idx, column)
    {
      var line := patched[idx];
      if Blank(line) {
        continue;
      }
      var newIndent := Indent(line) + offset;
      if newIndent < 0 {
        underflow := true;
        break;
      }
      patched := patched[idx := Spaces(newIndent) + LStrip(line)];
    }
  }

  // ----- Missing indent -----

  /** The parser takes the file with lines `lo..end` shifted. */
  predicate ShiftParses(parse: Parser, lines: seq<string>, lo: nat, end: nat, column: nat)
    requires lo < |lines| && 0 <= Offset(lines, lo, column)
  {
    parse(Join(Shifted(lines, lo, end, column))).Parses?
  }

  predicate IndentFixApplies(lines: seq<string>, e: SyntaxError) {
    && e.msg.ExpectedBlock?
    && 0 < e.lineno <= |lines| && 0 < e.msg.header <= |lines|
    && !Blank(lines[e.lineno - 1])
    && Indent(lines[e.lineno - 1]) < Indent(lines[e.msg.header - 1]) + INDENT_STEP
  }

  ghost predicate NoneLargerShifted(parse: Parser, lines: seq<string>, lo: nat, end: nat,
                                    maxEnd: nat, column: nat)
    requires lo < |lines| && 0 <= Offset(lines, lo, column)
  {
    forall larger: nat | end < larger <= maxEnd :: !ShiftParses(parse, lines, lo, larger, column)
  }

  /** How far the first repair may reach. */
  function BlockBound(lines: seq<string>, e: SyntaxError): (m: nat)
    requires IndentFixApplies(lines, e)
    ensures e.lineno <= m <= |lines|
  {
    ForwardBound(lines, e.lineno, SearchLimit(lines, e.lineno),
                 Indent(lines[e.msg.header - 1]), Indent(lines[e.lineno - 1]))
  }

  /** One level deeper than the header; the largest span within the forward bound that parses. */
  ghost predicate IsIndentFix(parse: Parser, lines: seq<string>, e: SyntaxError, r: Repair) {
    if !IndentFixApplies(lines, e) then r == NoRepair else
      var lo := e.lineno - 1;
      var floor, maxEnd := Indent(lines[e.msg.header - 1]), BlockBound(lines, e);
      match r
      case NoRepair =>
        NoneLargerShifted(parse, lines, lo, lo, maxEnd, floor + INDENT_STEP)
      case Repair(fix, start, end, column) =>
        && column == floor + INDENT_STEP
        && start == e.lineno <= end <= maxEnd
        && ShiftParses(parse, lines, lo, end, column)
        && NoneLargerShifted(parse, lines, lo, end, maxEnd, column)
        && fix == Join(Shifted(lines, lo, end, column)[lo..end])
  }

  /** The largest shifted span that parses, `maxEnd` first; `lo` when there is none. */
  method LargestShift(parse: Parser, lines: seq<string>, lo: nat, maxEnd: nat, column: nat)
    returns (end: nat, patched: seq<string>)
    requires lo < maxEnd <= |lines| && 0 <= Offset(lines, lo, column)
    ensures lo <= end <= maxEnd
    ensures NoneLargerShifted(parse, lines, lo, end, maxEnd, column)
    ensures end > lo ==>
      ShiftParses(parse, lines, lo, end, column) && patched == Shifted(lines, lo, end, column)
  {
    hide Join, Shifted, ShiftLine, Blank, LStrip;
    end := maxEnd;
    patched := lines;
    while end > lo
      invariant lo <= end <= maxEnd
      invariant NoneLargerShifted(parse, lines, lo, end, maxEnd, column)
    {
      patched := ShiftInPlace(lines, lo, end, column);
      if parse(Join(patched)).Parses? {
        return;
      }
      assert !ShiftParses(parse, lines, lo, end, column);
      end := end - 1;
    }
  }

  lemma IndentFixFound(parse: Parser, lines: seq<string>, e: SyntaxError, end: nat)
    requires IndentFixApplies(lines, e)
    requires var lo, column := e.lineno - 1, Indent(lines[e.msg.header - 1]) + INDENT_STEP;
      && lo < end <= BlockBound(lines, e) && 0 <= Offset(lines, lo, column)
      && ShiftParses(parse, lines, lo, end, column)
      && NoneLargerShifted(parse, lines, lo, end, BlockBound(lines, e), column)
    ensures var lo, column := e.lineno - 1, Indent(lines[e.msg.header - 1]) + INDENT_STEP;
      IsIndentFix(parse, lines, e,
                  Repair(Join(Shifted(lines, lo, end, column)[lo..end]), e.lineno, end, column))
  {
    hide Join, Shifted, ShiftParses, ForwardBound, LStrip, NoneLargerShifted, Blank, Indent;
  }

  lemma IndentFixNotFound(parse: Parser, lines: seq<string>, e: SyntaxError)
    requires IndentFixApplies(lines, e)
    requires var lo, column := e.lineno - 1, Indent(lines[e.msg.header - 1]) + INDENT_STEP;
      && 0 <= Offset(lines, lo, column)
      && NoneLargerShifted(parse, lines, lo, lo, BlockBound(lines, e), column)
    ensures IsIndentFix(parse, lines, e, NoRepair)
  {
    hide Join, Shifted, ShiftParses, ForwardBound, LStrip, NoneLargerShifted, Blank, Indent;
  }

  lemma IndentFixIsOff(parse: Parser, lines: seq<string>, e: SyntaxError)
    requires !IndentFixApplies(lines, e)
    ensures IsIndentFix(parse, lines, e, NoRepair)
  {
    hide IndentFixApplies;
  }

  method MissingIndentFix(parse: Parser, lines: seq<string>, e: SyntaxError) returns (r: Repair)
    ensures IsIndentFix(parse, lines, e, r)
  {
    hide Join, Shifted, ShiftParses, ForwardBound, LStrip, NoneLargerShifted, IsIndentFix, Blank, Indent;
    if !IndentFixApplies(lines, e) {
      IndentFixIsOff(parse, lines, e);
    }
    if e.lineno == 0 || !e.msg.ExpectedBlock? {
      return NoRepair;
    }
    if !(0 < e.lineno <= |lines| && 0 < e.msg.header <= |lines|) {
      return NoRepair;
    }
    var lo := e.lineno - 1;
    if Blank(lines[lo]) {
      return NoRepair;
    }
    var headerIndent := Indent(lines[e.msg.header - 1]);
    var column := headerIndent + INDENT_STEP;
    if Offset(lines, lo, column) <= 0 {
      return NoRepair;
    }
    var maxEnd := FindForwardBound(lines, e.lineno, headerIndent, Indent(lines[lo]));
    var end, patched := LargestShift(parse, lines, lo, maxEnd, column);
    if end == lo {
      IndentFixNotFound(parse, lines, e);
      return NoRepair;
    }
    IndentFixFound(parse, lines, e, end);
    return Repair(Join(patched[lo..end]), e.lineno, end, column);
  }

  // ----- Misaligned indent, searching forward -----

  predicate IsMisalignment(msg: Message) {
    msg == UnexpectedIndent || msg == UnindentMismatch
  }

  predicate MisalignmentApplies(lines: seq<string>, e: SyntaxError) {
    IsMisalignment(e.msg) && 0 < e.lineno <= |lines| && !Blank(lines[e.lineno - 1])
  }

  ghost predicate UsedBefore(lines: seq<string>, n: nat, level: nat)
    requires n <= |lines|
  {
    exists i | 0 <= i < n :: !Blank(lines[i]) && Indent(lines[i]) == level
  }

  /** Column 0, one step deeper than the line itself, and every indent used above it. The
      line's own indent is not a candidate. */
  ghost predicate IsLevel(lines: seq<string>, first: nat, level: nat)
    requires first < |lines|
  {
    && level != Indent(lines[first])
    && (level == 0 || level == Indent(lines[first]) + INDENT_STEP || UsedBefore(lines, first, level))
  }

  function Distance(level: nat, own: nat): nat {
    if level < own then own - level else level - own
  }

  /** The order in which levels are tried: by distance, then by level. */
  predicate NoLater(own: nat, a: nat, b: nat) {
    Distance(a, own) < Distance(b, own) || (Distance(a, own) == Distance(b, own) && a <= b)
  }

  predicate AlignParses(parse: Parser, lines: seq<string>, lo: nat, end: nat, column: nat)
    requires lo < |lines| && end <= |lines|
  {
    Fits(lines, lo, end, column) && parse(Join(Aligned(lines, lo, end, column))).Parses?
  }

  /** No span from line `lo` up to `maxEnd` and longer than up to `end` parses at `column`. */
  ghost predicate NoneLarger(parse: Parser, lines: seq<string>, lo: nat, end: nat, maxEnd: nat,
                             column: nat)
    requires lo < |lines| && maxEnd <= |lines|
  {
    forall larger: nat | end < larger <= maxEnd :: !AlignParses(parse, lines, lo, larger, column)
  }

  /** The first level in trial order, and the largest span at that level, that parses. */
  ghost predicate IsMisalignedFix(parse: Parser, lines: seq<string>, e: SyntaxError, r: Repair) {
    if !MisalignmentApplies(lines, e) then r == NoRepair else
      var lo := e.lineno - 1;
      var own := Indent(lines[lo]);
      var maxEnd := ForwardBound(lines, e.lineno, SearchLimit(lines, e.lineno), 0, own);
      match r
      case NoRepair =>
        forall level | IsLevel(lines, lo, level) :: NoneLarger(parse, lines, lo, lo, maxEnd, level)
      case Repair(fix, start, end, column) =>
        && IsLevel(lines, lo, column)
        && start == e.lineno <= end <= maxEnd
        && AlignParses(parse, lines, lo, end, column)
        && NoneLarger(parse, lines, lo, end, maxEnd, column)
        && (forall level | IsLevel(lines, lo, level) && level != column
                           && NoLater(own, level, column) ::
              NoneLarger(parse, lines, lo, lo, maxEnd, level))
        && fix == Join(Aligned(lines, lo, end, column)[lo..end])
  }

  method CollectLevels(lines: seq<string>, first: nat) returns (levels: set<nat>)
    requires first < |lines|
    ensures forall level :: level in levels <==> IsLevel(lines, first, level)
  {
    hide LStrip, Blank;
    var own := Indent(lines[first]);
    levels := {0, own + INDENT_STEP};
    for i := 0 to first
      invariant forall level ::
        level in levels <==> level == 0 || level == own + INDENT_STEP || UsedBefore(lines, i, level)
    {
      if !Blank(lines[i]) {
        levels := levels + {Indent(lines[i])};
      }
    }
    levels := levels - {own};
  }

  /** `sorted(levels, key=(distance, level))` */
  method SortLevels(levels: set<nat>, own: nat) returns (sorted: seq<nat>)
    ensures forall i, j | 0 <= i < j < |sorted| :: NoLater(own, sorted[i], sorted[j])
    ensures forall level :: level in sorted <==> level in levels
  {
    var order := (a: nat, b: nat) => NoLater(own, a, b);
    var rest := levels;
    var listed: seq<nat> := [];
    while rest != {}
      invariant forall level :: level in listed <==> level in levels - rest
      decreases rest
    {
      var level :| level in rest;
      listed := listed + [level];
      rest := rest - {level};
    }
    Sorts(order, listed);
    sorted := Sort(order, listed);
    assert forall i, j | 0 <= i < j < |sorted| :: order(sorted[i], sorted[j]);
    assert forall level :: level in sorted <==> level in multiset(sorted);
    assert forall level :: level in listed <==> level in multiset(listed);
  }

  /** The largest span that parses at one level, `maxEnd` first; `lo` when there is none. */
  method LargestSpan(parse: Parser, lines: seq<string>, lo: nat, maxEnd: nat, column: nat)
    returns (end: nat, patched: seq<string>)
    requires lo < maxEnd <= |lines|
    ensures lo <= end <= maxEnd
    ensures NoneLarger(parse, lines, lo, end, maxEnd, column)
    ensures end > lo ==>
      AlignParses(parse, lines, lo, end, column) && patched == Aligned(lines, lo, end, column)
  {
    hide Join, Aligned, Fits;
    end := maxEnd;
    patched := lines;
    while end > lo
      invariant lo <= end <= maxEnd
      invariant NoneLarger(parse, lines, lo, end, maxEnd, column)
    {
      var underflow;
      patched, underflow := AlignInPlace(lines, lo, end, column);
      if !underflow && parse(Join(patched)).Parses? {
        return;
      }
      assert !AlignParses(parse, lines, lo, end, column);
      end := end - 1;
    }
  }

  lemma EarlierLevels(sorted: seq<nat>, own: nat, k: nat)
    requires k < |sorted|
    requires forall i, j | 0 <= i < j < |sorted| :: NoLater(own, sorted[i], sorted[j])
    ensures forall level | level in sorted && level != sorted[k] && NoLater(own, level, sorted[k]) ::
      exists i :: 0 <= i < k && sorted[i] == level
  {
    assert forall i | k < i < |sorted| :: NoLater(own, sorted[k], sorted[i]);
    forall level | level in sorted && level != sorted[k] && NoLater(own, level, sorted[k])
      ensures exists i :: 0 <= i < k && sorted[i] == level
    {
      var i :| 0 <= i < |sorted| && sorted[i] == level;
    }
  }

  method MisalignedIndentFix(parse: Parser, lines: seq<string>, e: SyntaxError) returns (r: Repair)
    ensures IsMisalignedFix(parse, lines, e, r)
  {
    hide Join, Aligned, AlignParses, ForwardBound, LStrip, UsedBefore;
    if e.lineno == 0 || !IsMisalignment(e.msg) || e.lineno > |lines| {
      return NoRepair;
    }
    var lo := e.lineno - 1;
    if Blank(lines[lo]) {
      return NoRepair;
    }
    var own := Indent(lines[lo]);
    var levels := CollectLevels(lines, lo);
    var candidates := SortLevels(levels, own);
    var maxEnd := FindForwardBound(lines, e.lineno, 0, own);
    for k := 0 to |candidates|
      invariant forall i | 0 <= i < k :: NoneLarger(parse, lines, lo, lo, maxEnd, candidates[i])
    {
      var end, patched := LargestSpan(parse, lines, lo, maxEnd, candidates[k]);
      if end > lo {
        EarlierLevels(candidates, own, k);
        return Repair(Join(patched[lo..end]), e.lineno, end, candidates[k]);
      }
    }
    return NoRepair;
  }

  // ----- Misaligned indent, searching backward -----

  predicate SameBlock(line: string, other: string) {
    !Blank(line) && Indent(line) == Indent(other)
  }

  /** Lines `begin..last` are a maximal run at one indent, with only blank lines below it up to
      the error line. */
  ghost predicate IsRunAbove(lines: seq<string>, lo: nat, begin: nat, last: nat)
    requires lo < |lines|
  {
    && begin <= last < lo
    && (forall i | last < i < lo :: Blank(lines[i]))
    && (forall i | begin <= i <= last :: SameBlock(lines[i], lines[last]))
    && (begin > 0 ==> !SameBlock(lines[begin - 1], lines[last]))
  }

  /** The run sits deeper than `own`, and the file parses with the run moved left to `own`. */
  predicate MovesBack(parse: Parser, lines: seq<string>, begin: nat, last: nat, own: nat)
    requires begin <= last < |lines|
  {
    own < Indent(lines[last]) && AlignParses(parse, lines, begin, last + 1, own)
  }

  /** The run above the error line, moved left to that line's column. */
  ghost predicate IsBackwardFix(parse: Parser, lines: seq<string>, e: SyntaxError, r: Repair) {
    if !MisalignmentApplies(lines, e) then r == NoRepair else
      var lo := e.lineno - 1;
      var own := Indent(lines[lo]);
      match r
      case NoRepair =>
        forall begin: nat, last: nat | IsRunAbove(lines, lo, begin, last) ::
          !MovesBack(parse, lines, begin, last, own)
      case Repair(fix, start, end, column) =>
        && 0 < start <= end
        && column == own
        && IsRunAbove(lines, lo, start - 1, end - 1)
        && MovesBack(parse, lines, start - 1, end - 1, own)
        && fix == Join(Aligned(lines, start - 1, end, own)[start - 1..end])
  }

  lemma RunAboveUnique(lines: seq<string>, lo: nat, begin: nat, last: nat, begin': nat, last': nat)
    requires lo < |lines|
    requires IsRunAbove(lines, lo, begin, last) && IsRunAbove(lines, lo, begin', last')
    ensures begin == begin' && last == last'
  {
    assert SameBlock(lines[last], lines[last]) && SameBlock(lines[last'], lines[last']);
    assert last == last';
  }

  lemma OneRunAbove(lines: seq<string>, lo: nat, begin: nat, last: nat)
    requires lo < |lines| && IsRunAbove(lines, lo, begin, last)
    ensures forall b: nat, l: nat | IsRunAbove(lines, lo, b, l) :: b == begin && l == last
    ensures begin <= last < lo
  {
    forall b: nat, l: nat | IsRunAbove(lines, lo, b, l) ensures b == begin && l == last {
      RunAboveUnique(lines, lo, b, l, begin, last);
    }
  }

  /** A run moved to the error line's column never reaches a negative column. */
  lemma RunFits(lines: seq<string>, lo: nat, begin: nat, last: nat)
    requires lo < |lines| && IsRunAbove(lines, lo, begin, last)
    ensures Fits(lines, begin, last + 1, Indent(lines[lo]))
  {
    hide LStrip;
    assert SameBlock(lines[begin], lines[last]);
  }

  /** The run of lines above the error line; none when there is no line with text above it. */
  method FindRunAbove(lines: seq<string>, lo: nat) returns (found: bool, begin: nat, last: nat)
    requires lo < |lines|
    ensures found ==> IsRunAbove(lines, lo, begin, last)
    ensures !found ==> forall b: nat, l: nat :: !IsRunAbove(lines, lo, b, l)
  {
    hide LStrip;
    var start: int := lo - 1;
    begin, last := 0, 0;
    while start >= 0 && Blank(lines[start])
      invariant -1 <= start < lo
      invariant forall i | start < i < lo :: Blank(lines[i])
    {
      start := start - 1;
    }
    if start < 0 {
      assert forall b: nat, l: nat | IsRunAbove(lines, lo, b, l) :: SameBlock(lines[l], lines[l]);
      return false, 0, 0;
    }
    last := start;
    begin := last;
    while begin > 0
      invariant begin <= last
      invariant forall i | begin <= i <= last :: SameBlock(lines[i], lines[last])
    {
      if !SameBlock(lines[begin - 1], lines[last]) {
        break;
      }
      begin := begin - 1;
    }
    found := true;
  }

  lemma BackwardFound(parse: Parser, lines: seq<string>, e: SyntaxError, begin: nat, last: nat)
    requires MisalignmentApplies(lines, e) && IsRunAbove(lines, e.lineno - 1, begin, last)
    requires MovesBack(parse, lines, begin, last, Indent(lines[e.lineno - 1]))
    ensures var own := Indent(lines[e.lineno - 1]);
      var moved := Aligned(lines, begin, last + 1, own);
      IsBackwardFix(parse, lines, e, Repair(Join(moved[begin..last + 1]), begin + 1, last + 1, own))
  {
    hide Join, Aligned, LStrip, Blank, IsRunAbove, MovesBack;
    OneRunAbove(lines, e.lineno - 1, begin, last);
  }

  lemma BackwardNotFound(parse: Parser, lines: seq<string>, e: SyntaxError, begin: nat, last: nat)
    requires MisalignmentApplies(lines, e) && IsRunAbove(lines, e.lineno - 1, begin, last)
    requires !MovesBack(parse, lines, begin, last, Indent(lines[e.lineno - 1]))
    ensures IsBackwardFix(parse, lines, e, NoRepair)
  {
    hide Join, Aligned, LStrip, Blank, Indent, IsRunAbove, MovesBack;
    OneRunAbove(lines, e.lineno - 1, begin, last);
  }

  method MisalignedIndentBackwardFix(parse: Parser, lines: seq<string>, e: SyntaxError)
    returns (r: Repair)
    ensures IsBackwardFix(parse, lines, e, r)
  {
    hide Join, Aligned, LStrip, Blank, IsRunAbove, Fits;
    if e.lineno == 0 || !IsMisalignment(e.msg) || e.lineno > |lines| {
      return NoRepair;
    }
    var lo := e.lineno - 1;
    if Blank(lines[lo]) {
      return NoRepair;
    }
    var own := Indent(lines[lo]);
    var found, begin, last := FindRunAbove(lines, lo);
    if !found {
      return NoRepair;
    }
    hide IsBackwardFix;
    OneRunAbove(lines, lo, begin, last);
    if Indent(lines[last]) <= own {
      BackwardNotFound(parse, lines, e, begin, last);
      return NoRepair;
    }
    RunFits(lines, lo, begin, last);
    var patched, underflow := AlignInPlace(lines, begin, last + 1, own);
    if underflow {
      // Every line of the run lands exactly on the error line's column.
      assert false;
      return NoRepair;
    }
    if parse(Join(patched)).Fails? {
      BackwardNotFound(parse, lines, e, begin, last);
      return NoRepair;
    }
    BackwardFound(parse, lines, e, begin, last);
    return Repair(Join(patched[begin..last + 1]), begin + 1, last + 1, own);
  }

  // ----- One repair for one error -----

  ghost predicate IsReindent(parse: Parser, lines: seq<string>, e: SyntaxError, r: Repair) {
    || IsIndentFix(parse, lines, e, r)
    || (IsIndentFix(parse, lines, e, NoRepair) && IsMisalignedFix(parse, lines, e, r))
    || (IsIndentFix(parse, lines, e, NoRepair) && IsMisalignedFix(parse, lines, e, NoRepair)
        && IsBackwardFix(parse, lines, e, r))
  }

  /** The colon repair first, then the reindenting ones in this order. */
  ghost predicate IsSyntaxFix(parse: Parser, code: string, e: SyntaxError,
                              r: Repair, confidence: Confidence)
  {
    var lines := SplitLines(code);
    var colon := MissingColonFix(code, e);
    if colon != "" then
      confidence == High && r == Repair(colon, e.lineno, 0, 0)
    else if r.Repair? then
      confidence == Medium && IsReindent(parse, lines, e, r)
    else
      && confidence == Medium
      && IsIndentFix(parse, lines, e, NoRepair)
      && IsMisalignedFix(parse, lines, e, NoRepair)
      && IsBackwardFix(parse, lines, e, NoRepair)
  }

  method SyntaxErrorFix(parse: Parser, code: string, e: SyntaxError)
    returns (r: Repair, confidence: Confidence)
    ensures IsSyntaxFix(parse, code, e, r, confidence)
  {
    var colon := MissingColonFix(code, e);
    if colon != "" {
      return Repair(colon, e.lineno, 0, 0), High;
    }
    confidence := Medium;
    var lines := SplitLines(code);
    r := MissingIndentFix(parse, lines, e);
    if r.Repair? {
      return;
    }
    r := MisalignedIndentFix(parse, lines, e);
    if r.Repair? {
      return;
    }
    r := MisalignedIndentBackwardFix(parse, lines, e);
  }
}
