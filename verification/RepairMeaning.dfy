/** What the reindenting repairs return, in terms of characters, columns and line numbers alone. */
module RepairMeaning {
  import opened Text
  import opened Findings
  import opened SyntaxRepair

  // ----- Words -----

  /** Which ASCII characters are parts of a word, by their codes. */
  lemma WordCharCodes(c: char)
    ensures IsWordChar(c)
      <==> 48 <= c as int <= 57 || 65 <= c as int <= 90 || c as int == 95 || 97 <= c as int <= 122
  {
  }

  /** The characters from `k` on are `word`, and no further part of a word follows. */
  predicate WordAt(line: string, k: nat, word: string) {
    && k + |word| <= |line| && line[k..k + |word|] == word
    && (k + |word| < |line| ==> !IsWordChar(line[k + |word|]))
  }

  ghost predicate BlankBetween(line: string, k: nat, m: nat) {
    m <= |line| && forall i | k <= i < m :: IsSpace(line[i])
  }

  /** `async`, blanks, and the word `def`. */
  ghost predicate AsyncDefAt(line: string, k: nat) {
    && k + 5 <= |line| && line[k..k + 5] == "async"
    && exists m: nat :: k + 5 < m && BlankBetween(line, k + 5, m) && WordAt(line, m, "def")
  }

  /** After its blanks the line starts with a definition, a decorator, or a statement that leaves
      the block. */
  ghost predicate EndsBlock(line: string) {
    var k := Indent(line);
    || WordAt(line, k, "def") || WordAt(line, k, "class") || AsyncDefAt(line, k)
    || (k < |line| && line[k] == '@')
    || WordAt(line, k, "return") || WordAt(line, k, "break")
    || WordAt(line, k, "continue") || WordAt(line, k, "raise")
  }

  lemma WordAtStart(line: string, k: nat, word: string)
    requires k <= |line|
    ensures StartsWithWord(line[k..], word) <==> WordAt(line, k, word)
  {
    hide IsWordChar;
    var s := line[k..];
    if |word| <= |s| {
      assert s[..|word|] == line[k..k + |word|];
      assert word <= s <==> s[..|word|] == word;
    }
  }

  lemma PrefixAt(line: string, k: nat, word: string)
    requires k <= |line|
    ensures word <= line[k..] <==> k + |word| <= |line| && line[k..k + |word|] == word
  {
    var s := line[k..];
    if |word| <= |s| {
      assert s[..|word|] == line[k..k + |word|];
      assert word <= s <==> s[..|word|] == word;
    }
  }

  /** The first character that is not blank is unique. */
  lemma IndentIs(s: string, k: nat)
    requires k < |s| && !IsSpace(s[k]) && forall i | 0 <= i < k :: IsSpace(s[i])
    ensures Indent(s) == k && LStrip(s) == s[k..]
  {
    hide LStrip, IsSpace;
    LStripIsRest(s);
    var n := |s| - |LStrip(s)|;
    assert n < |s| ==> s[n] == LStrip(s)[0];
  }

  lemma WordIsText(line: string, n: nat)
    requires WordAt(line, n, "def")
    ensures n < |line| && !IsSpace(line[n])
  {
    assert line[n] == line[n..n + 3][0] == 'd';
  }

  lemma AsyncRest(line: string, k: nat)
    requires k <= |line|
    ensures Indent(line[k..]) > 0 && StartsWithWord(LStrip(line[k..]), "def")
      <==> exists m: nat :: k < m && BlankBetween(line, k, m) && WordAt(line, m, "def")
  {
    hide LStrip, IsSpace, StartsWithWord, WordAt;
    var rest := line[k..];
    LStripIsRest(rest);
    var m := k + Indent(rest);
    assert LStrip(rest) == line[m..];
    WordAtStart(line, m, "def");
    assert forall i | k <= i < m :: line[i] == rest[i - k];
    assert BlankBetween(line, k, m);
    forall n: nat | k < n && BlankBetween(line, k, n) && WordAt(line, n, "def") ensures n == m {
      WordIsText(line, n);
      assert rest[n - k] == line[n];
      assert forall i | 0 <= i < n - k :: rest[i] == line[k + i];
      IndentIs(rest, n - k);
    }
  }

  lemma AsyncDefMeans(line: string, k: nat)
    requires k <= |line|
    ensures "async" <= line[k..] && Indent(line[k..][5..]) > 0
        && StartsWithWord(LStrip(line[k..][5..]), "def")
      <==> AsyncDefAt(line, k)
  {
    hide LStrip, IsSpace, StartsWithWord, WordAt, Indent;
    PrefixAt(line, k, "async");
    if "async" <= line[k..] {
      var rest := line[k + 5..];
      assert line[k..][5..] == rest;
      AsyncRest(line, k + 5);
    }
  }

  /** The two regular expressions say the same as this. */
  lemma BoundaryMeans(line: string)
    ensures IsBoundary(line) <==> EndsBlock(line)
  {
    hide LStrip, IsSpace, StartsWithWord, WordAt, AsyncDefAt;
    LStripIsRest(line);
    var k := Indent(line);
    assert LStrip(line) == line[k..];
    AsyncDefMeans(line, k);
    PrefixAt(line, k, "@");
    WordAtStart(line, k, "def");
    WordAtStart(line, k, "class");
    WordAtStart(line, k, "return");
    WordAtStart(line, k, "break");
    WordAtStart(line, k, "continue");
    WordAtStart(line, k, "raise");
  }

  // ----- How far a repair may reach -----

  /** Line `i`, counted from 0, may be taken into a span: it is blank, or it is not left of `floor`
      and, at the column of the span's first line, does not end the block. */
  ghost predicate MayTake(line: string, floor: nat, own: nat) {
    Blank(line) || (Indent(line) >= floor && (Indent(line) == own ==> !EndsBlock(line)))
  }

  /** A span that starts before line `from` may reach up to line `m`, at most 50 lines further. */
  ghost predicate MayReach(lines: seq<string>, from: nat, m: nat, floor: nat, own: nat) {
    && from <= m <= |lines| && m <= from + 50
    && forall i | from <= i < m :: MayTake(lines[i], floor, own)
  }

  lemma StopsMeans(line: string, floor: nat, own: nat)
    ensures Stops(line, floor, own) <==> !MayTake(line, floor, own)
  {
    hide Indent, Blank, IsBoundary, EndsBlock;
    BoundaryMeans(line);
  }

  /** The forward bound is the last line that a span may reach. */
  lemma BoundMeans(lines: seq<string>, from: nat, floor: nat, own: nat)
    requires from <= |lines|
    ensures var bound := ForwardBound(lines, from, SearchLimit(lines, from), floor, own);
      && from <= bound <= |lines|
      && forall m: nat :: from <= m <= bound <==> MayReach(lines, from, m, floor, own)
  {
    hide Stops, MayTake, ForwardBound;
    var limit := SearchLimit(lines, from);
    var bound := ForwardBound(lines, from, limit, floor, own);
    ForwardBoundIsLongest(lines, from, limit, floor, own);
    forall i | from <= i < |lines| ensures Stops(lines[i], floor, own) <==> !MayTake(lines[i], floor, own) {
      StopsMeans(lines[i], floor, own);
    }
  }

  // ----- What the parser is asked about -----

  /** Lines `lo..m` with `d` spaces put in front of those that have text. */
  ghost predicate IsShift(lines: seq<string>, moved: seq<string>, lo: nat, m: nat, d: nat) {
    && |moved| == |lines|
    && forall i | 0 <= i < |lines| ::
         moved[i] == if lo <= i < m && !Blank(lines[i]) then Spaces(d) + lines[i] else lines[i]
  }

  /** Lines `lo..m` with text moved by `d` columns, to the right or to the left. */
  ghost predicate IsMove(lines: seq<string>, moved: seq<string>, lo: nat, m: nat, d: int) {
    && |moved| == |lines|
    && forall i | 0 <= i < |lines| ::
         if lo <= i < m && !Blank(lines[i])
         then Indent(lines[i]) + d >= 0
              && moved[i] == Spaces(Indent(lines[i]) + d) + lines[i][Indent(lines[i])..]
         else moved[i] == lines[i]
  }

  ghost predicate ShiftTaken(parse: Parser, lines: seq<string>, lo: nat, m: nat, d: nat) {
    exists moved :: IsShift(lines, moved, lo, m, d) && parse(Join(moved)).Parses?
  }

  /** It is possible, without a line left of column 0, and the parser takes it. */
  ghost predicate MoveTaken(parse: Parser, lines: seq<string>, lo: nat, m: nat, d: int) {
    exists moved :: IsMove(lines, moved, lo, m, d) && parse(Join(moved)).Parses?
  }

  /** `fix` is the text of the shifted lines. */
  ghost predicate IsShiftText(lines: seq<string>, lo: nat, m: nat, d: nat, fix: string) {
    exists moved :: IsShift(lines, moved, lo, m, d) && lo <= m <= |moved| && fix == Join(moved[lo..m])
  }

  /** `fix` is the text of the moved lines. */
  ghost predicate IsMoveText(lines: seq<string>, lo: nat, m: nat, d: int, fix: string) {
    exists moved :: IsMove(lines, moved, lo, m, d) && lo <= m <= |moved| && fix == Join(moved[lo..m])
  }

  lemma ShiftIsUnique(lines: seq<string>, a: seq<string>, b: seq<string>, lo: nat, m: nat, d: nat)
    requires IsShift(lines, a, lo, m, d) && IsShift(lines, b, lo, m, d)
    ensures a == b
  {
    hide Blank, Spaces;
  }

  lemma ShiftedIsShift(lines: seq<string>, lo: nat, m: nat, column: nat)
    requires lo < |lines| && Indent(lines[lo]) <= column
    ensures IsShift(lines, Shifted(lines, lo, m, column), lo, m, column - Indent(lines[lo]))
  {
    hide Indent, Blank, Spaces, Shifted;
  }

  lemma ShiftIs(lines: seq<string>, lo: nat, m: nat, column: nat, moved: seq<string>)
    requires lo < |lines| && Indent(lines[lo]) <= column
    ensures IsShift(lines, moved, lo, m, column - Indent(lines[lo])) <==> moved == Shifted(lines, lo, m, column)
  {
    hide Indent, Shifted, IsShift;
    var d := column - Indent(lines[lo]);
    ShiftedIsShift(lines, lo, m, column);
    if IsShift(lines, moved, lo, m, d) {
      ShiftIsUnique(lines, moved, Shifted(lines, lo, m, column), lo, m, d);
    }
  }

  lemma ShiftMeans(parse: Parser, lines: seq<string>, lo: nat, m: nat, column: nat)
    requires lo < |lines| && Indent(lines[lo]) <= column
    ensures ShiftTaken(parse, lines, lo, m, column - Indent(lines[lo]))
      <==> ShiftParses(parse, lines, lo, m, column)
  {
    hide Indent, Shifted, IsShift, Join;
    var d := column - Indent(lines[lo]);
    forall moved ensures IsShift(lines, moved, lo, m, d) <==> moved == Shifted(lines, lo, m, column) {
      ShiftIs(lines, lo, m, column, moved);
    }
  }

  lemma MoveIsUnique(lines: seq<string>, a: seq<string>, b: seq<string>, lo: nat, m: nat, d: int)
    requires IsMove(lines, a, lo, m, d) && IsMove(lines, b, lo, m, d)
    ensures a == b
  {
    hide LStrip, Spaces, Blank, Indent;
  }

  lemma AlignedIsMove(lines: seq<string>, lo: nat, m: nat, column: nat)
    requires lo < |lines| && m <= |lines| && Fits(lines, lo, m, column)
    ensures IsMove(lines, Aligned(lines, lo, m, column), lo, m, column - Indent(lines[lo]))
  {
    hide LStrip, Spaces, Blank, Aligned;
    forall i | 0 <= i < |lines| ensures LStrip(lines[i]) == lines[i][Indent(lines[i])..] {
      LStripIsRest(lines[i]);
    }
  }

  lemma MoveFits(lines: seq<string>, moved: seq<string>, lo: nat, m: nat, column: nat)
    requires lo < |lines| && m <= |lines|
    requires IsMove(lines, moved, lo, m, column - Indent(lines[lo]))
    ensures Fits(lines, lo, m, column)
  {
    hide LStrip, Spaces, Blank;
    assert forall i | lo <= i < m && !Blank(lines[i]) ::
      moved[i] != "" || Indent(lines[i]) + (column - Indent(lines[lo])) >= 0;
  }

  lemma MoveIs(lines: seq<string>, lo: nat, m: nat, column: nat, moved: seq<string>)
    requires lo < |lines| && m <= |lines|
    ensures IsMove(lines, moved, lo, m, column - Indent(lines[lo]))
      <==> Fits(lines, lo, m, column) && moved == Aligned(lines, lo, m, column)
  {
    hide Indent, Fits, Aligned, IsMove;
    var d := column - Indent(lines[lo]);
    if IsMove(lines, moved, lo, m, d) {
      MoveFits(lines, moved, lo, m, column);
      AlignedIsMove(lines, lo, m, column);
      MoveIsUnique(lines, moved, Aligned(lines, lo, m, column), lo, m, d);
    } else if Fits(lines, lo, m, column) {
      AlignedIsMove(lines, lo, m, column);
    }
  }

  lemma MoveMeans(parse: Parser, lines: seq<string>, lo: nat, m: nat, column: nat)
    requires lo < |lines| && m <= |lines|
    ensures MoveTaken(parse, lines, lo, m, column - Indent(lines[lo]))
      <==> AlignParses(parse, lines, lo, m, column)
  {
    hide Indent, Aligned, IsMove, Fits, Join;
    var d := column - Indent(lines[lo]);
    forall moved
      ensures IsMove(lines, moved, lo, m, d)
        <==> Fits(lines, lo, m, column) && moved == Aligned(lines, lo, m, column)
    {
      MoveIs(lines, lo, m, column, moved);
    }
  }

  // ----- The repair of a missing indent -----

  /** The block after a header is not indented enough. */
  ghost predicate LacksIndent(lines: seq<string>, e: SyntaxError) {
    && e.msg.ExpectedBlock? && 0 < e.msg.header <= |lines|
    && 0 < e.lineno <= |lines| && !Blank(lines[e.lineno - 1])
    && Indent(lines[e.lineno - 1]) < Indent(lines[e.msg.header - 1]) + 4
  }

  /** What the spans of this repair are, and by how much they move. */
  ghost predicate MayIndent(lines: seq<string>, e: SyntaxError, m: nat)
    requires LacksIndent(lines, e)
  {
    MayReach(lines, e.lineno, m, Indent(lines[e.msg.header - 1]), Indent(lines[e.lineno - 1]))
  }

  ghost predicate IndentTaken(parse: Parser, lines: seq<string>, e: SyntaxError, m: nat)
    requires LacksIndent(lines, e)
  {
    ShiftTaken(parse, lines, e.lineno - 1, m,
               Indent(lines[e.msg.header - 1]) + 4 - Indent(lines[e.lineno - 1]))
  }

  lemma IndentTakenMeans(parse: Parser, lines: seq<string>, e: SyntaxError, m: nat)
    requires LacksIndent(lines, e)
    ensures IndentTaken(parse, lines, e, m)
      <==> ShiftParses(parse, lines, e.lineno - 1, m, Indent(lines[e.msg.header - 1]) + INDENT_STEP)
  {
    hide Indent, Blank, ShiftTaken, ShiftParses;
    ShiftMeans(parse, lines, e.lineno - 1, m, Indent(lines[e.msg.header - 1]) + 4);
  }

  lemma MayIndentMeans(lines: seq<string>, e: SyntaxError)
    requires LacksIndent(lines, e)
    ensures IndentFixApplies(lines, e)
    ensures forall m: nat :: e.lineno <= m <= BlockBound(lines, e) <==> MayIndent(lines, e, m)
  {
    hide Indent, Blank, MayReach, ForwardBound;
    BoundMeans(lines, e.lineno, Indent(lines[e.msg.header - 1]), Indent(lines[e.lineno - 1]));
  }

  lemma NoneLargerMeans(parse: Parser, lines: seq<string>, e: SyntaxError, end: nat)
    requires LacksIndent(lines, e) && e.lineno - 1 <= end
    ensures NoneLargerShifted(parse, lines, e.lineno - 1, end, BlockBound(lines, e),
                              Indent(lines[e.msg.header - 1]) + INDENT_STEP)
      <==> forall m: nat | MayIndent(lines, e, m) && m > end :: !IndentTaken(parse, lines, e, m)
  {
    hide Indent, Blank, ShiftParses, MayIndent, IndentTaken, BlockBound;
    var lo, column := e.lineno - 1, Indent(lines[e.msg.header - 1]) + INDENT_STEP;
    MayIndentMeans(lines, e);
    forall m: nat ensures IndentTaken(parse, lines, e, m) <==> ShiftParses(parse, lines, lo, m, column) {
      IndentTakenMeans(parse, lines, e, m);
    }
  }

  /** The repair indents the longest span that it may and that the parser takes, its first line to
      four columns right of the header; there is none if and only if no span is taken. */
  lemma IndentFixMeans(parse: Parser, lines: seq<string>, e: SyntaxError, r: Repair)
    requires IsIndentFix(parse, lines, e, r)
    ensures r.Repair? ==>
      && LacksIndent(lines, e)
      && r.start == e.lineno && r.column == Indent(lines[e.msg.header - 1]) + 4
      && MayIndent(lines, e, r.end) && IndentTaken(parse, lines, e, r.end)
      && (forall m: nat | MayIndent(lines, e, m) && m > r.end :: !IndentTaken(parse, lines, e, m))
      && IsShiftText(lines, r.start - 1, r.end, r.column - Indent(lines[r.start - 1]), r.fix)
    ensures r.NoRepair? && LacksIndent(lines, e) ==>
      forall m: nat | MayIndent(lines, e, m) :: !IndentTaken(parse, lines, e, m)
  {
    hide Join, Indent, Blank, ShiftParses, IsShift, MayIndent, IndentTaken, BlockBound, Shifted,
         NoneLargerShifted;
    if LacksIndent(lines, e) {
      var lo, column := e.lineno - 1, Indent(lines[e.msg.header - 1]) + INDENT_STEP;
      MayIndentMeans(lines, e);
      NoneLargerMeans(parse, lines, e, if r.Repair? then r.end else lo);
      if r.Repair? {
        IndentTakenMeans(parse, lines, e, r.end);
        ShiftIs(lines, lo, r.end, column, Shifted(lines, lo, r.end, column));
      } else {
        assert forall m: nat | MayIndent(lines, e, m) :: m > lo;
      }
    }
  }

  // ----- The repair of a misaligned line -----

  ghost predicate IsMisaligned(lines: seq<string>, e: SyntaxError) {
    && (e.msg == UnexpectedIndent || e.msg == UnindentMismatch)
    && 0 < e.lineno <= |lines| && !Blank(lines[e.lineno - 1])
  }

  /** A column that the line can be moved to: 0, four to its right, or one that is used above. */
  ghost predicate IsTarget(lines: seq<string>, first: nat, column: nat)
    requires first < |lines|
  {
    && column != Indent(lines[first])
    && (column == 0 || column == Indent(lines[first]) + 4
        || exists i :: 0 <= i < first && !Blank(lines[i]) && Indent(lines[i]) == column)
  }

  /** Nearer to `own`, or as near and further left. */
  predicate TriedBefore(own: int, a: int, b: int) {
    var da, db := if a < own then own - a else a - own, if b < own then own - b else b - own;
    da < db || (da == db && a < b)
  }

  ghost predicate MayAlign(lines: seq<string>, e: SyntaxError, m: nat)
    requires IsMisaligned(lines, e)
  {
    MayReach(lines, e.lineno, m, 0, Indent(lines[e.lineno - 1]))
  }

  ghost predicate AlignTaken(parse: Parser, lines: seq<string>, e: SyntaxError, m: nat, column: nat)
    requires IsMisaligned(lines, e)
  {
    MoveTaken(parse, lines, e.lineno - 1, m, column - Indent(lines[e.lineno - 1]))
  }

  lemma TargetMeans(lines: seq<string>, first: nat, column: nat)
    requires first < |lines|
    ensures IsLevel(lines, first, column) <==> IsTarget(lines, first, column)
  {
    hide Indent, Blank;
  }

  lemma TriedBeforeMeans(own: nat, a: nat, b: nat)
    ensures TriedBefore(own, a, b) <==> a != b && NoLater(own, a, b)
  {
  }

  lemma AlignParsesFits(parse: Parser, lines: seq<string>, lo: nat, m: nat, column: nat)
    requires lo < |lines| && m <= |lines| && AlignParses(parse, lines, lo, m, column)
    ensures Fits(lines, lo, m, column)
  {
    hide Fits, Join, Aligned;
  }

  /** The repair moves the line to the first target for which the parser takes a span: of two
      targets the nearer one is tried first, of two equally near ones the one further left. Every
      span is refused at each target before it, and every longer span at the target itself; there
      is no repair if and only if all spans are refused at all targets. */
  lemma MisalignedFixMeans(parse: Parser, lines: seq<string>, e: SyntaxError, r: Repair)
    requires IsMisalignedFix(parse, lines, e, r)
    ensures r.Repair? ==>
      && IsMisaligned(lines, e)
      && r.start == e.lineno && IsTarget(lines, e.lineno - 1, r.column)
      && MayAlign(lines, e, r.end) && AlignTaken(parse, lines, e, r.end, r.column)
      && (forall m: nat | MayAlign(lines, e, m) && m > r.end :: !AlignTaken(parse, lines, e, m, r.column))
      && (forall column: nat, m: nat | IsTarget(lines, e.lineno - 1, column) && MayAlign(lines, e, m)
                             && TriedBefore(Indent(lines[e.lineno - 1]), column, r.column) ::
            !AlignTaken(parse, lines, e, m, column))
      && IsMoveText(lines, r.start - 1, r.end, r.column - Indent(lines[r.start - 1]), r.fix)
    ensures r.NoRepair? && IsMisaligned(lines, e) ==>
      forall column: nat, m: nat | IsTarget(lines, e.lineno - 1, column) && MayAlign(lines, e, m) ::
        !AlignTaken(parse, lines, e, m, column)
  {
    hide Join, Indent, Blank, MoveTaken, AlignParses, IsMove, ForwardBound, MayReach, Aligned, IsLevel,
         IsTarget, NoLater, TriedBefore;
    if IsMisaligned(lines, e) {
      var lo, own := e.lineno - 1, Indent(lines[e.lineno - 1]);
      BoundMeans(lines, e.lineno, 0, own);
      forall m: nat, column: nat | m <= |lines|
        ensures AlignTaken(parse, lines, e, m, column) <==> AlignParses(parse, lines, lo, m, column)
      {
        MoveMeans(parse, lines, lo, m, column);
      }
      forall column: nat ensures IsLevel(lines, lo, column) <==> IsTarget(lines, lo, column) {
        TargetMeans(lines, lo, column);
      }
      if r.Repair? {
        MoveIs(lines, lo, r.end, r.column, Aligned(lines, lo, r.end, r.column));
        AlignParsesFits(parse, lines, lo, r.end, r.column);
        forall column: nat
          ensures TriedBefore(own, column, r.column) <==> column != r.column && NoLater(own, column, r.column)
        {
          TriedBeforeMeans(own, column, r.column);
        }
      }
    }
  }

  // ----- The repair of the lines above -----

  /** Lines `begin..last` (counted from 0) have text, all at one column; the line above them is
      blank or at another column, and below them there are only blank lines up to line `lo`. */
  ghost predicate IsBlockAbove(lines: seq<string>, lo: nat, begin: nat, last: nat)
    requires lo < |lines|
  {
    && begin <= last < lo
    && (forall i | begin <= i <= last :: !Blank(lines[i]) && Indent(lines[i]) == Indent(lines[begin]))
    && (begin > 0 ==> Blank(lines[begin - 1]) || Indent(lines[begin - 1]) != Indent(lines[begin]))
    && (forall i | last < i < lo :: Blank(lines[i]))
  }

  lemma BlockAboveMeans(lines: seq<string>, lo: nat, begin: nat, last: nat)
    requires lo < |lines|
    ensures IsRunAbove(lines, lo, begin, last) <==> IsBlockAbove(lines, lo, begin, last)
  {
    hide Indent, Blank;
    if IsRunAbove(lines, lo, begin, last) {
      assert SameBlock(lines[begin], lines[last]);
    }
  }

  /** The block above line `lo` is not deeper than that line, or the parser refuses it there. */
  ghost predicate NoBlockMoves(parse: Parser, lines: seq<string>, lo: nat)
    requires lo < |lines|
  {
    forall begin: nat, last: nat | IsBlockAbove(lines, lo, begin, last)
                                   && Indent(lines[begin]) > Indent(lines[lo]) ::
      !MoveTaken(parse, lines, begin, last + 1, Indent(lines[lo]) - Indent(lines[begin]))
  }

  /** The repair moves the block above the error line left to that line's column; there is none if
      and only if that block is not deeper than the line, or the parser refuses. */
  lemma BackwardFixMeans(parse: Parser, lines: seq<string>, e: SyntaxError, r: Repair)
    requires IsBackwardFix(parse, lines, e, r)
    ensures r.Repair? ==>
      && IsMisaligned(lines, e) && 0 < r.start <= r.end < e.lineno
      && IsBlockAbove(lines, e.lineno - 1, r.start - 1, r.end - 1)
      && var d := Indent(lines[e.lineno - 1]) - Indent(lines[r.start - 1]);
      && d < 0 && r.column == Indent(lines[e.lineno - 1])
      && MoveTaken(parse, lines, r.start - 1, r.end, d)
      && IsMoveText(lines, r.start - 1, r.end, d, r.fix)
    ensures r.NoRepair? && IsMisaligned(lines, e) ==>
      NoBlockMoves(parse, lines, e.lineno - 1)
  {
    hide Join, Indent, Blank, MoveTaken, AlignParses, IsMove, Aligned, IsRunAbove;
    if IsMisaligned(lines, e) {
      var lo, own := e.lineno - 1, Indent(lines[e.lineno - 1]);
      forall begin: nat, last: nat
        ensures IsRunAbove(lines, lo, begin, last) <==> IsBlockAbove(lines, lo, begin, last)
      {
        BlockAboveMeans(lines, lo, begin, last);
      }
      forall begin: nat, last: nat | IsBlockAbove(lines, lo, begin, last)
        ensures MovesBack(parse, lines, begin, last, own)
          <==> Indent(lines[begin]) > own && MoveTaken(parse, lines, begin, last + 1, own - Indent(lines[begin]))
      {
        MoveMeans(parse, lines, begin, last + 1, own);
      }
      if r.Repair? {
        AlignParsesFits(parse, lines, r.start - 1, r.end, own);
        MoveIs(lines, r.start - 1, r.end, own, Aligned(lines, r.start - 1, r.end, own));
      }
    }
  }

  // ----- One repair for one error -----

  /** No span is taken at any target. */
  ghost predicate NoTargetTaken(parse: Parser, lines: seq<string>, e: SyntaxError)
    requires IsMisaligned(lines, e)
  {
    forall column: nat, m: nat | IsTarget(lines, e.lineno - 1, column) && MayAlign(lines, e, m) ::
      !AlignTaken(parse, lines, e, m, column)
  }

  /** The lines above are moved only when the line itself cannot be; and there is no repair if and
      only if none of the three ways is open. */
  lemma SyntaxFixMeans(parse: Parser, code: string, e: SyntaxError, r: Repair)
    requires IsSyntaxFix(parse, code, e, r, Medium)
    ensures var lines := SplitLines(code);
      && (r.Repair? ==> LacksIndent(lines, e) || IsMisaligned(lines, e))
      && (r.Repair? && LacksIndent(lines, e) ==> IsIndentFix(parse, lines, e, r) && r.start == e.lineno)
      && (r.Repair? && IsMisaligned(lines, e) ==>
            if r.start < e.lineno then NoTargetTaken(parse, lines, e) else r.start == e.lineno)
      && (r.NoRepair? ==>
            && (LacksIndent(lines, e) ==>
                  forall m: nat | MayIndent(lines, e, m) :: !IndentTaken(parse, lines, e, m))
            && (IsMisaligned(lines, e) ==>
                  NoTargetTaken(parse, lines, e) && NoBlockMoves(parse, lines, e.lineno - 1)))
  {
    hide IsIndentFix, IsMisalignedFix, IsBackwardFix, Indent, Blank, IndentTaken, AlignTaken, MayIndent,
         MayAlign, IsTarget, MoveTaken, IsBlockAbove, IsMoveText, IsShiftText, SplitLines, MissingColonFix,
         TriedBefore, NoBlockMoves;
    var lines := SplitLines(code);
    forall fix | IsIndentFix(parse, lines, e, fix) {
      IndentFixMeans(parse, lines, e, fix);
    }
    forall fix | IsMisalignedFix(parse, lines, e, fix) {
      MisalignedFixMeans(parse, lines, e, fix);
    }
    forall fix | IsBackwardFix(parse, lines, e, fix) {
      BackwardFixMeans(parse, lines, e, fix);
    }
  }
}
