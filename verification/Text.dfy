/** Lines and text as Python's `str` methods see them. */
module Text {

  /** The characters at which `str.splitlines` ends a line. */
  predicate IsBreak(c: char) {
    || c == '\n' || c == '\r'
    || c == '\U{0B}' || c == '\U{0C}'
    || c == '\U{1C}' || c == '\U{1D}' || c == '\U{1E}'
    || c == '\U{85}' || c == '\U{2028}' || c == '\U{2029}'
  }

  /** The characters that `str.strip`, `str.split` and the regex class `\s` treat as blank. */
  predicate IsSpace(c: char) {
    || IsBreak(c)
    || c == ' ' || c == '\t' || c == '\U{1F}' || c == '\U{A0}' || c == '\U{1680}'
    || '\U{2000}' <= c <= '\U{200A}'
    || c == '\U{202F}' || c == '\U{205F}' || c == '\U{3000}'
  }

  /** The codes of these characters. */
  lemma BlankCodes(c: char)
    ensures IsBreak(c)
      <==> 10 <= c as int <= 13 || 28 <= c as int <= 30 || c as int in {133, 8232, 8233}
    ensures IsSpace(c)
      <==> 9 <= c as int <= 13 || 28 <= c as int <= 32 || 8192 <= c as int <= 8202
           || c as int in {133, 160, 5760, 8232, 8233, 8239, 8287, 12288}
  {
  }

  /** A text without a line break in it. */
  ghost predicate IsLine(s: string) {
    forall i | 0 <= i < |s| :: !IsBreak(s[i])
  }

  ghost predicate AllLines(lines: seq<string>) {
    forall i | 0 <= i < |lines| :: IsLine(lines[i])
  }

  function LStrip(s: string): (t: string)
    ensures |t| <= |s|
  {
    if s != "" && IsSpace(s[0]) then LStrip(s[1..]) else s
  }

  /** The rest of the text from its first character on that is not blank. */
  lemma {:induction false} LStripIsRest(s: string)
    ensures var t := LStrip(s);
      && t == s[|s| - |t|..]
      && (forall i | 0 <= i < |s| - |t| :: IsSpace(s[i]))
      && (t != "" ==> !IsSpace(t[0]))
  {
    hide IsSpace;
    if s != "" && IsSpace(s[0]) {
      LStripIsRest(s[1..]);
      var n := |s| - |LStrip(s)|;
      assert s[n..] == s[1..][n - 1..];
      assert forall i | 0 < i < n :: s[i] == s[1..][i - 1];
    }
  }

  lemma StripsOnce(s: string)
    ensures LStrip(LStrip(s)) == LStrip(s)
  {
  }

  function RStrip(s: string): (t: string)
    ensures |t| <= |s|
  {
    if s != "" && IsSpace(s[|s| - 1]) then RStrip(s[..|s| - 1]) else s
  }

  /** The text up to its last character that is not blank. */
  lemma {:induction false} RStripIsStart(s: string)
    ensures var t := RStrip(s);
      && t == s[..|t|]
      && (forall i | |t| <= i < |s| :: IsSpace(s[i]))
      && (t != "" ==> !IsSpace(t[|t| - 1]))
  {
    hide IsSpace;
    if s != "" && IsSpace(s[|s| - 1]) {
      var front := s[..|s| - 1];
      RStripIsStart(front);
      var n := |RStrip(s)|;
      assert s[..n] == front[..n];
    }
  }

  function Strip(s: string): string {
    RStrip(LStrip(s))
  }

  /** `not s.strip()`: see BlankIsEmptyStrip. */
  predicate Blank(s: string) {
    LStrip(s) == ""
  }

  /** The number of leading blank characters: `len(s) - len(s.lstrip())`. */
  function Indent(s: string): nat {
    |s| - |LStrip(s)|
  }

  /** `" " * n` */
  function Spaces(n: nat): string {
    seq(n, _ => ' ')
  }

  /** `"\n".join(lines)` */
  function Join(lines: seq<string>): string {
    if |lines| == 0 then ""
    else if |lines| == 1 then lines[0]
    else lines[0] + "\n" + Join(lines[1..])
  }

  /** The length of the first line of `s`. */
  function LineEnd(s: string): (n: nat)
    ensures n <= |s| && IsLine(s[..n])
    ensures n < |s| ==> IsBreak(s[n])
  {
    if s == "" || IsBreak(s[0]) then 0 else 1 + LineEnd(s[1..])
  }

  /** A carriage return followed by a newline is one line break of two characters. */
  function BreakWidth(s: string, n: nat): (w: nat)
    requires n < |s|
    ensures 0 < w && n + w <= |s|
  {
    if s[n] == '\r' && n + 1 < |s| && s[n + 1] == '\n' then 2 else 1
  }

  /** `s.splitlines()` */
  function SplitLines(s: string): (lines: seq<string>)
    ensures AllLines(lines)
    decreases |s|
  {
    var n := LineEnd(s);
    if s == "" then []
    else if n == |s| then [s]
    else [s[..n]] + SplitLines(s[n + BreakWidth(s, n)..])
  }

  predicate EndsWithNewline(s: string) {
    s != "" && s[|s| - 1] == '\n'
  }

  /** What `splitlines` makes of joined lines: one empty line at the end is lost. */
  function DropLastEmpty(lines: seq<string>): seq<string> {
    if lines != [] && lines[|lines| - 1] == "" then lines[..|lines| - 1] else lines
  }

  // ----- Joining and splitting -----

  lemma {:induction false} LineEndAt(x: string, t: string)
    requires IsLine(x)
    requires t == "" || IsBreak(t[0])
    ensures LineEnd(x + t) == |x|
  {
    if x == "" {
      assert x + t == t;
    } else {
      assert (x + t)[1..] == x[1..] + t;
      LineEndAt(x[1..], t);
    }
  }

  lemma SplitFirst(line: string, rest: string)
    requires IsLine(line)
    ensures SplitLines(line + "\n" + rest) == [line] + SplitLines(rest)
  {
    assert IsBreak('\n');
    hide LineEnd, IsBreak;
    var whole := line + "\n" + rest;
    assert whole == line + ("\n" + rest);
    LineEndAt(line, "\n" + rest);
    assert whole[..|line|] == line && whole[|line| + 1..] == rest;
  }

  lemma OneLineSplits(lines: seq<string>)
    requires AllLines(lines) && |lines| <= 1
    ensures SplitLines(Join(lines)) == DropLastEmpty(lines)
  {
    hide LineEnd, IsBreak;
    if |lines| == 1 {
      LineEndAt(lines[0], "");
      assert lines[0] + "" == lines[0];
    }
  }

  lemma DropLaterEmpty(lines: seq<string>)
    requires |lines| > 1
    ensures DropLastEmpty(lines) == [lines[0]] + DropLastEmpty(lines[1..])
  {
    assert lines == [lines[0]] + lines[1..];
  }

  /** Splitting undoes joining, except that one empty last line disappears. */
  lemma {:induction false} SplitJoin(lines: seq<string>)
    requires AllLines(lines)
    ensures SplitLines(Join(lines)) == DropLastEmpty(lines)
  {
    hide SplitLines, IsLine, DropLastEmpty;
    if |lines| <= 1 {
      OneLineSplits(lines);
    } else {
      SplitFirst(lines[0], Join(lines[1..]));
      SplitJoin(lines[1..]);
      DropLaterEmpty(lines);
    }
  }

  lemma {:induction false} JoinAppend(xs: seq<string>, ys: seq<string>)
    requires xs != [] && ys != []
    ensures Join(xs + ys) == Join(xs) + "\n" + Join(ys)
  {
    if |xs| == 1 {
      assert (xs + ys)[1..] == ys;
    } else {
      assert (xs + ys)[1..] == xs[1..] + ys;
      JoinAppend(xs[1..], ys);
    }
  }

  /** With a newline after the last line nothing is lost. */
  lemma SplitTerminated(lines: seq<string>)
    requires AllLines(lines) && lines != []
    ensures SplitLines(Join(lines) + "\n") == lines
  {
    JoinAppend(lines, [""]);
    assert Join(lines) + "\n" + "" == Join(lines) + "\n";
    SplitJoin(lines + [""]);
  }

  lemma JoinInjective(xs: seq<string>, ys: seq<string>)
    requires AllLines(xs) && AllLines(ys) && xs != [] && ys != []
    requires Join(xs) == Join(ys)
    ensures xs == ys
  {
    SplitTerminated(xs);
    SplitTerminated(ys);
  }

  // ----- Every kind of line break -----

  /** The texts that end a line: one break character, or a carriage return and a newline. */
  predicate IsBreakText(sep: string) {
    (|sep| == 1 && IsBreak(sep[0])) || sep == "\r\n"
  }

  function JoinWith(lines: seq<string>, sep: string): string {
    if |lines| == 0 then ""
    else if |lines| == 1 then lines[0]
    else lines[0] + sep + JoinWith(lines[1..], sep)
  }

  /** A break text is one break, unless a newline after it makes one break of both. */
  lemma SplitAtBreak(line: string, sep: string, rest: string)
    requires IsLine(line) && IsBreakText(sep)
    requires sep == "\r" ==> rest == "" || rest[0] != '\n'
    ensures SplitLines(line + sep + rest) == [line] + SplitLines(rest)
  {
    assert IsBreak('\r');
    hide LineEnd, IsBreak;
    var whole := line + sep + rest;
    assert whole == line + (sep + rest);
    LineEndAt(line, sep + rest);
    assert whole[..|line|] == line && whole[|line| + |sep|..] == rest;
    assert whole[|line|] == sep[0];
    if sep == "\r\n" {
      assert whole[|line| + 1] == '\n';
    } else if sep[0] == '\r' {
      assert sep == "\r";
      assert rest != "" ==> whole[|line| + 1] == rest[0];
    }
    assert BreakWidth(whole, |line|) == |sep|;
  }

  lemma NoNewlineAhead(lines: seq<string>, sep: string)
    requires AllLines(lines) && IsBreakText(sep)
    ensures sep == "\r" && JoinWith(lines, sep) != "" ==> JoinWith(lines, sep)[0] != '\n'
  {
    assert IsBreak('\n');
    hide IsBreak;
    if lines != [] && lines[0] != "" {
      assert IsLine(lines[0]) && JoinWith(lines, sep)[0] == lines[0][0];
    }
  }

  /** Whatever ends the lines of a file, splitting it gives them back, except that one empty last
      line is lost. */
  lemma {:induction false} SplitJoinWith(lines: seq<string>, sep: string)
    requires AllLines(lines) && IsBreakText(sep)
    ensures SplitLines(JoinWith(lines, sep)) == DropLastEmpty(lines)
  {
    hide SplitLines, IsLine, IsBreakText, DropLastEmpty;
    if |lines| <= 1 {
      SplitJoin(lines);
    } else {
      NoNewlineAhead(lines[1..], sep);
      SplitAtBreak(lines[0], sep, JoinWith(lines[1..], sep));
      SplitJoinWith(lines[1..], sep);
      DropLaterEmpty(lines);
    }
  }

  /** Joining puts newlines between the lines, and nothing else. */
  lemma {:induction false} JoinIsWithNewlines(lines: seq<string>)
    ensures Join(lines) == JoinWith(lines, "\n")
  {
    if |lines| > 1 {
      JoinIsWithNewlines(lines[1..]);
    }
  }

  // ----- Blank characters -----

  lemma BlankIsAllSpace(s: string)
    ensures Blank(s) <==> forall i | 0 <= i < |s| :: IsSpace(s[i])
  {
    hide LStrip, IsSpace;
    var t := LStrip(s);
    LStripIsRest(s);
    assert t != "" ==> s[|s| - |t|] == t[0];
  }

  lemma BlankIsEmptyStrip(s: string)
    ensures Blank(s) <==> Strip(s) == ""
  {
    hide LStrip, RStrip, IsSpace;
    var t := LStrip(s);
    LStripIsRest(s);
    RStripIsStart(t);
  }

  lemma {:induction false} LStripAfterSpaces(n: nat, s: string)
    ensures LStrip(Spaces(n) + s) == LStrip(s)
  {
    if n == 0 {
      assert Spaces(0) + s == s;
    } else {
      assert (Spaces(n) + s)[1..] == Spaces(n - 1) + s;
      LStripAfterSpaces(n - 1, s);
    }
  }

  /** `RStrip` is the prefix that ends in the last character that is not blank. */
  lemma RStripIs(s: string, n: nat)
    requires n <= |s|
    requires forall i | n <= i < |s| :: IsSpace(s[i])
    requires n == 0 || !IsSpace(s[n - 1])
    ensures RStrip(s) == s[..n]
  {
    hide RStrip, IsSpace;
    RStripIsStart(s);
    assert |RStrip(s)| == n;
  }

  lemma RStripAfter(p: string, s: string)
    requires !Blank(s)
    ensures RStrip(p + s) == p + RStrip(s)
  {
    hide LStrip, RStrip, IsSpace;
    var r := RStrip(s);
    RStripIsStart(s);
    assert r != "" by { BlankIsAllSpace(s); }
    var whole := p + s;
    assert forall i | |p| <= i < |whole| :: whole[i] == s[i - |p|];
    RStripIs(whole, |p| + |r|);
  }
}
