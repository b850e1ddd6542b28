/** Whether a finding quotes code that is really there, whatever its spacing. */
module Grounding {
  import opened Text
  import opened Findings
  import opened Collector

  const WINDOW: nat := 2

  function WordEnd(s: string): (n: nat)
    ensures n <= |s|
    ensures forall i | 0 <= i < n :: !IsSpace(s[i])
    ensures n < |s| ==> IsSpace(s[n])
  {
    if s == "" || IsSpace(s[0]) then 0 else 1 + WordEnd(s[1..])
  }

  /** `s.split()` */
  function Words(s: string): seq<string>
    decreases |s|
  {
    var t := LStrip(s);
    var n := WordEnd(t);
    if t == "" then [] else [t[..n]] + Words(t[n..])
  }

  function Spaced(words: seq<string>): string {
    if words == [] then "" else if |words| == 1 then words[0]
    else words[0] + " " + Spaced(words[1..])
  }

  /** `" ".join(s.split())` */
  function Normalized(s: string): string {
    Spaced(Words(s))
  }

  /** `part in whole` */
  predicate OccursIn(part: string, whole: string) {
    exists i | 0 <= i <= |whole| :: part <= whole[i..]
  }

  predicate IsGrounded(f: Finding, source: string) {
    var target := Normalized(f.badCode);
    var lines := SplitLines(source);
    if target == "" then true
    else if f.line < 1 then false
    else
      var lo := if f.line - 1 < WINDOW then 0 else f.line - 1 - WINDOW;
      var hi := if |lines| < f.line + WINDOW then |lines| else f.line + WINDOW;
      exists k | lo <= k < hi :: OccursIn(target, Normalized(lines[k]))
  }

  // ----- Spacing around a line does not matter -----

  lemma {:induction false} LStripBefore(t: string, blanks: string)
    requires !Blank(t)
    ensures LStrip(t + blanks) == LStrip(t) + blanks
  {
    if t != "" && IsSpace(t[0]) {
      assert (t + blanks)[1..] == t[1..] + blanks;
      LStripBefore(t[1..], blanks);
    }
  }

  lemma {:induction false} WordEndBefore(t: string, blanks: string)
    requires blanks == "" || IsSpace(blanks[0])
    ensures WordEnd(t + blanks) == WordEnd(t)
  {
    if t == "" {
      assert t + blanks == blanks;
    } else if !IsSpace(t[0]) {
      assert (t + blanks)[1..] == t[1..] + blanks;
      WordEndBefore(t[1..], blanks);
    }
  }

  lemma AllBlank(t: string, blanks: string)
    requires Blank(t) && forall i | 0 <= i < |blanks| :: IsSpace(blanks[i])
    ensures Words(t) == [] && Words(t + blanks) == []
  {
    BlankIsAllSpace(t);
    hide IsSpace, LStrip;
    BlankIsAllSpace(t + blanks);
  }

  lemma WordIsNotEmpty(s: string)
    requires s != "" && !IsSpace(s[0])
    ensures WordEnd(s) > 0
  {
  }

  lemma {:induction false} WordsBeforeBlanks(t: string, blanks: string)
    requires forall i | 0 <= i < |blanks| :: IsSpace(blanks[i])
    ensures Words(t + blanks) == Words(t)
    decreases |t|
  {
    hide LStrip, WordEnd, IsSpace;
    if Blank(t) {
      AllBlank(t, blanks);
    } else {
      var u := LStrip(t);
      var n := WordEnd(u);
      LStripIsRest(t);
      WordIsNotEmpty(u);
      LStripBefore(t, blanks);
      WordEndBefore(u, blanks);
      assert (u + blanks)[..n] == u[..n] && (u + blanks)[n..] == u[n..] + blanks;
      WordsBeforeBlanks(u[n..], blanks);
    }
  }

  lemma WordsOfLStripped(s: string)
    ensures Words(LStrip(s)) == Words(s)
  {
    hide LStrip, WordEnd;
    StripsOnce(s);
  }

  lemma WordsOfStripped(s: string)
    ensures Words(Strip(s)) == Words(s)
  {
    hide LStrip, RStrip, IsSpace, Words;
    var t := LStrip(s);
    var r := RStrip(t);
    RStripIsStart(t);
    assert t == r + t[|r|..];
    WordsBeforeBlanks(r, t[|r|..]);
    WordsOfLStripped(s);
  }

  lemma OccursInItself(s: string)
    ensures OccursIn(s, s)
  {
    assert s <= s[0..];
  }

  /** A finding that quotes its own line, without the blanks around it, is always grounded. */
  lemma OwnLineIsGrounded(f: Finding, source: string)
    requires 0 < f.line <= |SplitLines(source)|
    requires f.badCode == Strip(SplitLines(source)[f.line - 1])
    ensures IsGrounded(f, source)
  {
    hide Words, Strip, SplitLines, OccursIn;
    var line := SplitLines(source)[f.line - 1];
    WordsOfStripped(line);
    OccursInItself(Normalized(line));
  }

  /** So is every colon repair of the collector, against the file as it was given. */
  lemma ColonFindingIsGrounded(code: string, f: Finding)
    requires IsColonFinding(SplitLines(code), f)
    ensures IsGrounded(f, code)
  {
    hide Words, Strip, RStrip, SplitLines, OccursIn, Blank, IsGrounded;
    OwnLineIsGrounded(f, code);
  }

  // ----- What a normal form is -----

  /** A word: some characters, none of them blank. */
  ghost predicate IsWord(w: string) {
    w != "" && forall i | 0 <= i < |w| :: !IsSpace(w[i])
  }

  ghost predicate IsBlanks(s: string) {
    forall i | 0 <= i < |s| :: IsSpace(s[i])
  }

  /** Words with blanks around and between them; `blanks` has one entry more than `words`. */
  function Glued(blanks: seq<string>, words: seq<string>): string
    requires |blanks| == |words| + 1
  {
    if words == [] then blanks[0]
    else blanks[0] + words[0] + Glued(blanks[1..], words[1..])
  }

  /** There is some blank between any two words. */
  ghost predicate IsGlue(blanks: seq<string>, words: seq<string>) {
    && |blanks| == |words| + 1
    && (forall i | 0 <= i < |blanks| :: IsBlanks(blanks[i]))
    && (forall i | 0 < i < |words| :: blanks[i] != "")
    && (forall i | 0 <= i < |words| :: IsWord(words[i]))
  }

  lemma LStripGlue(b: string, w: string, rest: string)
    requires IsBlanks(b) && IsWord(w)
    ensures LStrip(b + w + rest) == w + rest
  {
    hide LStrip, IsSpace;
    var s := b + w + rest;
    LStripIsRest(s);
    assert s[|b|] == w[0] && forall i | 0 <= i < |b| :: s[i] == b[i];
    var n := |s| - |LStrip(s)|;
    assert n < |s| ==> s[n] == LStrip(s)[0];
    assert s[|b|..] == w + rest;
  }

  lemma WordEndAll(w: string)
    requires IsWord(w)
    ensures WordEnd(w) == |w|
  {
    hide WordEnd, IsSpace;
  }

  lemma WordEndGlue(w: string, rest: string)
    requires IsWord(w) && (rest == "" || IsSpace(rest[0]))
    ensures WordEnd(w + rest) == |w|
  {
    hide IsSpace;
    WordEndBefore(w, rest);
    WordEndAll(w);
  }

  lemma GlueStartsBlank(blanks: seq<string>, words: seq<string>)
    requires IsGlue(blanks, words) && (words != [] ==> blanks[0] != "")
    ensures Glued(blanks, words) == "" || IsSpace(Glued(blanks, words)[0])
  {
    hide IsSpace, IsWord;
    assert IsBlanks(blanks[0]);
  }

  lemma WordIsSome(w: string)
    requires IsWord(w)
    ensures w != ""
  {
  }

  lemma BlanksHaveNoWords(s: string)
    requires IsBlanks(s)
    ensures Words(s) == []
  {
    hide IsSpace, LStrip;
    BlankIsAllSpace(s);
  }

  lemma FirstWord(b: string, w: string, rest: string)
    requires IsBlanks(b) && IsWord(w) && (rest == "" || IsSpace(rest[0]))
    ensures Words(b + w + rest) == [w] + Words(rest)
  {
    hide LStrip, WordEnd, IsSpace, IsWord, IsBlanks;
    LStripGlue(b, w, rest);
    WordEndGlue(w, rest);
    WordIsSome(w);
    assert (w + rest)[..|w|] == w && (w + rest)[|w|..] == rest;
  }

  /** Splitting a text gives exactly its words, however they are spaced. */
  lemma {:induction false} WordsOfGlued(blanks: seq<string>, words: seq<string>)
    requires IsGlue(blanks, words)
    ensures Words(Glued(blanks, words)) == words
  {
    hide Words, IsWord, IsBlanks, IsSpace;
    if words == [] {
      BlanksHaveNoWords(blanks[0]);
    } else {
      WordsOfGlued(blanks[1..], words[1..]);
      GlueStartsBlank(blanks[1..], words[1..]);
      FirstWord(blanks[0], words[0], Glued(blanks[1..], words[1..]));
      assert words == [words[0]] + words[1..];
    }
  }

  lemma WordsAfterSpace(s: string)
    ensures Words(" " + s) == Words(s)
  {
    hide LStrip, Words;
    assert Spaces(1) == " ";
    LStripAfterSpaces(1, s);
    WordsOfLStripped(" " + s);
    WordsOfLStripped(s);
  }

  lemma {:induction false} SpacedIsJoined(words: seq<string>)
    ensures Spaced(words) == JoinWith(words, " ")
  {
    if |words| > 1 {
      SpacedIsJoined(words[1..]);
    }
  }

  /** A normal form has the words of the text, with one space between them and none around. */
  lemma {:induction false} NormalForm(words: seq<string>)
    requires forall i | 0 <= i < |words| :: IsWord(words[i])
    ensures Words(Spaced(words)) == words
  {
    assert IsSpace(' ');
    hide IsWord, Words, IsSpace;
    if words == [] {
      BlanksHaveNoWords("");
    } else if |words| == 1 {
      FirstWord("", words[0], "");
      BlanksHaveNoWords("");
      assert "" + words[0] + "" == words[0];
    } else {
      var rest := Spaced(words[1..]);
      NormalForm(words[1..]);
      WordsAfterSpace(rest);
      FirstWord("", words[0], " " + rest);
      assert "" + words[0] + (" " + rest) == words[0] + " " + rest;
      assert words == [words[0]] + words[1..];
    }
  }

  // ----- Which findings are grounded -----

  ghost predicate Quotes(whole: string, part: string) {
    exists before, after :: whole == before + part + after
  }

  lemma OccursMeans(part: string, whole: string)
    ensures OccursIn(part, whole) <==> Quotes(whole, part)
  {
    if i :| 0 <= i <= |whole| && part <= whole[i..] {
      assert whole == whole[..i] + part + whole[i + |part|..];
    }
    forall before, after | whole == before + part + after ensures OccursIn(part, whole) {
      assert whole[|before|..] == part + after;
      assert part <= whole[|before|..];
    }
  }

  /** The normal form of line `k`, counted from 0, contains `quoted`. */
  ghost predicate QuotedIn(lines: seq<string>, k: int, quoted: string) {
    0 <= k < |lines| && Quotes(Spaced(Words(lines[k])), quoted)
  }

  lemma QuotedMeans(lines: seq<string>, k: int, quoted: string)
    ensures QuotedIn(lines, k, quoted) <==> 0 <= k < |lines| && OccursIn(quoted, Normalized(lines[k]))
  {
    hide Words, Spaced, OccursIn, Quotes;
    if 0 <= k < |lines| {
      OccursMeans(quoted, Normalized(lines[k]));
    }
  }

  lemma GroundedIn(f: Finding, source: string, lines: seq<string>, quoted: string)
    requires lines == SplitLines(source) && quoted == Normalized(f.badCode)
    ensures IsGrounded(f, source)
      <==> quoted == ""
           || (f.line >= 1 && exists k :: k - 1 <= f.line <= k + 3 && QuotedIn(lines, k, quoted))
  {
    hide Words, Spaced, SplitLines, OccursIn, QuotedIn;
    forall k: int
      ensures QuotedIn(lines, k, quoted) <==> 0 <= k < |lines| && OccursIn(quoted, Normalized(lines[k]))
    {
      QuotedMeans(lines, k, quoted);
    }
  }

  /** A finding is grounded if and only if it quotes nothing, or its quotation occurs, with single
      spaces, in a line that is at most two away from its own; `k` counts the lines from 0. */
  lemma GroundedExactlyWhen(f: Finding, source: string)
    ensures var lines, quoted := SplitLines(source), Spaced(Words(f.badCode));
      IsGrounded(f, source)
      <==> quoted == ""
           || (f.line >= 1 && exists k :: k - 1 <= f.line <= k + 3 && QuotedIn(lines, k, quoted))
  {
    hide IsGrounded, QuotedIn;
    GroundedIn(f, source, SplitLines(source), Normalized(f.badCode));
  }
}
