/** Reviewing a file that does not parse and applying all its findings. */
module EndToEnd {
  import opened Text
  import opened Lists
  import opened Findings
  import opened Patcher
  import opened PatchProperties
  import opened SyntaxRepair
  import opened Reindenting
  import opened Collector

  // ----- Which findings are applied -----

  /** No two fixable findings meet, and all are in range. */
  ghost predicate AllApply(size: nat, findings: seq<Finding>) {
    forall i | 0 <= i < |findings| && findings[i].HasFix() ::
      && InRange(size, findings[i])
      && forall j | 0 <= j < |findings| && j != i && findings[j].HasFix() ::
           !Overlap(findings[i], findings[j])
  }

  lemma {:induction false} CountOnce(findings: seq<Finding>, f: Finding)
    requires forall i, j | 0 <= i < j < |findings| :: !(findings[i] == f && findings[j] == f)
    ensures multiset(findings)[f] <= 1
  {
    if findings != [] {
      var rest := findings[1..];
      assert findings == [findings[0]] + rest;
      if findings[0] == f {
        assert f !in rest;
      } else {
        CountOnce(rest, f);
      }
    }
  }

  lemma FindingApplies(size: nat, findings: seq<Finding>, f: Finding)
    requires AllApply(size, findings) && f in findings && f.HasFix()
    ensures f in Applicable(size, findings)
  {
    hide Finding.HasFix;
    var fixable := multiset(WithFix(findings, true));
    var i :| 0 <= i < |findings| && findings[i] == f;
    WithFixCount(findings, true, f);
    assert forall j | 0 <= j < |findings| && findings[j] == f :: Overlap(f, findings[j]);
    CountOnce(findings, f);
    assert f in multiset(findings);
    forall g | g in fixable && g != f ensures !Overlap(f, g) {
      WithFixCount(findings, true, g);
      assert g in multiset(findings);
      var j :| 0 <= j < |findings| && findings[j] == g;
    }
  }

  lemma AllAreApplicable(size: nat, findings: seq<Finding>)
    requires AllApply(size, findings)
    ensures Applicable(size, findings) == set f | f in findings && f.HasFix()
  {
    hide Finding.HasFix;
    var fixable := multiset(WithFix(findings, true));
    forall f ensures fixable[f] == if f.HasFix() then multiset(findings)[f] else 0 {
      WithFixCount(findings, true, f);
    }
    forall f | f in findings && f.HasFix() ensures f in Applicable(size, findings) {
      FindingApplies(size, findings, f);
    }
    forall f | f in Applicable(size, findings) ensures f in findings && f.HasFix() {
      assert f in fixable;
      assert f in multiset(findings);
    }
  }

  lemma NothingLeft(findings: seq<Finding>, applied: seq<Finding>, notApplied: seq<Finding>)
    requires forall i, j | 0 <= i < j < |findings| :: findings[i] != findings[j]
    requires SetOf(applied) == SetOf(findings)
    requires multiset(applied) + multiset(notApplied) == multiset(findings)
    ensures notApplied == []
  {
    forall f ensures multiset(notApplied)[f] == 0 {
      CountOnce(findings, f);
      assert f in findings <==> f in SetOf(findings);
      assert f in applied <==> f in SetOf(applied);
      assert f in notApplied <==> f in multiset(notApplied);
      assert f in findings <==> f in multiset(findings);
    }
    assert multiset(notApplied) == multiset{};
    assert |multiset(notApplied)| == 0;
  }

  // ----- The working copy -----

  lemma ColonSpan(lines: seq<string>, f: Finding)
    requires IsColonFinding(lines, f)
    ensures f.HasFix() && f.Start() == f.End() == f.line && InRange(|lines|, f)
    ensures SplitLines(f.fix) == [f.fix]
  {
    hide Blank, SplitLines, EndsInColon, RStrip;
  }

  lemma ColonsApply(lines: seq<string>, findings: seq<Finding>, colons: seq<Finding>)
    requires findings == colons
      || (findings != [] && colons == findings[..|findings| - 1]
          && !findings[|findings| - 1].HasFix())
    requires LinesDiffer(colons) && forall f | f in colons :: IsColonFinding(lines, f)
    ensures AllApply(|lines|, findings)
    ensures Applicable(|lines|, findings) == SetOf(colons)
  {
    hide Finding.HasFix, IsColonFinding;
    forall f | f in colons
      ensures f.HasFix() && f.Start() == f.End() == f.line && InRange(|lines|, f)
    {
      ColonSpan(lines, f);
    }
    forall i | 0 <= i < |findings| && findings[i].HasFix()
      ensures i < |colons| && findings[i] == colons[i]
    {
    }
    forall i, j | 0 <= i < |colons| && 0 <= j < |colons| && i != j
      ensures !Overlap(colons[i], colons[j])
    {
      assert colons[i] in colons && colons[j] in colons;
    }
    hide Overlap, InRange;
    AllAreApplicable(|lines|, findings);
    assert forall f :: f in findings && f.HasFix() <==> f in colons;
  }

  /** With only colon repairs applied, the working copy is an overlay of the file. */
  lemma ColonOverlay(lines: seq<string>, colons: seq<Finding>, applied: seq<Finding>,
                     working: seq<string>)
    requires forall f | f in colons :: IsColonFinding(lines, f)
    requires IsWorkingCopy(lines, colons, working)
    requires SetOf(applied) == SetOf(colons)
    ensures IsOverlay(lines, applied, working)
  {
    hide Finding.HasFix, IsColonFinding, SplitLines, AllLines;
    assert forall f :: f in applied <==> f in SetOf(colons);
    forall f | f in applied
      ensures InRange(|lines|, f) && SplitLines(f.fix) == working[f.Start() - 1..f.End()]
    {
      ColonSpan(lines, f);
    }
    forall n | 0 < n <= |lines| && !Covered(SetOf(applied), n)
      ensures working[n - 1] == lines[n - 1]
    {
      forall f | f in colons ensures f.line != n {
        ColonSpan(lines, f);
        assert f in SetOf(applied);
      }
    }
  }

  lemma LinesDifferDistinct(fs: seq<Finding>)
    requires LinesDiffer(fs)
    ensures forall i, j | 0 <= i < j < |fs| :: fs[i] != fs[j]
  {
  }

  lemma NoFixToApply(filename: string, working: seq<string>, e: SyntaxError)
    ensures !FindingFor(filename, working, e, NoRepair, Medium).HasFix()
  {
  }

  /** A collector that does not end on a guess: every fix is applied, and the patched file is
      the working copy, which the parser accepts if that is why the collector stopped. */
  lemma PatchIsWorkingCopy(parse: Parser, filename: string, code: string, cap: nat,
                           findings: seq<Finding>, working: seq<string>, stop: Stop,
                           patched: string, applied: seq<Finding>, notApplied: seq<Finding>)
    requires IsCollection(parse, filename, code, cap, findings, working, stop)
    requires IsPatch(code, findings, patched, applied, notApplied)
    requires !stop.Reindent?
    ensures patched == AsText(code, working)
    ensures SetOf(applied) == SetOf(findings[..ColonCount(findings, stop)])
    ensures stop.Parsed? ==> parse(Join(working)).Parses? && notApplied == []
  {
    hide Join, IsColonChain, ColonFixed, IsSyntaxFix, IsColonFinding, IsWorkingCopy, LinesDiffer,
         Rewrite, Descending, Applicable, SplitLines, AllApply, Strip, AsText, IsOverlay, Finding.HasFix;
    var lines := SplitLines(code);
    var n := ColonCount(findings, stop);
    var colons := findings[..n];
    assert n == |findings| ==> colons == findings;
    ChainRepairsOriginal(parse, filename, lines, colons);
    if stop.NoFix? {
      NoFixToApply(filename, working, stop.error);
    }
    ColonsApply(lines, findings, colons);
    ColonOverlay(lines, colons, applied, working);
    RewriteIsOverlay(lines, applied, working);
    if stop.Parsed? {
      LinesDifferDistinct(colons);
      NothingLeft(findings, applied, notApplied);
    }
  }

  lemma GuessDistinct(lines: seq<string>, colons: seq<Finding>, guess: Finding)
    requires LinesDiffer(colons) && guess.confidence == Medium
    requires forall f | f in colons :: IsColonFinding(lines, f)
    ensures var findings := colons + [guess];
      forall i, j | 0 <= i < j < |findings| :: findings[i] != findings[j]
  {
    hide Blank, SplitLines, Strip, RStrip, EndsInColon;
    var findings := colons + [guess];
    forall i, j | 0 <= i < j < |findings| ensures findings[i] != findings[j] {
      assert findings[i] == colons[i] && colons[i] in colons;
    }
  }

  // ----- A reindenting guess at the end -----

  /** The lines the parser accepted; an empty last line, which it did not see, is kept. */
  ghost function AcceptedLines(working: seq<string>, e: SyntaxError, r: Repair): seq<string>
    requires r.Repair? && 0 < r.start <= |DropLastEmpty(working)|
  {
    Candidate(DropLastEmpty(working), e, r) + working[|DropLastEmpty(working)|..]
  }

  /** The span of the guess contains none of the lines repaired before it. */
  predicate SpanMisses(colons: seq<Finding>, r: Repair)
    requires r.Repair?
  {
    forall f | f in colons :: !(r.start <= f.line <= r.end)
  }

  /** The finding that carries the guess. */
  ghost predicate IsGuess(guess: Finding, r: Repair) {
    && r.Repair? && 0 < r.start <= r.end
    && guess.line == r.start && guess.endLine == r.end && guess.fix == r.fix
    && guess.confidence == Medium && guess.HasFix()
  }

  lemma JoinNotBlank(xs: seq<string>)
    requires xs != [] && !Blank(xs[0])
    ensures !Blank(Join(xs))
  {
    hide LStrip, IsSpace;
    BlankIsAllSpace(xs[0]);
    BlankIsAllSpace(Join(xs));
    var k :| 0 <= k < |xs[0]| && !IsSpace(xs[0][k]);
    assert Join(xs)[k] == xs[0][k];
  }

  /** The parser has been asked about the lines without an empty one at the end. */
  lemma GuessIsReindent(parse: Parser, working: seq<string>, e: SyntaxError, r: Repair)
    requires AllLines(working) && r.Repair? && IsSyntaxFix(parse, Join(working), e, r, Medium)
    ensures IsReindent(parse, DropLastEmpty(working), e, r)
  {
    hide Join, IsReindent, MissingColonFix, AllLines, DropLastEmpty, IsIndentFix, IsMisalignedFix,
         IsBackwardFix, SplitLines;
    SplitJoin(working);
  }

  lemma AcceptedIsNotBlank(parse: Parser, lines: seq<string>, e: SyntaxError, r: Repair)
    requires IsAcceptedReindent(parse, lines, e, r)
    ensures r.Repair? && 0 < r.start <= r.end <= |lines| && !Blank(r.fix)
  {
    hide Join, LStrip, Candidate, Indent;
    var moved := Candidate(lines, e, r);
    assert Moved(lines[r.start - 1], moved[r.start - 1], Offset(lines, r.start - 1, r.column));
    assert !Blank(moved[r.start - 1..r.end][0]);
    JoinNotBlank(moved[r.start - 1..r.end]);
  }

  lemma GuessIsAccepted(parse: Parser, filename: string, working: seq<string>, e: SyntaxError,
                        r: Repair, guess: Finding)
    requires AllLines(working) && r.Repair? && IsSyntaxFix(parse, Join(working), e, r, Medium)
    requires guess == FindingFor(filename, working, e, r, Medium)
    ensures IsAcceptedReindent(parse, DropLastEmpty(working), e, r)
    ensures IsGuess(guess, r) && r.end <= |working|
  {
    hide Join, IsSyntaxFix, IsReindent, IsAcceptedReindent, AllLines, Strip, Blank;
    GuessIsReindent(parse, working, e, r);
    ReindentIsSafe(parse, DropLastEmpty(working), e, r);
    AcceptedIsNotBlank(parse, DropLastEmpty(working), e, r);
  }

  /** What is known when the collector stops on a guess. */
  ghost predicate IsGuessRun(lines: seq<string>, colons: seq<Finding>, guess: Finding,
                             working: seq<string>, full: seq<string>, r: Repair): (known: bool)
    ensures known ==> |full| == |lines| == |working| && r.Repair? && 0 < r.start <= r.end <= |lines|
  {
    && AllLines(lines) && AllLines(full)
    && |full| == |lines| == |working|
    && (forall f | f in colons :: IsColonFinding(lines, f)) && LinesDiffer(colons)
    && IsWorkingCopy(lines, colons, working)
    && IsGuess(guess, r) && r.end <= |lines|
    && Reindented(working, full, r.start - 1, r.end,
                  Offset(working, r.start - 1, r.column))
    && !Blank(working[r.start - 1])
    && r.fix == Join(full[r.start - 1..r.end])
  }

  lemma ReindentedMore(working: seq<string>, seen: seq<string>, moved: seq<string>,
                       full: seq<string>, lo: nat, hi: nat, offset: int)
    requires Reindented(seen, moved, lo, hi, offset) && hi <= |seen| <= |working| == |full|
    requires forall i | 0 <= i < |seen| :: seen[i] == working[i] && full[i] == moved[i]
    requires forall i | |seen| <= i < |working| :: full[i] == working[i]
    ensures Reindented(working, full, lo, hi, offset)
  {
    hide Moved, Blank;
    forall i | lo <= i < hi && !Blank(working[i]) ensures Moved(working[i], full[i], offset) {
      assert Moved(seen[i], moved[i], offset);
    }
  }

  lemma AcceptedReindents(working: seq<string>, e: SyntaxError, r: Repair)
    requires AllLines(working) && r.Repair? && 0 < r.start <= r.end <= |DropLastEmpty(working)|
    requires var seen := DropLastEmpty(working);
      Reindented(seen, Candidate(seen, e, r), r.start - 1, r.end,
                 Offset(seen, r.start - 1, r.column))
    ensures var full := AcceptedLines(working, e, r);
      && AllLines(full) && |full| == |working|
      && Reindented(working, full, r.start - 1, r.end, Offset(working, r.start - 1, r.column))
      && full[r.start - 1..r.end]
         == Candidate(DropLastEmpty(working), e, r)[r.start - 1..r.end]
  {
    hide IsLine, Candidate, Moved, Blank, LStrip, Indent;
    var seen := DropLastEmpty(working);
    CandidateLines(seen, e, r);
    var moved, full := Candidate(seen, e, r), AcceptedLines(working, e, r);
    assert forall i | 0 <= i < |seen| :: seen[i] == working[i] && full[i] == moved[i];
    assert forall i | |seen| <= i < |working| :: full[i] == working[i];
    assert Offset(seen, r.start - 1, r.column) == Offset(working, r.start - 1, r.column);
    ReindentedMore(working, seen, moved, full, r.start - 1, r.end,
                   Offset(working, r.start - 1, r.column));
  }

  lemma GuessRun(parse: Parser, filename: string, code: string, cap: nat,
                 findings: seq<Finding>, working: seq<string>, stop: Stop)
    requires IsCollection(parse, filename, code, cap, findings, working, stop)
    requires stop.Reindent?
    ensures findings != [] && stop.repair.Repair?
    ensures 0 < stop.repair.start <= stop.repair.end <= |DropLastEmpty(working)| <= |working|
    ensures |working| == |SplitLines(code)|
    ensures |AcceptedLines(working, stop.error, stop.repair)| == |working|
    ensures IsAcceptedReindent(parse, DropLastEmpty(working), stop.error, stop.repair)
    ensures IsGuessRun(SplitLines(code), findings[..|findings| - 1], findings[|findings| - 1],
                       working, AcceptedLines(working, stop.error, stop.repair), stop.repair)
  {
    var lines, n := SplitLines(code), |findings| - 1;
    var e, r := stop.error, stop.repair;
    hide Join, IsColonChain, ColonFixed, IsSyntaxFix, IsColonFinding, LinesDiffer, SplitLines,
         FindingFor, Reindented, Candidate, Blank;
    ChainRepairsOriginal(parse, filename, lines, findings[..n]);
    GuessIsAccepted(parse, filename, working, e, r, findings[n]);
    AcceptedReindents(working, e, r);
  }

  /** When the span misses all repaired lines, every finding is applied. */
  lemma GuessApplies(lines: seq<string>, colons: seq<Finding>, guess: Finding, r: Repair)
    requires LinesDiffer(colons) && forall f | f in colons :: IsColonFinding(lines, f)
    requires IsGuess(guess, r) && r.end <= |lines| && SpanMisses(colons, r)
    ensures Applicable(|lines|, colons + [guess]) == SetOf(colons + [guess])
  {
    hide Finding.HasFix, IsColonFinding, Applicable;
    var findings := colons + [guess];
    forall f | f in colons
      ensures f.HasFix() && f.Start() == f.End() == f.line && InRange(|lines|, f)
    {
      ColonSpan(lines, f);
    }
    forall i, j | 0 <= i < |findings| && 0 <= j < |findings| && i != j
      ensures !Overlap(findings[i], findings[j])
    {
      assert i < |colons| ==> findings[i] in colons;
      assert j < |colons| ==> findings[j] in colons;
    }
    AllAreApplicable(|lines|, findings);
    assert forall f | f in findings :: f in colons || f == guess;
  }

  /** A finding whose span meets that of the guess takes the guess down with itself. */
  lemma ConflictBlocks(size: nat, findings: seq<Finding>, f: Finding, guess: Finding)
    requires f in findings && guess in findings && f != guess
    requires f.HasFix() && guess.HasFix() && Overlap(f, guess)
    ensures f !in Applicable(size, findings) && guess !in Applicable(size, findings)
  {
    hide Finding.HasFix;
    var fixable := multiset(WithFix(findings, true));
    WithFixCount(findings, true, f);
    WithFixCount(findings, true, guess);
    assert f in multiset(findings) && guess in multiset(findings);
    assert Overlap(guess, f);
  }

  lemma ReplayFix(full: seq<string>, lo: nat, hi: nat)
    requires AllLines(full) && lo < hi <= |full|
    ensures SplitLines(Join(full[lo..hi]))
            == if full[hi - 1] != "" then full[lo..hi] else full[lo..hi - 1]
  {
    hide SplitLines, Join, IsLine;
    SplitJoin(full[lo..hi]);
    assert full[lo..hi][..hi - lo - 1] == full[lo..hi - 1];
  }

  /** What the lemmas below use of `IsGuessRun`. */
  lemma GuessBasics(lines: seq<string>, colons: seq<Finding>, guess: Finding,
                    working: seq<string>, full: seq<string>, r: Repair)
    requires IsGuessRun(lines, colons, guess, working, full, r)
    ensures AllLines(lines) && LinesDiffer(colons)
    ensures forall f | f in colons :: IsColonFinding(lines, f)
    ensures guess.HasFix() && guess.Start() == r.start && guess.End() == r.end
    ensures 0 < r.start <= r.end <= |lines| && guess.confidence == Medium
    ensures SplitLines(guess.fix)
      == if full[r.end - 1] != ""
         then full[r.start - 1..r.end]
         else full[r.start - 1..r.end - 1]
  {
    hide SplitLines, Join, AllLines, Moved, Blank, IsColonFinding;
    ReplayFix(full, r.start - 1, r.end);
  }

  lemma GuessColon(lines: seq<string>, colons: seq<Finding>, guess: Finding,
                   working: seq<string>, full: seq<string>, r: Repair, f: Finding)
    requires IsGuessRun(lines, colons, guess, working, full, r) && f in colons
    ensures IsColonFinding(lines, f) && f.confidence == High
  {
    hide Join, AllLines, IsWorkingCopy, Reindented, Blank, IsGuess, SplitLines, RStrip, EndsInColon;
  }

  lemma SliceOfOne(lines: seq<string>, n: nat)
    requires 0 < n <= |lines|
    ensures lines[n - 1..n] == [lines[n - 1]]
  {
  }

  lemma OutsideSpan(lines: seq<string>, colons: seq<Finding>, guess: Finding,
                    working: seq<string>, full: seq<string>, r: Repair, f: Finding)
    requires IsGuessRun(lines, colons, guess, working, full, r)
    requires f in colons && !(r.start <= f.line <= r.end)
    ensures 0 < f.line <= |lines| == |full|
    ensures full[f.line - 1] == f.fix
  {
    hide SplitLines, Join, AllLines, Moved, Blank, IsColonFinding, Finding.HasFix,
         LinesDiffer, IsGuess;
  }

  /** A repaired line outside the span is the same in the accepted text. */
  lemma ColonOutside(lines: seq<string>, colons: seq<Finding>, guess: Finding,
                     working: seq<string>, full: seq<string>, r: Repair, f: Finding)
    requires IsGuessRun(lines, colons, guess, working, full, r)
    requires f in colons && !(r.start <= f.line <= r.end)
    ensures f.Start() == f.line == f.End() && 0 < f.line <= |lines|
    ensures InRange(|lines|, f)
    ensures SplitLines(f.fix) == full[f.Start() - 1..f.End()]
  {
    hide *;
    GuessColon(lines, colons, guess, working, full, r, f);
    ColonSpan(lines, f);
    OutsideSpan(lines, colons, guess, working, full, r, f);
    SliceOfOne(full, f.line);
  }

  lemma UncoveredSame(lines: seq<string>, colons: seq<Finding>, guess: Finding,
                      working: seq<string>, full: seq<string>, r: Repair, applied: seq<Finding>)
    requires IsGuessRun(lines, colons, guess, working, full, r)
    requires SetOf(applied) == SetOf(colons + [guess])
    ensures |full| == |lines|
    ensures forall n | 0 < n <= |lines| && !Covered(SetOf(applied), n) ::
      full[n - 1] == lines[n - 1]
  {
    hide SplitLines, Join, AllLines, Moved, Blank, IsColonFinding, Finding.HasFix, LinesDiffer;
    GuessBasics(lines, colons, guess, working, full, r);
    forall n | 0 < n <= |lines| && !Covered(SetOf(applied), n) ensures full[n - 1] == lines[n - 1] {
      assert guess in SetOf(applied);
      forall f | f in colons ensures f.line != n {
        ColonSpan(lines, f);
        assert f in SetOf(applied);
      }
    }
  }

  /** The span misses the repaired lines and its last line is not empty: the patched file is
      what the parser accepted. */
  lemma GuessOverlay(lines: seq<string>, colons: seq<Finding>, guess: Finding,
                     working: seq<string>, full: seq<string>, r: Repair, applied: seq<Finding>)
    requires IsGuessRun(lines, colons, guess, working, full, r)
    requires SpanMisses(colons, r) && full[r.end - 1] != ""
    requires SetOf(applied) == SetOf(colons + [guess])
    ensures IsOverlay(lines, applied, full)
  {
    hide SplitLines, Join, AllLines, IsColonFinding, IsGuessRun, Covered, Finding.HasFix, LinesDiffer;
    GuessBasics(lines, colons, guess, working, full, r);
    UncoveredSame(lines, colons, guess, working, full, r, applied);
    assert forall f :: f in applied <==> f in SetOf(colons + [guess]);
    forall f | f in applied
      ensures InRange(|lines|, f) && SplitLines(f.fix) == full[f.Start() - 1..f.End()]
    {
      if f != guess {
        ColonOutside(lines, colons, guess, working, full, r, f);
      }
    }
  }

  lemma EmptyEnd(lines: seq<string>, colons: seq<Finding>, guess: Finding,
                 working: seq<string>, full: seq<string>, r: Repair)
    requires IsGuessRun(lines, colons, guess, working, full, r)
    ensures full[r.end - 1] == "" <==> working[r.end - 1] == ""
    ensures working[r.end - 1] == "" ==> r.start < r.end
  {
    hide SplitLines, Join, AllLines, IsColonFinding, IsWorkingCopy, LinesDiffer, IsGuess, Reindented,
         Indent, IsSpace;
    EmptyStaysEmpty(working, full, r.start - 1, r.end,
                    Offset(working, r.start - 1, r.column), r.end - 1);
    assert Blank("");
  }

  lemma SpanIsLonger(lines: seq<string>, colons: seq<Finding>, guess: Finding,
                     working: seq<string>, full: seq<string>, r: Repair)
    requires IsGuessRun(lines, colons, guess, working, full, r)
    ensures |full| == |lines| && r.end <= |lines|
    ensures full[r.end - 1] == "" ==>
      r.start < r.end && |SplitLines(guess.fix)| == r.end - r.start
  {
    hide SplitLines, Join, AllLines, IsColonFinding, IsWorkingCopy, LinesDiffer, IsGuessRun,
         Finding.HasFix;
    GuessBasics(lines, colons, guess, working, full, r);
    EmptyEnd(lines, colons, guess, working, full, r);
  }

  /** The span ends in an empty line: replaying the fix loses that line. */
  lemma GuessLosesLine(lines: seq<string>, colons: seq<Finding>, guess: Finding,
                       working: seq<string>, full: seq<string>, r: Repair, applied: seq<Finding>)
    requires IsGuessRun(lines, colons, guess, working, full, r)
    requires full[r.end - 1] == ""
    requires SetOf(applied) == SetOf(colons + [guess]) && Descending(applied)
    requires AllInRange(|lines|, SetOf(applied))
    ensures |Rewrite(lines, SetOf(applied))| == |lines| - 1 && |lines| > 1
  {
    hide IsGuessRun, IsColonFinding, SplitLines, Rewrite, Descending, Finding.HasFix, AllInRange,
         LinesDiffer, AllLines, Join;
    GuessBasics(lines, colons, guess, working, full, r);
    SpanIsLonger(lines, colons, guess, working, full, r);
    assert forall f :: f in applied <==> f in SetOf(colons + [guess]);
    forall f | f in applied && f != guess ensures |SplitLines(f.fix)| == f.End() - f.Start() + 1 {
      ColonSpan(lines, f);
    }
    GrowthOfOne(applied, guess);
    LengthChange(lines, applied);
  }

  lemma InApplicable(size: nat, findings: seq<Finding>, f: Finding)
    requires f in Applicable(size, findings)
    ensures f in findings
  {
    WithFixCount(findings, true, f);
    assert f in multiset(findings);
  }

  lemma AppliedLinesDiffer(lines: seq<string>, applied: seq<Finding>)
    requires Descending(applied)
    ensures LinesDiffer(applied)
  {
  }

  lemma FixedLine(lines: seq<string>, f: Finding)
    requires IsColonFinding(lines, f)
    ensures 0 < f.line <= |lines| && IsLine(f.fix)
  {
    hide SplitLines, EndsInColon, RStrip, Blank;
    assert AllLines(SplitLines(f.fix));
    assert SplitLines(f.fix)[0] == f.fix;
  }

  lemma {:induction false} FixedPointwise(lines: seq<string>, fs: seq<Finding>)
    requires AllLines(lines) && LinesDiffer(fs)
    requires forall f | f in fs :: IsColonFinding(lines, f)
    ensures IsWorkingCopy(lines, fs, ColonFixed(lines, fs))
  {
    hide IsWorkingCopy, IsColonFinding, ColonFixed, AllLines;
    if fs == [] {
      NothingRepaired(lines);
    } else {
      var n := |fs| - 1;
      var front, f := fs[..n], fs[n];
      assert fs == front + [f];
      FixedPointwise(lines, front);
      FixedLine(lines, f);
      FixedLines(lines, front, f);
      OneMoreFixed(lines, front, f, ColonFixed(lines, front));
    }
  }

  /** Without the conflicting ones, the applied fixes leave the line of `f` as it was. */
  lemma OnlyColonsApplied(lines: seq<string>, colons: seq<Finding>, guess: Finding,
                          applied: seq<Finding>, f: Finding) returns (fixed: seq<string>)
    requires AllLines(lines) && LinesDiffer(colons)
    requires forall g | g in colons :: IsColonFinding(lines, g)
    requires f in colons && f !in applied && guess !in applied && Descending(applied)
    requires 0 < f.line <= |lines|
    requires SetOf(applied) == Applicable(|lines|, colons + [guess])
    ensures Rewrite(lines, SetOf(applied)) == fixed && |fixed| == |lines|
    ensures fixed[f.line - 1] == lines[f.line - 1]
  {
    hide Finding.HasFix, SplitLines, IsLine, Rewrite, ColonFixed;
    forall g | g in applied ensures g in colons {
      InApplicable(|lines|, colons + [guess], g);
    }
    AppliedLinesDiffer(lines, applied);
    fixed := ColonFixed(lines, applied);
    FixedPointwise(lines, applied);
    ColonOverlay(lines, applied, applied, fixed);
    RewriteIsOverlay(lines, applied, fixed);
    forall g | g in applied ensures g.line != f.line {
      var i :| 0 <= i < |colons| && colons[i] == g;
      var j :| 0 <= j < |colons| && colons[j] == f;
      assert i != j;
    }
  }

  lemma WorkingHasFix(lines: seq<string>, colons: seq<Finding>, guess: Finding,
                      working: seq<string>, full: seq<string>, r: Repair, f: Finding)
    requires IsGuessRun(lines, colons, guess, working, full, r)
    requires f in colons && r.start <= f.line <= r.end
    ensures working[f.line - 1] == f.fix
    ensures !Blank(f.fix) ==> Moved(f.fix, full[f.line - 1], Offset(working, r.start - 1, r.column))
  {
    hide SplitLines, Join, AllLines, Moved, Blank, EndsInColon, RStrip, Strip, Offset, IsGuess,
         LinesDiffer, IsColonFinding;
  }

  lemma RepairedLine(lines: seq<string>, colons: seq<Finding>, guess: Finding,
                     working: seq<string>, full: seq<string>, r: Repair, f: Finding)
    requires IsGuessRun(lines, colons, guess, working, full, r)
    requires f in colons && r.start <= f.line <= r.end
    ensures !Blank(f.fix) && EndsInColon(f.fix) && !EndsInColon(lines[f.line - 1])
    ensures Moved(f.fix, full[f.line - 1], Offset(working, r.start - 1, r.column))
  {
    hide IsGuessRun, SplitLines, Moved, Blank, EndsInColon, RStrip, Strip, Offset;
    GuessColon(lines, colons, guess, working, full, r, f);
    WorkingHasFix(lines, colons, guess, working, full, r, f);
  }

  /** In the accepted text the repaired line has its colon; in the file it has not. */
  lemma RepairedLineMoves(lines: seq<string>, colons: seq<Finding>, guess: Finding,
                          working: seq<string>, full: seq<string>, r: Repair, f: Finding)
    requires IsGuessRun(lines, colons, guess, working, full, r)
    requires f in colons && r.start <= f.line <= r.end
    ensures full[f.line - 1] != lines[f.line - 1]
  {
    hide IsGuessRun, Moved, EndsInColon, Blank;
    RepairedLine(lines, colons, guess, working, full, r, f);
    MovedKeepsColon(f.fix, full[f.line - 1], Offset(working, r.start - 1, r.column));
  }

  /** The span contains a repaired line: neither fix is applied, and that line is still broken. */
  lemma GuessConflicts(lines: seq<string>, colons: seq<Finding>, guess: Finding,
                       working: seq<string>, full: seq<string>, r: Repair, applied: seq<Finding>,
                       f: Finding)
    requires IsGuessRun(lines, colons, guess, working, full, r)
    requires f in colons && r.start <= f.line <= r.end
    requires Descending(applied) && SetOf(applied) == Applicable(|lines|, colons + [guess])
    ensures guess !in applied
    ensures AllLines(Rewrite(lines, SetOf(applied))) && |Rewrite(lines, SetOf(applied))| == |lines|
    ensures Rewrite(lines, SetOf(applied)) != full
  {
    hide IsGuessRun, IsColonFinding, SplitLines, Rewrite, Applicable, Finding.HasFix,
         AllLines, LinesDiffer, Descending, Join;
    GuessBasics(lines, colons, guess, working, full, r);
    GuessColon(lines, colons, guess, working, full, r, f);
    ColonSpan(lines, f);
    ConflictBlocks(|lines|, colons + [guess], f, guess);
    assert forall g :: g in applied <==> g in Applicable(|lines|, colons + [guess]);
    var fixed := OnlyColonsApplied(lines, colons, guess, applied, f);
    RewriteLines(lines, SetOf(applied));
    RepairedLineMoves(lines, colons, guess, working, full, r, f);
  }

  lemma SpanEnd(lines: seq<string>, colons: seq<Finding>, guess: Finding,
                working: seq<string>, full: seq<string>, r: Repair)
    requires IsGuessRun(lines, colons, guess, working, full, r)
    ensures 0 < r.end <= |lines|
    ensures SpanMisses(colons, r) ==>
      (full[r.end - 1] == "" <==> lines[r.end - 1] == "")
  {
    hide SplitLines, Join, AllLines, IsColonFinding, IsGuess, Reindented, Moved, Blank, LinesDiffer;
    EmptyEnd(lines, colons, guess, working, full, r);
  }

  lemma ApplicableInRange(size: nat, findings: seq<Finding>)
    ensures AllInRange(size, Applicable(size, findings))
  {
  }

  // ----- The theorem -----

  lemma GuessIsLeft(colons: seq<Finding>, guess: Finding, applied: seq<Finding>,
                    notApplied: seq<Finding>)
    requires guess !in applied
    requires multiset(applied) + multiset(notApplied) == multiset(colons + [guess])
    ensures notApplied != []
  {
    assert guess in multiset(colons + [guess]);
    assert guess !in multiset(applied);
    assert guess in multiset(notApplied);
  }

  lemma TextsDiffer(code: string, xs: seq<string>, ys: seq<string>)
    requires AllLines(xs) && AllLines(ys) && xs != [] && ys != [] && xs != ys
    ensures AsText(code, xs) != AsText(code, ys)
  {
    hide AsText, IsLine;
    if AsText(code, xs) == AsText(code, ys) {
      SameText(code, xs, ys);
    }
  }

  lemma GuessCases(code: string, lines: seq<string>, colons: seq<Finding>, guess: Finding,
                   working: seq<string>, full: seq<string>, r: Repair,
                   patched: string, applied: seq<Finding>, notApplied: seq<Finding>)
    requires lines == SplitLines(code) && IsGuessRun(lines, colons, guess, working, full, r)
    requires IsPatch(code, colons + [guess], patched, applied, notApplied)
    ensures 0 < r.end <= |lines|
    ensures patched == AsText(code, full)
      <==> SpanMisses(colons, r) && lines[r.end - 1] != ""
    ensures notApplied == [] <==> SpanMisses(colons, r)
  {
    hide SplitLines, Join, IsLine, Rewrite, Applicable, Reindented, Blank, EndsInColon,
         IsColonFinding, AsText, Descending;
    SpanEnd(lines, colons, guess, working, full, r);
    GuessBasics(lines, colons, guess, working, full, r);
    if SpanMisses(colons, r) {
      GuessApplies(lines, colons, guess, r);
      GuessDistinct(lines, colons, guess);
      NothingLeft(colons + [guess], applied, notApplied);
      if lines[r.end - 1] != "" {
        GuessOverlay(lines, colons, guess, working, full, r, applied);
        RewriteIsOverlay(lines, applied, full);
      } else {
        ApplicableInRange(|lines|, colons + [guess]);
        GuessLosesLine(lines, colons, guess, working, full, r, applied);
        RewriteLines(lines, SetOf(applied));
        TextsDiffer(code, Rewrite(lines, SetOf(applied)), full);
      }
    } else {
      var f :| f in colons && r.start <= f.line <= r.end;
      GuessConflicts(lines, colons, guess, working, full, r, applied, f);
      GuessIsLeft(colons, guess, applied, notApplied);
      TextsDiffer(code, Rewrite(lines, SetOf(applied)), full);
    }
  }

  /** Applying all findings of a run that ends on a guess gives exactly the lines that the parser
      accepted, if and only if the span of the guess holds none of the lines repaired before it
      and does not end in an empty line. All findings are applied exactly when the span holds
      none of those lines. */
  lemma PatchIsAcceptedExactlyWhen(parse: Parser, filename: string, code: string, cap: nat,
                                   findings: seq<Finding>, working: seq<string>, stop: Stop,
                                   patched: string, applied: seq<Finding>,
                                   notApplied: seq<Finding>)
    requires IsCollection(parse, filename, code, cap, findings, working, stop)
    requires IsPatch(code, findings, patched, applied, notApplied)
    requires stop.Reindent?
    ensures IsAcceptedReindent(parse, DropLastEmpty(working), stop.error, stop.repair)
    ensures findings != [] && 0 < stop.repair.end <= |SplitLines(code)|
    ensures var misses := SpanMisses(findings[..|findings| - 1], stop.repair);
      && (patched == AsText(code, AcceptedLines(working, stop.error, stop.repair))
          <==> misses && SplitLines(code)[stop.repair.end - 1] != "")
      && (notApplied == [] <==> misses)
  {
    hide *;
    var lines, n := SplitLines(code), |findings| - 1;
    GuessRun(parse, filename, code, cap, findings, working, stop);
    assert findings == findings[..n] + [findings[n]];
    GuessCases(code, lines, findings[..n], findings[n], working,
               AcceptedLines(working, stop.error, stop.repair), stop.repair,
               patched, applied, notApplied);
  }

  /** The condition of the theorem. */
  ghost predicate Replays(code: string, findings: seq<Finding>, stop: Stop) {
    var lines := SplitLines(code);
    && stop.Reindent? && stop.repair.Repair? && 0 < stop.repair.end <= |lines| && findings != []
    && SpanMisses(findings[..|findings| - 1], stop.repair) && lines[stop.repair.end - 1] != ""
  }

  /** The parser does not mind a newline at the end. */
  ghost predicate IgnoresNewline(parse: Parser) {
    forall t :: parse(t).Parses? ==> parse(t + "\n").Parses?
  }

  /** Patching puts the newline at the end of the file back, which the parser has not seen. So it
      accepts the patched text if there is none or it does not mind, and, after a guess, if there
      is no empty line at the end, which it has not seen either. */
  lemma PatchParses(parse: Parser, filename: string, code: string, cap: nat,
                    findings: seq<Finding>, working: seq<string>, stop: Stop,
                    patched: string, applied: seq<Finding>, notApplied: seq<Finding>)
    requires IsCollection(parse, filename, code, cap, findings, working, stop)
    requires IsPatch(code, findings, patched, applied, notApplied)
    requires EndsWithNewline(code) ==> IgnoresNewline(parse)
    ensures stop.Parsed? ==> parse(patched).Parses?
    ensures Replays(code, findings, stop) && DropLastEmpty(working) == working ==>
      parse(patched).Parses?
  {
    hide IsCollection, IsPatch, SpanMisses, SplitLines, Join, Candidate, Reindented;
    if stop.Reindent? {
      PatchIsAcceptedExactlyWhen(parse, filename, code, cap, findings, working, stop,
                                 patched, applied, notApplied);
      var moved := Candidate(DropLastEmpty(working), stop.error, stop.repair);
      if DropLastEmpty(working) == working {
        assert working[|working|..] == [] && moved + [] == moved;
        assert Join(moved) + "" == Join(moved);
      }
    } else {
      PatchIsWorkingCopy(parse, filename, code, cap, findings, working, stop,
                         patched, applied, notApplied);
      assert Join(working) + "" == Join(working);
    }
  }

  // ----- Reviewing the patched file -----

  lemma FirstStepFails(parse: Parser, filename: string, lines: seq<string>, fs: seq<Finding>)
    requires fs != [] && IsColonChain(parse, filename, lines, fs)
    ensures parse(Join(lines)).Fails?
  {
    hide Join, FindingFor, MissingColonFix;
    assert fs[..0] == [];
    assert IsColonStep(parse, filename, lines, fs, 0);
  }

  /** A parsing text has no findings. */
  lemma NothingToFind(parse: Parser, filename: string, code: string, cap: nat,
                      findings: seq<Finding>, working: seq<string>, stop: Stop)
    requires IsCollection(parse, filename, code, cap, findings, working, stop)
    requires cap > 0 && parse(Join(SplitLines(code))).Parses?
    ensures findings == [] && stop.Parsed?
  {
    hide Join, SplitLines, IsSyntaxFix, FindingFor, IsColonChain;
    var chain := findings[..ColonCount(findings, stop)];
    if chain != [] {
      FirstStepFails(parse, filename, SplitLines(code), chain);
    }
  }

  lemma TextReadsBack(code: string, lines: seq<string>)
    requires AllLines(lines) && (lines == [] ==> !EndsWithNewline(code))
    ensures SplitLines(AsText(code, lines))
      == if EndsWithNewline(code) then lines else DropLastEmpty(lines)
  {
    hide SplitLines, Join, AllLines, DropLastEmpty;
    if EndsWithNewline(code) {
      SplitTerminated(lines);
    } else {
      SplitJoin(lines);
      assert Join(lines) + "" == Join(lines);
    }
  }

  lemma NoLinesNoNewline(code: string)
    ensures SplitLines(code) == [] ==> !EndsWithNewline(code)
  {
    hide LineEnd, BreakWidth;
  }

  /** An empty last line makes no difference to what the parser sees of the patched file: there is
      none, or it is dropped on both sides, or on neither. */
  predicate SameEnd(code: string, working: seq<string>, stop: Stop) {
    DropLastEmpty(working) == working || EndsWithNewline(code) == stop.Parsed?
  }

  /** What the parser sees when the patched working copy is read again. */
  lemma WorkingCopyReadsBack(parse: Parser, filename: string, code: string, cap: nat,
                             findings: seq<Finding>, working: seq<string>, stop: Stop)
    requires IsCollection(parse, filename, code, cap, findings, working, stop)
    requires stop.Parsed? && SameEnd(code, working, stop)
    ensures SplitLines(AsText(code, working)) == working && parse(Join(working)).Parses?
  {
    hide IsColonChain, ColonFixed, SplitLines, Join, AsText, LinesDiffer, IsColonFinding, DropLastEmpty,
         EndsWithNewline, AllLines;
    assert findings[..|findings|] == findings;
    ChainRepairsOriginal(parse, filename, SplitLines(code), findings);
    NoLinesNoNewline(code);
    TextReadsBack(code, working);
  }

  /** The moved lines end in an empty one only if the file does. */
  lemma CandidateEnd(seen: seq<string>, moved: seq<string>, r: Repair)
    requires r.Repair? && 0 < r.start <= |seen|
    requires Reindented(seen, moved, r.start - 1, r.end, Offset(seen, r.start - 1, r.column))
    ensures |moved| == |seen| && (DropLastEmpty(seen) == seen ==> DropLastEmpty(moved) == moved)
  {
    hide Indent, Blank, Offset, Moved;
    EmptyStaysEmpty(seen, moved, r.start - 1, r.end, Offset(seen, r.start - 1, r.column), |seen| - 1);
  }

  /** The same for the lines that the parser accepted. */
  lemma AcceptedLinesReadBack(parse: Parser, filename: string, code: string, cap: nat,
                              findings: seq<Finding>, working: seq<string>, stop: Stop)
    requires IsCollection(parse, filename, code, cap, findings, working, stop)
    requires stop.Reindent? && SameEnd(code, working, stop)
    ensures stop.repair.Repair? && 0 < stop.repair.start <= |DropLastEmpty(working)|
    ensures SplitLines(AsText(code, AcceptedLines(working, stop.error, stop.repair)))
      == Candidate(DropLastEmpty(working), stop.error, stop.repair)
  {
    hide IsCollection, SplitLines, Join, AsText, Candidate, IsColonFinding, LinesDiffer, IsWorkingCopy,
         Reindented, EndsWithNewline, AllLines, IsGuess, Blank;
    GuessRun(parse, filename, code, cap, findings, working, stop);
    var seen, full := DropLastEmpty(working), AcceptedLines(working, stop.error, stop.repair);
    var moved := Candidate(seen, stop.error, stop.repair);
    TextReadsBack(code, full);
    CandidateEnd(seen, moved, stop.repair);
    if seen == working {
      assert working[|working|..] == [] && moved + [] == moved == full;
    } else {
      assert working[|seen|..] == [""] && full == moved + [""] && full[..|moved|] == moved;
    }
  }

  /** The patch holds for every parser and with or without a newline at the end: reviewing the
      patched file finds nothing any more. */
  lemma SecondReviewFindsNothing(parse: Parser, filename: string, code: string, cap: nat,
                                 findings: seq<Finding>, working: seq<string>, stop: Stop,
                                 patched: string, applied: seq<Finding>, notApplied: seq<Finding>,
                                 more: nat, again: seq<Finding>, left: seq<string>, end: Stop)
    requires IsCollection(parse, filename, code, cap, findings, working, stop)
    requires IsPatch(code, findings, patched, applied, notApplied)
    requires stop.Parsed? || Replays(code, findings, stop)
    requires SameEnd(code, working, stop)
    requires more > 0 && IsCollection(parse, filename, patched, more, again, left, end)
    ensures again == [] && end.Parsed?
  {
    hide IsCollection, IsPatch, SpanMisses, SplitLines, Join, AsText, AcceptedLines, SameEnd, Candidate,
         Reindented, Indent, Blank;
    if stop.Parsed? {
      PatchIsWorkingCopy(parse, filename, code, cap, findings, working, stop,
                         patched, applied, notApplied);
      WorkingCopyReadsBack(parse, filename, code, cap, findings, working, stop);
    } else {
      PatchIsAcceptedExactlyWhen(parse, filename, code, cap, findings, working, stop,
                                 patched, applied, notApplied);
      AcceptedLinesReadBack(parse, filename, code, cap, findings, working, stop);
    }
    NothingToFind(parse, filename, patched, more, again, left, end);
  }

  lemma FindingsFit(parse: Parser, filename: string, code: string, cap: nat,
                    findings: seq<Finding>, working: seq<string>, stop: Stop)
    requires IsCollection(parse, filename, code, cap, findings, working, stop)
    ensures |findings| <= cap && (stop.CapReached? ==> |findings| == cap)
  {
    hide IsColonChain, IsSyntaxFix, FindingFor, ColonFixed, Join, SplitLines;
    if stop.NoFix? || stop.Reindent? {
      OnlyTheLastIsAGuess(parse, filename, code, cap, findings, working, stop);
    }
  }

  /** The automatic path: collect the findings of a file that does not parse, and apply them. */
  method ReviewAndApply(parse: Parser, code: string, filename: string)
    returns (patched: string, applied: seq<Finding>, notApplied: seq<Finding>,
             ghost findings: seq<Finding>, ghost working: seq<string>, ghost stop: Stop)
    ensures IsCollection(parse, filename, code, MAX_SYNTAX_ERRORS, findings, working, stop)
    ensures IsPatch(code, findings, patched, applied, notApplied)
    ensures |findings| <= 25 && (stop.CapReached? ==> |findings| == 25)
    ensures !stop.Reindent? ==> patched == AsText(code, working)
    ensures stop.Parsed? ==> parse(Join(working)).Parses? && notApplied == []
    ensures stop.Reindent? ==>
      var seen := DropLastEmpty(working);
      && findings != [] && IsAcceptedReindent(parse, seen, stop.error, stop.repair)
      && stop.repair.end <= |SplitLines(code)|
      && var misses := SpanMisses(findings[..|findings| - 1], stop.repair);
      && (patched == AsText(code, AcceptedLines(working, stop.error, stop.repair))
          <==> misses && SplitLines(code)[stop.repair.end - 1] != "")
      && (notApplied == [] <==> misses)
  {
    hide IsCollection, IsPatch, IsAcceptedReindent, SpanMisses, SplitLines, AsText, AcceptedLines;
    var fs;
    fs, working, stop := CollectSyntaxErrors(parse, code, filename, MAX_SYNTAX_ERRORS);
    findings := fs;
    FindingsFit(parse, filename, code, MAX_SYNTAX_ERRORS, findings, working, stop);
    patched, applied, notApplied := ApplyFixes(code, fs);
    if stop.Reindent? {
      PatchIsAcceptedExactlyWhen(parse, filename, code, MAX_SYNTAX_ERRORS, findings, working, stop,
                                 patched, applied, notApplied);
    } else {
      PatchIsWorkingCopy(parse, filename, code, MAX_SYNTAX_ERRORS, findings, working, stop,
                         patched, applied, notApplied);
    }
  }
}
