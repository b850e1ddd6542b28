/** What a patch does to a file, in terms of its characters and line numbers. */
module PatchMeaning {
  import opened Text
  import opened Lists
  import opened Findings
  import opened Patcher
  import opened PatchProperties

  // ----- The newline at the end -----

  lemma JoinsToNothing(lines: seq<string>)
    requires lines != [] && Join(lines) == ""
    ensures lines == [""]
  {
  }

  /** Joined lines end in a newline only if the last one is empty. */
  lemma {:induction false} JoinEnds(lines: seq<string>)
    requires AllLines(lines)
    ensures var text := Join(lines);
      text != "" && text[|text| - 1] == '\n' <==> |lines| > 1 && lines[|lines| - 1] == ""
  {
    assert IsBreak('\n');
    hide IsBreak;
    if |lines| == 1 {
      assert IsLine(lines[0]);
    } else if |lines| > 1 {
      JoinEnds(lines[1..]);
      var rest := Join(lines[1..]);
      assert Join(lines) == lines[0] + "\n" + rest;
      if rest == "" {
        JoinsToNothing(lines[1..]);
      }
    }
  }

  /** The patched file ends in a newline if the file does, and otherwise only if it ends in an
      empty line. */
  lemma PatchKeepsNewline(code: string, findings: seq<Finding>,
                          patched: string, applied: seq<Finding>, notApplied: seq<Finding>)
    requires IsPatch(code, findings, patched, applied, notApplied)
    ensures var lines := Rewrite(SplitLines(code), SetOf(applied));
      patched != "" && patched[|patched| - 1] == '\n'
      <==> (code != "" && code[|code| - 1] == '\n') || (|lines| > 1 && lines[|lines| - 1] == "")
  {
    hide Applicable, Rewrite, SplitLines, Join, Descending, WithFix, AllLines;
    var lines := Rewrite(SplitLines(code), SetOf(applied));
    RewriteLines(SplitLines(code), SetOf(applied));
    JoinEnds(lines);
    assert patched == Join(lines) + if EndsWithNewline(code) then "\n" else "";
  }

  // ----- Which fixes are applied -----

  /** There is something to replace the lines with, or they are to be deleted. */
  ghost predicate Fixes(f: Finding) {
    f.fixIsDeletion || exists i :: 0 <= i < |f.fix| && !IsSpace(f.fix[i])
  }

  /** Line `n` is one of the finding's. */
  predicate OnLine(f: Finding, n: int) {
    n == f.line || f.line <= n <= f.endLine
  }

  lemma HasFixMeans(f: Finding)
    ensures f.HasFix() <==> Fixes(f)
  {
    hide LStrip, IsSpace;
    BlankIsAllSpace(f.fix);
  }

  lemma OverlapMeans(f: Finding, g: Finding)
    ensures Overlap(f, g) <==> exists n :: OnLine(f, n) && OnLine(g, n)
  {
    if Overlap(f, g) {
      var n := if f.line >= g.line then f.line else g.line;
      assert OnLine(f, n) && OnLine(g, n);
    }
  }

  /** All lines of the finding are lines of the file, and nothing else would fix one of them. */
  ghost predicate StandsAlone(size: nat, findings: seq<Finding>, f: Finding) {
    && multiset(findings)[f] == 1
    && 0 < f.line <= size && f.endLine <= size
    && forall g, n | g in findings && g != f && Fixes(g) && OnLine(g, n) :: !OnLine(f, n)
  }

  /** A finding is applied if and only if it has a fix or is a deletion, and stands alone. */
  lemma AppliedExactlyWhen(code: string, findings: seq<Finding>, patched: string,
                           applied: seq<Finding>, notApplied: seq<Finding>, f: Finding)
    requires IsPatch(code, findings, patched, applied, notApplied)
    ensures f in applied <==> Fixes(f) && StandsAlone(|SplitLines(code)|, findings, f)
  {
    hide Rewrite, SplitLines, AsText, Descending, WithFix, Fixes, Overlap, Finding.HasFix;
    var fixable := multiset(WithFix(findings, true));
    assert f in applied <==> f in SetOf(applied);
    forall g: Finding
      ensures g.HasFix() <==> Fixes(g)
      ensures g in fixable <==> g in findings && Fixes(g)
      ensures Overlap(f, g) <==> exists n :: OnLine(f, n) && OnLine(g, n)
    {
      HasFixMeans(g);
      WithFixCount(findings, true, g);
      assert g in multiset(findings) <==> g in findings;
      OverlapMeans(f, g);
    }
    WithFixCount(findings, true, f);
    assert f in fixable <==> fixable[f] > 0;
  }

  // ----- What becomes of the lines -----

  /** The fixes that start below line `n`. */
  ghost function Below(fixes: set<Finding>, n: nat): set<Finding> {
    set f | f in fixes && f.Start() > n
  }

  lemma PieceOfTop(lines: seq<string>, fixes: set<Finding>, k: nat, n: nat)
    requires 0 < n <= k <= |lines|
    ensures Piece(lines[..k], fixes, n) == Piece(lines, fixes, n)
  {
    hide Finding.End, SplitLines;
  }

  lemma PieceUnder(lines: seq<string>, fixes: set<Finding>, f: Finding, n: nat)
    requires Apart(fixes) && f in fixes && AllInRange(|lines|, fixes) && f.End() < n <= |lines|
    ensures Piece(lines, fixes, n) == Piece(lines, Below(fixes, f.End()), n)
  {
    hide SplitLines;
    var below := Below(fixes, f.End());
    assert forall g | g in fixes && g.Start() <= n <= g.End() :: g in below;
    assert Covered(fixes, n) <==> Covered(below, n);
    if g :| g in fixes && g.Start() == n {
      assert g in below;
      PieceAtStart(lines, fixes, g);
      PieceAtStart(lines, below, g);
    }
  }

  /** The lines of an applied finding are replaced by its fix, and the lines above and below become
      what the other fixes make of them. */
  lemma FixReplacesItsLines(lines: seq<string>, fixes: set<Finding>, f: Finding)
    requires Apart(fixes) && f in fixes && AllInRange(|lines|, fixes)
    ensures 0 < f.Start() <= f.End() <= |lines|
    ensures f.End() <= |Rewrite(lines, Below(fixes, f.End()))|
    ensures Rewrite(lines, fixes)
      == Rewrite(lines[..f.Start() - 1], fixes) + SplitLines(f.fix)
         + Rewrite(lines, Below(fixes, f.End()))[f.End()..]
  {
    hide Piece, Apart, SplitLines;
    assert InRange(|lines|, f);
    var lo, hi, below := f.Start() - 1, f.End(), Below(fixes, f.End());
    var all, top, low := Pieces(lines, fixes), Pieces(lines[..lo], fixes), Pieces(lines, below);
    FlattenThree(all, lo, hi);
    SpanPieces(lines, fixes, f);
    forall i | 0 <= i < lo ensures all[i] == top[i] {
      PieceOfTop(lines, fixes, lo, i + 1);
      assert all[i] == Piece(lines, fixes, i + 1) && top[i] == Piece(lines[..lo], fixes, i + 1);
    }
    assert all[..lo] == top;
    forall i | hi <= i < |lines| ensures all[i] == low[i] {
      PieceUnder(lines, fixes, f, i + 1);
      assert all[i] == Piece(lines, fixes, i + 1) && low[i] == Piece(lines, below, i + 1);
    }
    assert all[hi..] == low[hi..];
    Untouched(lines, below, hi);
    FlattenTwo(low, hi);
  }

  lemma ApplicableApart(size: nat, findings: seq<Finding>)
    ensures Apart(Applicable(size, findings)) && AllInRange(size, Applicable(size, findings))
  {
    hide WithFix, Overlap, Finding.HasFix;
  }

  /** A deletion takes exactly its own lines out. */
  lemma DeletionTakesItsLines(code: string, findings: seq<Finding>, patched: string,
                              applied: seq<Finding>, notApplied: seq<Finding>, f: Finding)
    requires IsPatch(code, findings, patched, applied, notApplied)
    requires f in findings && f.fixIsDeletion && f.fix == ""
    requires StandsAlone(|SplitLines(code)|, findings, f)
    ensures var lines, fixes := SplitLines(code), SetOf(applied);
      && f in applied
      && f.End() <= |lines| && f.End() <= |Rewrite(lines, Below(fixes, f.End()))|
      && Rewrite(lines, fixes)
         == Rewrite(lines[..f.line - 1], fixes) + Rewrite(lines, Below(fixes, f.End()))[f.End()..]
  {
    var lines, fixes := SplitLines(code), SetOf(applied);
    AppliedExactlyWhen(code, findings, patched, applied, notApplied, f);
    assert SplitLines(f.fix) == [];
    hide SplitLines, Rewrite, Below, StandsAlone, Piece, WithFix;
    assert f in fixes;
    ApplicableApart(|lines|, findings);
    FixReplacesItsLines(lines, fixes, f);
    var above := Rewrite(lines[..f.line - 1], fixes);
    assert above + [] == above;
  }

  lemma WholeRewrite(lines: seq<string>, fixes: set<Finding>)
    ensures Flatten(Pieces(lines, fixes)[..|lines|]) == Rewrite(lines, fixes)
  {
    hide Piece;
    assert Pieces(lines, fixes)[..|lines|] == Pieces(lines, fixes);
  }

  /** A single fix in a file: its lines are replaced, all others stay as they are. */
  lemma OnlyFix(lines: seq<string>, f: Finding)
    requires InRange(|lines|, f)
    ensures Rewrite(lines, {f}) == lines[..f.line - 1] + SplitLines(f.fix) + lines[f.End()..]
  {
    hide SplitLines, Piece;
    assert Below({f}, f.End()) == {};
    FixReplacesItsLines(lines, {f}, f);
    Untouched(lines[..f.line - 1], {f}, f.line - 1);
    WholeRewrite(lines[..f.line - 1], {f});
    NothingToRewrite(lines);
  }

  /** The text of a file after its only finding has been applied. */
  lemma PatchOfOne(code: string, f: Finding, patched: string,
                   applied: seq<Finding>, notApplied: seq<Finding>)
    requires IsPatch(code, [f], patched, applied, notApplied)
    requires Fixes(f) && 0 < f.line && f.line <= |SplitLines(code)| && f.endLine <= |SplitLines(code)|
    ensures var lines := SplitLines(code);
      patched == Join(lines[..f.line - 1] + SplitLines(f.fix) + lines[f.End()..])
                 + if code != "" && code[|code| - 1] == '\n' then "\n" else ""
  {
    var lines, fixes := SplitLines(code), SetOf(applied);
    hide SplitLines, Rewrite, Fixes, WithFix, Join, Descending, Finding.HasFix;
    assert fixes == {f} by {
      forall g ensures g in fixes <==> g == f {
        AppliedExactlyWhen(code, [f], patched, applied, notApplied, g);
        assert multiset([f])[f] == 1 && (g != f ==> multiset([f])[g] == 0);
      }
    }
    OnlyFix(lines, f);
  }
}
