/** What follows from `IsPatch` for every file and every list of findings. */
module PatchProperties {
  import opened Text
  import opened Findings
  import opened Lists
  import opened Patcher

  // ----- The order in which findings arrive does not matter -----

  lemma {:induction false} WithFixCount(findings: seq<Finding>, wanted: bool, f: Finding)
    ensures multiset(WithFix(findings, wanted))[f]
            == if f.HasFix() == wanted then multiset(findings)[f] else 0
  {
    if findings != [] {
      var head, rest := findings[0], findings[1..];
      WithFixCount(rest, wanted, f);
      assert findings == [head] + rest;
      hide Finding.HasFix;
      if head.HasFix() == wanted {
        assert WithFix(findings, wanted) == [head] + WithFix(rest, wanted);
      }
    }
  }

  lemma {:induction false} DescendingUnique(fs: seq<Finding>, gs: seq<Finding>)
    requires Descending(fs) && Descending(gs)
    requires forall f :: f in fs <==> f in gs
    ensures fs == gs
  {
    assert gs != [] ==> gs[0] in gs;
    if fs != [] {
      assert fs[0] in gs;
      assert gs[0] in fs;
      assert fs[0] == gs[0];
      assert fs == [fs[0]] + fs[1..] && gs == [gs[0]] + gs[1..];
      assert fs[0] !in fs[1..] && gs[0] !in gs[1..];
      assert forall f :: f in fs <==> f == fs[0] || f in fs[1..];
      assert forall f :: f in gs <==> f == gs[0] || f in gs[1..];
      DescendingUnique(fs[1..], gs[1..]);
    }
  }

  lemma SameFixable(findings: seq<Finding>, shuffled: seq<Finding>)
    requires multiset(findings) == multiset(shuffled)
    ensures multiset(WithFix(findings, true)) == multiset(WithFix(shuffled, true))
  {
    forall f
      ensures multiset(WithFix(findings, true))[f] == multiset(WithFix(shuffled, true))[f]
    {
      WithFixCount(findings, true, f);
      WithFixCount(shuffled, true, f);
    }
  }

  /** The patched text and the list of applied findings are the same for every order of the
      findings, and the findings that were not applied are the same up to order. */
  lemma OrderDoesNotMatter(code: string, findings: seq<Finding>, shuffled: seq<Finding>,
                           patched: string, applied: seq<Finding>, notApplied: seq<Finding>,
                           patched': string, applied': seq<Finding>, notApplied': seq<Finding>)
    requires multiset(findings) == multiset(shuffled)
    requires IsPatch(code, findings, patched, applied, notApplied)
    requires IsPatch(code, shuffled, patched', applied', notApplied')
    ensures patched == patched' && applied == applied'
    ensures multiset(notApplied) == multiset(notApplied')
  {
    SameFixable(findings, shuffled);
    var fixes := Applicable(|SplitLines(code)|, findings);
    assert forall f :: f in applied <==> f in fixes;
    assert forall f :: f in applied' <==> f in fixes;
    DescendingUnique(applied, applied');
    assert multiset(notApplied) == multiset(findings) - multiset(applied);
  }

  // ----- Length -----

  function Growth(applied: seq<Finding>): int {
    if applied == [] then 0
    else
      var f := applied[|applied| - 1];
      Growth(applied[..|applied| - 1]) + |SplitLines(f.fix)| - (f.End() - f.Start() + 1)
  }

  /** Each applied fix changes the number of lines by its own lines minus the size of its span. */
  lemma {:induction false} LengthChange(lines: seq<string>, applied: seq<Finding>)
    requires Descending(applied)
    requires AllInRange(|lines|, SetOf(applied))
    ensures |Rewrite(lines, SetOf(applied))| == |lines| + Growth(applied)
  {
    var fixes := SetOf(applied);
    if applied == [] {
      assert fixes == {};
      NothingToRewrite(lines);
    } else {
      var front, f := applied[..|applied| - 1], applied[|applied| - 1];
      var before := SetOf(front);
      assert applied == front + [f];
      assert fixes == before + {f};
      DescendingApart(applied, fixes);
      LengthChange(lines, front);
      SpliceIsRewrite(lines, before, f);
    }
  }

  // ----- Lines outside the applied spans -----

  /** Where original line `n` is found in the patched file, counted from 0. */
  ghost function NewIndex(lines: seq<string>, fixes: set<Finding>, n: nat): nat
    requires 0 < n <= |lines|
  {
    |Flatten(Pieces(lines, fixes)[..n - 1])|
  }

  lemma LineSurvives(lines: seq<string>, fixes: set<Finding>, n: nat)
    requires 0 < n <= |lines| && !Covered(fixes, n)
    ensures NewIndex(lines, fixes, n) < |Rewrite(lines, fixes)|
    ensures Rewrite(lines, fixes)[NewIndex(lines, fixes, n)] == lines[n - 1]
    ensures Pieces(lines, fixes)[n - 1] == [lines[n - 1]]
  {
    var pieces := Pieces(lines, fixes);
    PieceOutside(lines, fixes, n);
    assert pieces[n - 1] == Piece(lines, fixes, n);
    FlattenAround(pieces, n - 1);
  }

  /** A line outside all spans survives, once (later lines land strictly later) and in order. */
  lemma SurvivorsKeepOrder(lines: seq<string>, fixes: set<Finding>, n: nat, m: nat)
    requires 0 < n < m <= |lines| && !Covered(fixes, n) && !Covered(fixes, m)
    ensures NewIndex(lines, fixes, n) < NewIndex(lines, fixes, m) < |Rewrite(lines, fixes)|
    ensures Rewrite(lines, fixes)[NewIndex(lines, fixes, n)] == lines[n - 1]
    ensures Rewrite(lines, fixes)[NewIndex(lines, fixes, m)] == lines[m - 1]
  {
    hide Flatten, Rewrite, Piece, Covered;
    var pieces := Pieces(lines, fixes);
    LineSurvives(lines, fixes, n);
    LineSurvives(lines, fixes, m);
    FlattenPrefix(pieces, n - 1, m - 1);
  }

  // ----- Fixes that keep the number of lines -----

  /** `target` has every fix in place of its span, and the lines outside all spans. */
  ghost predicate IsOverlay(lines: seq<string>, applied: seq<Finding>, target: seq<string>) {
    && |target| == |lines|
    && (forall f | f in applied :: InRange(|lines|, f)
          && SplitLines(f.fix) == target[f.Start() - 1..f.End()])
    && (forall n | 0 < n <= |lines| && !Covered(SetOf(applied), n) ::
          target[n - 1] == lines[n - 1])
  }

  lemma NoOverlay(lines: seq<string>, target: seq<string>)
    requires IsOverlay(lines, [], target)
    ensures Rewrite(lines, SetOf([])) == target
  {
    assert SetOf<Finding>([]) == {};
    NothingToRewrite(lines);
    forall k | 0 <= k < |lines| ensures target[k] == lines[k] {
      assert !Covered({}, k + 1);
    }
    assert target == lines;
  }

  lemma InOverlay(lines: seq<string>, applied: seq<Finding>, target: seq<string>, f: Finding)
    requires IsOverlay(lines, applied, target) && f in applied
    ensures |target| == |lines| && InRange(|lines|, f)
    ensures SplitLines(f.fix) == target[f.Start() - 1..f.End()]
  {
  }

  lemma OverlaySplice(lines: seq<string>, target: seq<string>, below: seq<string>, lo: nat, hi: nat)
    requires lo <= hi <= |lines| == |target|
    requires below == lines[..hi] + target[hi..] && target[..lo] == lines[..lo]
    ensures below[..lo] + target[lo..hi] + below[hi..] == target
  {
    assert below[..lo] == target[..lo] && below[hi..] == target[hi..];
    assert target == target[..lo] + target[lo..hi] + target[hi..];
  }

  lemma OverlayBelow(lines: seq<string>, front: seq<Finding>, f: Finding, target: seq<string>,
                     below: seq<string>)
    requires IsOverlay(lines, front + [f], target)
    requires forall g | g in front :: f.End() < g.Start()
    requires f.End() <= |lines| && below == lines[..f.End()] + target[f.End()..]
    ensures IsOverlay(lines, front, below)
  {
    hide SplitLines;
    var all := front + [f];
    forall g | g in front
      ensures InRange(|lines|, g) && SplitLines(g.fix) == below[g.Start() - 1..g.End()]
    {
      assert g in all;
      assert below[g.Start() - 1..g.End()] == target[g.Start() - 1..g.End()];
    }
    forall n | 0 < n <= |lines| && !Covered(SetOf(front), n) ensures below[n - 1] == lines[n - 1] {
      if f.End() < n {
        assert !Covered(SetOf(all), n);
      }
    }
  }

  /** The fix nearest the top of the file, on top of an overlay of the others. */
  lemma TopmostFix(lines: seq<string>, front: seq<Finding>, f: Finding, target: seq<string>,
                   below: seq<string>)
    requires Descending(front + [f]) && IsOverlay(lines, front + [f], target)
    requires f.End() <= |lines| && below == lines[..f.End()] + target[f.End()..]
    ensures Descending(front) && IsOverlay(lines, front, below)
    ensures target[..f.Start() - 1] == lines[..f.Start() - 1]
    ensures Apart(SetOf(front) + {f}) && AllInRange(|lines|, SetOf(front) + {f})
    ensures forall g | g in front :: f.End() < g.Start()
  {
    hide SplitLines;
    var all := front + [f];
    AllBelow(front, f);
    DescendingApart(all, SetOf(front) + {f});
    assert forall g :: g in all <==> g in front || g == f;
    OverlayBelow(lines, front, f, target, below);
    forall k | 0 <= k < f.Start() - 1 ensures target[k] == lines[k] {
      assert !Covered(SetOf(all), k + 1);
    }
  }

  /** When every fix has as many lines as its span, patching is overwriting. */
  lemma {:induction false} RewriteIsOverlay(lines: seq<string>, applied: seq<Finding>,
                                            target: seq<string>)
    requires Descending(applied) && IsOverlay(lines, applied, target)
    ensures Rewrite(lines, SetOf(applied)) == target
  {
    hide IsOverlay, Rewrite, Descending, Apart, AllInRange;
    if applied == [] {
      NoOverlay(lines, target);
    } else {
      var n := |applied| - 1;
      var front, f := applied[..n], applied[n];
      assert applied == front + [f];
      InOverlay(lines, applied, target, f);
      var below := lines[..f.End()] + target[f.End()..];
      TopmostFix(lines, front, f, target, below);
      RewriteIsOverlay(lines, front, below);
      assert SetOf(applied) == SetOf(front) + {f};
      SpliceIsRewrite(lines, SetOf(front), f);
      OverlaySplice(lines, target, below, f.Start() - 1, f.End());
    }
  }

  // ----- Lines stay lines -----

  lemma {:induction false} FlattenLines(parts: seq<seq<string>>)
    requires forall i | 0 <= i < |parts| :: AllLines(parts[i])
    ensures AllLines(Flatten(parts))
  {
    hide IsLine;
    if parts != [] {
      FlattenLines(parts[..|parts| - 1]);
    }
  }

  lemma RewriteLines(lines: seq<string>, fixes: set<Finding>)
    requires AllLines(lines)
    ensures AllLines(Rewrite(lines, fixes))
  {
    hide IsLine, SplitLines, Covered;
    forall i | 0 <= i < |lines| ensures AllLines(Pieces(lines, fixes)[i]) {
      assert AllLines(Piece(lines, fixes, i + 1));
    }
    FlattenLines(Pieces(lines, fixes));
  }

  /** Texts made of lines agree only when the lines do. */
  lemma SameText(code: string, xs: seq<string>, ys: seq<string>)
    requires AllLines(xs) && AllLines(ys) && xs != [] && ys != []
    requires AsText(code, xs) == AsText(code, ys)
    ensures xs == ys
  {
    hide Join;
    var n := if EndsWithNewline(code) then 1 else 0;
    assert Join(xs) == AsText(code, xs)[..|AsText(code, xs)| - n];
    assert Join(ys) == AsText(code, ys)[..|AsText(code, ys)| - n];
    JoinInjective(xs, ys);
  }

  /** When one fix alone changes the number of lines, the file changes by as much. */
  lemma {:induction false} GrowthOfOne(applied: seq<Finding>, odd: Finding)
    requires Descending(applied)
    requires forall f | f in applied && f != odd :: |SplitLines(f.fix)| == f.End() - f.Start() + 1
    ensures Growth(applied)
      == if odd in applied then |SplitLines(odd.fix)| - (odd.End() - odd.Start() + 1) else 0
  {
    hide SplitLines, Descending;
    if applied != [] {
      var n := |applied| - 1;
      var front, f := applied[..n], applied[n];
      assert applied == front + [f];
      AllBelow(front, f);
      assert forall g :: g in applied <==> g in front || g == f;
      assert f !in front;
      GrowthOfOne(front, odd);
    }
  }
}
