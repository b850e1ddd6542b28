/** Applying the fixes of several findings to one file, `apply_fixes_to_file`. */
module Patcher {
  import opened Text
  import opened Findings
  import opened Lists

  // ----- Specification: which fixes are applied, and what they do to the file -----

  /** The closed line ranges of the two findings meet. */
  predicate Overlap(f: Finding, g: Finding) {
    f.Start() <= g.End() && g.Start() <= f.End()
  }

  function WithFix(findings: seq<Finding>, wanted: bool): seq<Finding> {
    if findings == [] then []
    else if findings[0].HasFix() == wanted then [findings[0]] + WithFix(findings[1..], wanted)
    else WithFix(findings[1..], wanted)
  }

  /** `f` occurs once among `fixable` and no other finding's range meets its range. */
  ghost predicate Alone(fixable: multiset<Finding>, f: Finding) {
    fixable[f] == 1 && forall g | g in fixable && g != f :: !Overlap(f, g)
  }

  predicate InRange(size: nat, f: Finding) {
    0 < f.Start() && f.End() <= size
  }

  ghost function Loners(fixable: multiset<Finding>): set<Finding> {
    set f | f in fixable && Alone(fixable, f)
  }

  /** The findings whose fix is applied; this does not mention the order they came in. */
  ghost function Applicable(size: nat, findings: seq<Finding>): set<Finding> {
    set f | f in Loners(multiset(WithFix(findings, true))) && InRange(size, f)
  }

  ghost predicate Apart(fixes: set<Finding>) {
    forall f, g | f in fixes && g in fixes && f != g :: !Overlap(f, g)
  }

  ghost predicate Covered(fixes: set<Finding>, n: nat) {
    exists f :: f in fixes && f.Start() <= n <= f.End()
  }

  /** What stands in place of original line `n` once all `fixes` are applied at the same time. */
  ghost function Piece(lines: seq<string>, fixes: set<Finding>, n: nat): seq<string>
    requires 0 < n <= |lines|
  {
    if exists f :: f in fixes && f.Start() == n then
      var f :| f in fixes && f.Start() == n;
      SplitLines(f.fix)
    else if Covered(fixes, n) then []
    else [lines[n - 1]]
  }

  /** What stands in place of each original line. */
  ghost function Pieces(lines: seq<string>, fixes: set<Finding>): (pieces: seq<seq<string>>)
    ensures |pieces| == |lines|
    ensures forall i | 0 <= i < |lines| :: pieces[i] == Piece(lines, fixes, i + 1)
  {
    seq(|lines|, i requires 0 <= i < |lines| => Piece(lines, fixes, i + 1))
  }

  /** Simultaneous substitution against the original line numbers. */
  ghost function Rewrite(lines: seq<string>, fixes: set<Finding>): seq<string> {
    Flatten(Pieces(lines, fixes))
  }

  /** A file's text from its lines; the newline at the end of the original `code` is kept. */
  function AsText(code: string, lines: seq<string>): string {
    Join(lines) + if EndsWithNewline(code) then "\n" else ""
  }

  /** From the bottom of the file to the top. */
  ghost predicate Descending(fs: seq<Finding>) {
    forall i, j | 0 <= i < j < |fs| :: fs[j].End() < fs[i].Start()
  }

  ghost predicate IsPatch(code: string, findings: seq<Finding>,
                          patched: string, applied: seq<Finding>, notApplied: seq<Finding>)
  {
    var lines := SplitLines(code);
    var fixes := Applicable(|lines|, findings);
    && patched == AsText(code, Rewrite(lines, fixes))
    && Descending(applied)
    && SetOf(applied) == fixes
    && multiset(applied) + multiset(notApplied) == multiset(findings)
    && WithFix(findings, false) <= notApplied
  }

  // ----- The two sort orders -----

  /** The order of the tuples `(start, end)`. */
  predicate SpanLeq(f: Finding, g: Finding) {
    f.Start() < g.Start() || (f.Start() == g.Start() && f.End() <= g.End())
  }

  /** Descending start: `key=start, reverse=True`. */
  predicate BottomUp(f: Finding, g: Finding) {
    f.Start() >= g.Start()
  }

  // ----- The sweep -----

  /** Some earlier member ends no sooner than member `p` starts. */
  ghost predicate Linked(group: seq<Finding>, p: nat)
    requires p < |group|
  {
    exists q | 0 <= q < p :: group[p].Start() <= group[q].End()
  }

  ghost predicate Chained(group: seq<Finding>) {
    group != [] && forall p | 0 < p < |group| :: Linked(group, p)
  }

  /** Everything in an earlier group ends before anything in a later one starts. */
  ghost predicate Separated(groups: seq<seq<Finding>>) {
    forall a, b, f, g | 0 <= a < b < |groups| && f in groups[a] && g in groups[b] ::
      f.End() < g.Start()
  }

  ghost predicate AreGroups(groups: seq<seq<Finding>>) {
    && (forall a | 0 <= a < |groups| :: Chained(groups[a]))
    && Separated(groups)
  }

  ghost predicate Reaches(group: seq<Finding>, end: int) {
    exists q :: 0 <= q < |group| && group[q].End() == end
  }

  /** The state of the sweep after the findings `done`. */
  ghost predicate Swept(groups: seq<seq<Finding>>, done: seq<Finding>, groupEnd: int) {
    && AreGroups(groups)
    && Flatten(groups) == done
    && (forall f | f in done :: f.End() <= groupEnd)
    && (groups != [] ==> Reaches(groups[|groups| - 1], groupEnd))
  }

  lemma NoneAfter(ordered: seq<Finding>, k: nat)
    requires k < |ordered| && SortedBy(SpanLeq, ordered)
    ensures forall g | g in ordered[..k] :: SpanLeq(g, ordered[k])
  {
  }

  lemma AppendGroup(groups: seq<seq<Finding>>, group: seq<Finding>)
    requires AreGroups(groups) && Chained(group)
    requires forall e, g | e in Flatten(groups) && g in group :: e.End() < g.Start()
    ensures AreGroups(groups + [group])
  {
    var more := groups + [group];
    forall a, b, e: Finding, g: Finding | 0 <= a < b < |more| && e in more[a] && g in more[b]
      ensures e.End() < g.Start()
    {
      if b == |groups| {
        InFlatten(groups, a, e);
      }
    }
  }

  lemma StartGroup(groups: seq<seq<Finding>>, done: seq<Finding>, groupEnd: int, f: Finding)
    requires Swept(groups, done, groupEnd)
    requires groups == [] || groupEnd < f.Start()
    ensures Swept(groups + [[f]], done + [f], f.End())
  {
    assert Reaches([f], f.End()) by { assert [f][0].End() == f.End(); }
    AppendGroup(groups, [f]);
    FlattenSnoc(groups, [f]);
  }

  lemma GrowChain(group: seq<Finding>, f: Finding, groupEnd: int)
    requires Chained(group) && Reaches(group, groupEnd) && f.Start() <= groupEnd
    ensures Chained(group + [f])
    ensures Reaches(group + [f], if groupEnd >= f.End() then groupEnd else f.End())
  {
    var grown := group + [f];
    var w :| 0 <= w < |group| && group[w].End() == groupEnd;
    assert grown[w] == group[w] && grown[|group|] == f;
    forall p | 0 < p < |grown| ensures Linked(grown, p) {
      if p < |group| {
        assert Linked(group, p);
        var q :| 0 <= q < p && group[p].Start() <= group[q].End();
        assert grown[q] == group[q];
      }
    }
  }

  /** A finding that starts no sooner than the last group is apart from the groups before it. */
  lemma FrontEndsBefore(front: seq<seq<Finding>>, group: seq<Finding>, f: Finding)
    requires Separated(front + [group]) && group != [] && SpanLeq(group[0], f)
    ensures forall e, g | e in Flatten(front) && g in group + [f] :: e.End() < g.Start()
  {
    var groups := front + [group];
    forall e, g | e in Flatten(front) && g in group + [f] ensures e.End() < g.Start() {
      var a := PartOf(front, e);
      assert e in groups[a] && group[0] in groups[|front|];
    }
  }

  lemma GrowLast(front: seq<seq<Finding>>, group: seq<Finding>, done: seq<Finding>,
                 groupEnd: int, f: Finding)
    requires Swept(front + [group], done, groupEnd)
    requires forall g | g in done :: SpanLeq(g, f)
    requires f.Start() <= groupEnd
    ensures Swept(front + [group + [f]], done + [f],
                  if groupEnd >= f.End() then groupEnd else f.End())
  {
    var groups := front + [group];
    assert groups[|front|] == group && groups[..|front|] == front;
    FlattenSnoc(front, group);
    FlattenSnoc(front, group + [f]);
    GrowChain(group, f, groupEnd);
    assert group[0] in done;
    FrontEndsBefore(front, group, f);
    assert AreGroups(front) by {
      assert forall a | 0 <= a < |front| :: front[a] == groups[a];
    }
    AppendGroup(front, group + [f]);
  }

  lemma GrowAt(groups: seq<seq<Finding>>, done: seq<Finding>, groupEnd: int, f: Finding)
    requires Swept(groups, done, groupEnd) && groups != []
    requires forall g | g in done :: SpanLeq(g, f)
    requires f.Start() <= groupEnd
    ensures Swept(groups[|groups| - 1 := groups[|groups| - 1] + [f]], done + [f],
                  if groupEnd >= f.End() then groupEnd else f.End())
  {
    var last := |groups| - 1;
    assert groups == groups[..last] + [groups[last]];
    GrowLast(groups[..last], groups[last], done, groupEnd, f);
    assert groups[last := groups[last] + [f]] == groups[..last] + [groups[last] + [f]];
  }

  method GroupOverlapping(ordered: seq<Finding>) returns (groups: seq<seq<Finding>>)
    requires SortedBy(SpanLeq, ordered)
    ensures AreGroups(groups) && Flatten(groups) == ordered
  {
    groups := [];
    var groupEnd: int := -1;
    for k := 0 to |ordered|
      invariant Swept(groups, ordered[..k], groupEnd)
    {
      var f := ordered[k];
      assert ordered[..k + 1] == ordered[..k] + [f];
      NoneAfter(ordered, k);
      if groups != [] && f.Start() <= groupEnd {
        var last := |groups| - 1;
        GrowAt(groups, ordered[..k], groupEnd, f);
        groups := groups[last := groups[last] + [f]];
        groupEnd := if groupEnd >= f.End() then groupEnd else f.End();
      } else {
        StartGroup(groups, ordered[..k], groupEnd, f);
        groups := groups + [[f]];
        groupEnd := f.End();
      }
    }
    assert ordered[..|ordered|] == ordered;
  }

  lemma InOneGroup(groups: seq<seq<Finding>>, a: nat, b: nat, f: Finding)
    requires Separated(groups)
    requires a < |groups| && b < |groups| && f in groups[a] && f in groups[b]
    ensures a == b
  {
    assert f.Start() <= f.End();
  }

  /** A finding of group `a` occurs there as often as anywhere. */
  lemma {:induction false} CountInGroups(groups: seq<seq<Finding>>, a: nat, f: Finding)
    requires Separated(groups)
    requires a < |groups| && f in groups[a]
    ensures multiset(Flatten(groups))[f] == multiset(groups[a])[f] > 0
  {
    var last := |groups| - 1;
    var front := groups[..last];
    if a < last {
      assert f !in groups[last] by {
        if f in groups[last] { InOneGroup(groups, a, last, f); }
      }
      CountInGroups(front, a, f);
    } else if f in Flatten(front) {
      var b := PartOf(front, f);
      InOneGroup(groups, a, b, f);
    }
  }

  lemma SingletonIsAlone(groups: seq<seq<Finding>>, a: nat, f: Finding)
    requires AreGroups(groups) && a < |groups| && groups[a] == [f]
    ensures Alone(multiset(Flatten(groups)), f)
  {
    CountInGroups(groups, a, f);
    forall g | g in multiset(Flatten(groups)) && g != f ensures !Overlap(f, g) {
      var b := PartOf(groups, g);
      assert b != a && f in groups[a];
    }
  }

  /** In a larger group every member meets another one. */
  lemma MeetsAnother(group: seq<Finding>, f: Finding) returns (q: nat)
    requires Chained(group) && SortedBy(SpanLeq, group)
    requires |group| > 1 && f in group
    ensures q < |group| && Overlap(f, group[q])
    ensures f == group[q] ==> multiset(group)[f] >= 2
  {
    var p :| 0 <= p < |group| && group[p] == f;
    if p > 0 {
      assert Linked(group, p);
      q :| 0 <= q < p && group[p].Start() <= group[q].End();
      TwoPlaces(group, q, p);
    } else {
      q := 1;
      assert Linked(group, 1);
      var z :| 0 <= z < 1 && group[1].Start() <= group[z].End();
      TwoPlaces(group, p, q);
    }
  }

  /** The sweep is exact: a group of one is a finding that no other one meets. */
  lemma SingletonsAreAlone(groups: seq<seq<Finding>>, a: nat, f: Finding)
    requires AreGroups(groups) && a < |groups| && f in groups[a]
    requires SortedBy(SpanLeq, groups[a])
    ensures |groups[a]| == 1 <==> Alone(multiset(Flatten(groups)), f)
  {
    CountInGroups(groups, a, f);
    if |groups[a]| == 1 {
      SingletonIsAlone(groups, a, f);
    } else {
      var q := MeetsAnother(groups[a], f);
      CountInGroups(groups, a, groups[a][q]);
    }
  }

  /** The members of the first `n` groups, sifted into loners and conflicts. */
  ghost predicate Sifted(groups: seq<seq<Finding>>, n: nat,
                         single: seq<Finding>, conflicted: seq<Finding>)
    requires n <= |groups|
  {
    && multiset(single) + multiset(conflicted) == multiset(Flatten(groups[..n]))
    && (forall f | f in single :: Alone(multiset(Flatten(groups)), f))
    && (forall f | f in conflicted :: !Alone(multiset(Flatten(groups)), f))
  }

  lemma SiftGroup(groups: seq<seq<Finding>>, a: nat,
                  single: seq<Finding>, conflicted: seq<Finding>)
    requires AreGroups(groups) && a < |groups| && SortedBy(SpanLeq, groups[a])
    requires Sifted(groups, a, single, conflicted)
    ensures if |groups[a]| == 1 then Sifted(groups, a + 1, single + [groups[a][0]], conflicted)
            else Sifted(groups, a + 1, single, conflicted + groups[a])
  {
    var group := groups[a];
    assert groups[..a + 1] == groups[..a] + [group];
    FlattenSnoc(groups[..a], group);
    forall f | f in group
      ensures |group| == 1 <==> Alone(multiset(Flatten(groups)), f)
    {
      SingletonsAreAlone(groups, a, f);
    }
    if |group| == 1 {
      assert group == [group[0]];
    }
  }

  lemma LonersFromParts(all: multiset<Finding>, single: seq<Finding>, conflicted: seq<Finding>)
    requires multiset(single) + multiset(conflicted) == all
    requires forall f | f in single :: Alone(all, f)
    requires forall f | f in conflicted :: !Alone(all, f)
    ensures multiset(single) == multiset(Loners(all))
  {
    var s, c, loners := multiset(single), multiset(conflicted), multiset(Loners(all));
    forall f ensures s[f] == loners[f] {
      assert f in s ==> f in single;
      assert f in c ==> f in conflicted;
    }
  }

  /** Groups of one are kept; every member of a larger group is a conflict. */
  method SplitGroups(groups: seq<seq<Finding>>)
    returns (single: seq<Finding>, conflicted: seq<Finding>)
    requires AreGroups(groups)
    requires forall a | 0 <= a < |groups| :: SortedBy(SpanLeq, groups[a])
    ensures multiset(single) + multiset(conflicted) == multiset(Flatten(groups))
    ensures multiset(single) == multiset(Loners(multiset(Flatten(groups))))
  {
    single, conflicted := [], [];
    for a := 0 to |groups|
      invariant Sifted(groups, a, single, conflicted)
    {
      SiftGroup(groups, a, single, conflicted);
      if |groups[a]| == 1 {
        single := single + [groups[a][0]];
      } else {
        conflicted := conflicted + groups[a];
      }
    }
    assert groups[..|groups|] == groups;
    LonersFromParts(multiset(Flatten(groups)), single, conflicted);
  }

  // ----- Simultaneous substitution -----

  ghost predicate AllInRange(size: nat, fixes: set<Finding>) {
    forall f | f in fixes :: InRange(size, f)
  }

  lemma PieceAtStart(lines: seq<string>, fixes: set<Finding>, f: Finding)
    requires Apart(fixes) && f in fixes && InRange(|lines|, f)
    ensures Piece(lines, fixes, f.Start()) == SplitLines(f.fix)
  {
    forall g | g in fixes && g.Start() == f.Start() ensures g == f {
      if g != f { assert Overlap(f, g); }
    }
  }

  lemma PieceInside(lines: seq<string>, fixes: set<Finding>, f: Finding, n: nat)
    requires Apart(fixes) && f in fixes && InRange(|lines|, f)
    requires f.Start() < n <= f.End()
    ensures Piece(lines, fixes, n) == []
  {
    assert forall g | g in fixes :: g == f || !Overlap(f, g);
    assert Covered(fixes, n);
  }

  lemma PieceOutside(lines: seq<string>, fixes: set<Finding>, n: nat)
    requires 0 < n <= |lines| && !Covered(fixes, n)
    ensures Piece(lines, fixes, n) == [lines[n - 1]]
  {
    assert forall f | f in fixes && f.Start() == n :: f.Start() <= n <= f.End();
  }

  /** A fix above line `n` makes no difference to line `n`. */
  lemma PieceBelow(lines: seq<string>, fixes: set<Finding>, f: Finding, n: nat)
    requires Apart(fixes + {f}) && AllInRange(|lines|, fixes + {f})
    requires f.End() < n <= |lines|
    ensures Piece(lines, fixes + {f}, n) == Piece(lines, fixes, n)
  {
    if g :| g in fixes && g.Start() == n {
      PieceAtStart(lines, fixes, g);
      PieceAtStart(lines, fixes + {f}, g);
    } else {
      assert Covered(fixes + {f}, n) <==> Covered(fixes, n);
    }
  }

  lemma PiecesBelow(lines: seq<string>, fixes: set<Finding>, f: Finding)
    requires Apart(fixes + {f}) && AllInRange(|lines|, fixes + {f})
    ensures Pieces(lines, fixes)[f.End()..] == Pieces(lines, fixes + {f})[f.End()..]
  {
    hide Piece, Apart, Covered;
    var was, now := Pieces(lines, fixes), Pieces(lines, fixes + {f});
    forall i | f.End() <= i < |lines| ensures was[i] == now[i] {
      PieceBelow(lines, fixes, f, i + 1);
      assert was[i] == Piece(lines, fixes, i + 1);
      assert now[i] == Piece(lines, fixes + {f}, i + 1);
    }
  }

  lemma Untouched(lines: seq<string>, fixes: set<Finding>, b: nat)
    requires b <= |lines| && forall f | f in fixes :: b < f.Start()
    ensures Flatten(Pieces(lines, fixes)[..b]) == lines[..b]
  {
    forall i | 0 <= i < b ensures Pieces(lines, fixes)[i] == [lines[i]] {
      PieceOutside(lines, fixes, i + 1);
    }
    FlattenSingles(Pieces(lines, fixes)[..b], lines[..b]);
  }

  lemma InsidePieces(lines: seq<string>, fixes: set<Finding>, f: Finding)
    requires Apart(fixes) && f in fixes && InRange(|lines|, f)
    ensures forall i | f.Start() <= i < f.End() :: Pieces(lines, fixes)[i] == []
  {
    hide Piece, Apart, Finding.HasFix;
    forall i | f.Start() <= i < f.End() ensures Pieces(lines, fixes)[i] == [] {
      PieceInside(lines, fixes, f, i + 1);
      assert Pieces(lines, fixes)[i] == Piece(lines, fixes, i + 1);
    }
  }

  /** The pieces of the lines in the span of `f`. */
  lemma SpanPieces(lines: seq<string>, fixes: set<Finding>, f: Finding)
    requires Apart(fixes) && f in fixes && InRange(|lines|, f)
    ensures Flatten(Pieces(lines, fixes)[f.Start() - 1..f.End()]) == SplitLines(f.fix)
  {
    hide Piece, Apart, SplitLines;
    PieceAtStart(lines, fixes, f);
    InsidePieces(lines, fixes, f);
    var pieces, lo := Pieces(lines, fixes), f.Start() - 1;
    assert pieces[lo] == Piece(lines, fixes, lo + 1);
    FlattenHead(pieces[lo..f.End()]);
  }

  /** One more fix above all the others is one slice assignment on the lines patched so far. */
  lemma SpliceIsRewrite(lines: seq<string>, fixes: set<Finding>, f: Finding)
    requires Apart(fixes + {f}) && AllInRange(|lines|, fixes + {f})
    requires forall g | g in fixes :: f.End() < g.Start()
    ensures var patched := Rewrite(lines, fixes);
      && f.End() <= |patched|
      && Rewrite(lines, fixes + {f})
         == patched[..f.Start() - 1] + SplitLines(f.fix) + patched[f.End()..]
  {
    var lo, hi := f.Start() - 1, f.End();
    var was, now := Pieces(lines, fixes), Pieces(lines, fixes + {f});
    FlattenTwo(was, hi);
    FlattenThree(now, lo, hi);
    Untouched(lines, fixes, hi);
    Untouched(lines, fixes + {f}, lo);
    SpanPieces(lines, fixes + {f}, f);
    PiecesBelow(lines, fixes, f);
    SliceAssign(lines, lo, hi, SplitLines(f.fix), Flatten(was[hi..]), Flatten(was));
  }

  lemma NothingToRewrite(lines: seq<string>)
    ensures Rewrite(lines, {}) == lines
  {
    Untouched(lines, {}, |lines|);
    assert Pieces(lines, {})[..|lines|] == Pieces(lines, {});
  }

  /** The bounds test on the patched lines gives the same answer as on the original ones. */
  lemma BoundsStayExact(lines: seq<string>, fixes: set<Finding>, f: Finding)
    requires AllInRange(|lines|, fixes)
    requires forall g | g in fixes :: f.End() < g.Start()
    ensures InRange(|lines|, f)
      <==> 0 < f.Start() <= |Rewrite(lines, fixes)| && f.End() <= |Rewrite(lines, fixes)|
  {
    if fixes == {} {
      NothingToRewrite(lines);
    } else {
      var g :| g in fixes;
      FlattenTwo(Pieces(lines, fixes), f.End());
      Untouched(lines, fixes, f.End());
    }
  }

  // ----- The whole operation -----

  lemma {:induction false} WithFixSplits(findings: seq<Finding>)
    ensures multiset(WithFix(findings, true)) + multiset(WithFix(findings, false))
            == multiset(findings)
  {
    if findings != [] {
      WithFixSplits(findings[1..]);
      assert findings == [findings[0]] + findings[1..];
    }
  }

  lemma {:induction false} GroupsSorted(groups: seq<seq<Finding>>, a: nat)
    requires SortedBy(SpanLeq, Flatten(groups)) && a < |groups|
    ensures SortedBy(SpanLeq, groups[a])
  {
    var front, last := groups[..|groups| - 1], groups[|groups| - 1];
    var all, n := Flatten(groups), |Flatten(front)|;
    if a < |front| {
      assert forall i | 0 <= i < n :: all[i] == Flatten(front)[i];
      GroupsSorted(front, a);
    } else {
      assert forall i | 0 <= i < |last| :: all[n + i] == last[i];
      forall i, j | 0 <= i < j < |last| ensures SpanLeq(last[i], last[j]) {
        assert SpanLeq(all[n + i], all[n + j]);
      }
    }
  }

  /** Loners sorted by descending start do not meet, and each one lies above the one before. */
  lemma BottomUpDescends(all: multiset<Finding>, single: seq<Finding>)
    requires multiset(single) == multiset(Loners(all)) && SortedBy(BottomUp, single)
    ensures Descending(single)
    ensures forall i, j | 0 <= i < j < |single| :: single[i] != single[j]
  {
    forall i, j | 0 <= i < j < |single|
      ensures single[i] != single[j] && single[j].End() < single[i].Start()
    {
      var f, g := single[i], single[j];
      TwoPlaces(single, i, j);
      assert f in multiset(single) && g in multiset(single);
      assert !Overlap(f, g) && BottomUp(f, g);
    }
  }

  /** The lines and the two lists after the findings `done`, from the bottom of the file up. */
  ghost predicate Spliced(original: seq<string>, done: seq<Finding>,
                          lines: seq<string>, applied: seq<Finding>, outOfRange: seq<Finding>)
  {
    && lines == Rewrite(original, SetOf(applied))
    && Descending(applied)
    && (forall f :: f in applied <==> f in done && InRange(|original|, f))
    && multiset(applied) + multiset(outOfRange) == multiset(done)
  }

  lemma AllBelow(done: seq<Finding>, f: Finding)
    requires Descending(done + [f])
    ensures Descending(done) && forall g | g in done :: f.End() < g.Start()
  {
    var now := done + [f];
    assert now[|done|] == f && forall i | 0 <= i < |done| :: now[i] == done[i];
  }

  lemma DescendingSnoc(fs: seq<Finding>, f: Finding)
    requires Descending(fs) && forall g | g in fs :: f.End() < g.Start()
    ensures Descending(fs + [f])
  {
  }

  lemma DescendingApart(some: seq<Finding>, fixes: set<Finding>)
    requires Descending(some) && forall f | f in fixes :: f in some
    ensures Apart(fixes)
  {
  }

  lemma SpliceInside(original: seq<string>, done: seq<Finding>, lines: seq<string>,
                     applied: seq<Finding>, outOfRange: seq<Finding>, f: Finding)
    requires Spliced(original, done, lines, applied, outOfRange)
    requires Descending(done) && forall g | g in done :: f.End() < g.Start()
    requires InRange(|original|, f) && f.End() <= |lines|
    ensures Spliced(original, done + [f],
                    lines[..f.Start() - 1] + SplitLines(f.fix) + lines[f.End()..],
                    applied + [f], outOfRange)
  {
    var fixes := SetOf(applied);
    var more := applied + [f];
    DescendingSnoc(applied, f);
    DescendingApart(more, fixes + {f});
    SpliceIsRewrite(original, fixes, f);
    assert SetOf(more) == fixes + {f};
  }

  lemma SpliceOne(original: seq<string>, done: seq<Finding>, lines: seq<string>,
                  applied: seq<Finding>, outOfRange: seq<Finding>, f: Finding)
    requires Spliced(original, done, lines, applied, outOfRange)
    requires Descending(done + [f])
    ensures InRange(|original|, f) <==> 0 < f.Start() <= |lines| && f.End() <= |lines|
    ensures InRange(|original|, f) ==>
      Spliced(original, done + [f],
              lines[..f.Start() - 1] + SplitLines(f.fix) + lines[f.End()..],
              applied + [f], outOfRange)
    ensures !InRange(|original|, f) ==>
      Spliced(original, done + [f], lines, applied, outOfRange + [f])
  {
    AllBelow(done, f);
    BoundsStayExact(original, SetOf(applied), f);
    if InRange(|original|, f) {
      SpliceInside(original, done, lines, applied, outOfRange, f);
    }
  }

  /** Slice assignments from the bottom of the file upwards, on the list as it is by then. */
  method SpliceBottomUp(original: seq<string>, bottomUp: seq<Finding>)
    returns (lines: seq<string>, applied: seq<Finding>, outOfRange: seq<Finding>)
    requires Descending(bottomUp)
    ensures Spliced(original, bottomUp, lines, applied, outOfRange)
  {
    lines, applied, outOfRange := original, [], [];
    NothingToRewrite(original);
    assert SetOf<Finding>([]) == {};
    for k := 0 to |bottomUp|
      invariant Spliced(original, bottomUp[..k], lines, applied, outOfRange)
    {
      var f := bottomUp[k];
      assert bottomUp[..k + 1] == bottomUp[..k] + [f];
      SpliceOne(original, bottomUp[..k], lines, applied, outOfRange, f);
      if !(0 < f.Start() <= |lines| && f.End() <= |lines|) {
        outOfRange := outOfRange + [f];
        continue;
      }
      lines := lines[..f.Start() - 1] + SplitLines(f.fix) + lines[f.End()..];
      applied := applied + [f];
    }
    assert bottomUp[..|bottomUp|] == bottomUp;
  }

  lemma AssemblePatch(code: string, findings: seq<Finding>, bottomUp: seq<Finding>,
                      conflicted: seq<Finding>, lines: seq<string>,
                      applied: seq<Finding>, outOfRange: seq<Finding>)
    requires multiset(bottomUp) == multiset(Loners(multiset(WithFix(findings, true))))
    requires multiset(bottomUp) + multiset(conflicted) == multiset(WithFix(findings, true))
    requires Spliced(SplitLines(code), bottomUp, lines, applied, outOfRange)
    ensures IsPatch(code, findings, AsText(code, lines), applied,
                    WithFix(findings, false) + (conflicted + outOfRange))
  {
    WithFixSplits(findings);
    assert forall f :: f in bottomUp <==> f in multiset(bottomUp);
    assert SetOf(applied) == Applicable(|SplitLines(code)|, findings);
  }

  method ApplyFixes(code: string, findings: seq<Finding>)
    returns (patched: string, applied: seq<Finding>, notApplied: seq<Finding>)
    ensures IsPatch(code, findings, patched, applied, notApplied)
  {
    var fixable := WithFix(findings, true);
    var notFixable := WithFix(findings, false);

    Sorts(SpanLeq, fixable);
    var groups := GroupOverlapping(Sort(SpanLeq, fixable));
    forall a | 0 <= a < |groups| ensures SortedBy(SpanLeq, groups[a]) {
      GroupsSorted(groups, a);
    }
    var single, conflicted := SplitGroups(groups);

    Sorts(BottomUp, single);
    var bottomUp := Sort(BottomUp, single);
    BottomUpDescends(multiset(fixable), bottomUp);
    var lines, outOfRange;
    lines, applied, outOfRange := SpliceBottomUp(SplitLines(code), bottomUp);
    AssemblePatch(code, findings, bottomUp, conflicted, lines, applied, outOfRange);

    patched := Join(lines);
    if EndsWithNewline(code) {
      patched := patched + "\n";
    }
    notApplied := notFixable + (conflicted + outOfRange);
  }
}
