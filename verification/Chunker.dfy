/** Splitting a file into chunks: by top-level definitions, or by overlapping windows. */
module Chunker {
  import opened Text
  import opened Lists

  const WINDOW_LINES: nat := 60
  const WINDOW_OVERLAP: nat := 10
  const STEP: nat := if WINDOW_LINES > WINDOW_OVERLAP then WINDOW_LINES - WINDOW_OVERLAP else 1

  datatype Kind = Function | Class | Module | Window

  /** Lines are numbered from 1, the last one included. */
  datatype Chunk = Chunk(content: string, startLine: nat, endLine: nat, kind: Kind, name: string)

  /** A top-level function or class of the parsed file. */
  datatype Definition = Definition(start: nat, end: nat, isClass: bool, name: string)

  predicate Contains(c: Chunk, line: nat) {
    c.startLine <= line <= c.endLine
  }

  /** In how many chunks a line is. */
  function Copies(chunks: seq<Chunk>, line: nat): nat {
    if chunks == [] then 0
    else Copies(chunks[..|chunks| - 1], line) + if Contains(chunks[|chunks| - 1], line) then 1 else 0
  }

  lemma {:induction false} CopiesAppend(xs: seq<Chunk>, ys: seq<Chunk>, line: nat)
    ensures Copies(xs + ys, line) == Copies(xs, line) + Copies(ys, line)
  {
    if ys == [] {
      assert xs + ys == xs;
    } else {
      assert (xs + ys)[..|xs + ys| - 1] == xs + ys[..|ys| - 1];
      CopiesAppend(xs, ys[..|ys| - 1], line);
    }
  }

  // ----- Windows -----

  /** The start of window `k`, and the line after its last one, counted from 0. */
  function WindowEnd(lines: seq<string>, k: nat): nat {
    if k * STEP + WINDOW_LINES < |lines| then k * STEP + WINDOW_LINES else |lines|
  }

  /** The chunk of window `k`, unless the window has no text. */
  function WindowChunk(lines: seq<string>, k: nat): seq<Chunk>
    requires k * STEP < |lines|
  {
    var text := Strip(Join(lines[k * STEP..WindowEnd(lines, k)]));
    if text == "" then []
    else [Chunk(text, k * STEP + 1, WindowEnd(lines, k), Window, "")]
  }

  function WindowChunks(lines: seq<string>, n: nat): seq<Chunk>
    requires n > 0 ==> (n - 1) * STEP < |lines|
  {
    if n == 0 then [] else WindowChunks(lines, n - 1) + WindowChunk(lines, n - 1)
  }

  /** How many windows start before the end of the file. */
  function Windows(size: nat): (n: nat)
    ensures n * STEP >= size && (n > 0 ==> (n - 1) * STEP < size)
  {
    (size + STEP - 1) / STEP
  }

  lemma WindowsAre(size: nat, n: nat)
    requires n * STEP >= size && (n > 0 ==> (n - 1) * STEP < size)
    ensures n == Windows(size)
  {
  }

  method ChunkByWindow(content: string) returns (chunks: seq<Chunk>)
    ensures var lines := SplitLines(content); chunks == WindowChunks(lines, Windows(|lines|))
  {
    hide Strip, Join, SplitLines, Windows;
    var lines := SplitLines(content);
    chunks := [];
    ghost var n := 0;
    var i := 0;
    while i < |lines|
      invariant i == n * STEP && (n > 0 ==> (n - 1) * STEP < |lines|)
      invariant chunks == WindowChunks(lines, n)
    {
      var batch := lines[i..if i + WINDOW_LINES < |lines| then i + WINDOW_LINES else |lines|];
      var text := Strip(Join(batch));
      if text != "" {
        chunks := chunks + [Chunk(text, i + 1, i + |batch|, Window, "")];
      }
      i := i + STEP;
      n := n + 1;
    }
    WindowsAre(|lines|, n);
  }

  lemma {:induction false} CharInJoin(lines: seq<string>, k: nat, i: nat)
    requires k < |lines| && i < |lines[k]|
    ensures lines[k][i] in Join(lines)
  {
    if |lines| == 1 {
    } else if k == 0 {
      assert Join(lines)[i] == lines[0][i];
    } else {
      CharInJoin(lines[1..], k - 1, i);
      assert Join(lines) == (lines[0] + "\n") + Join(lines[1..]);
    }
  }

  lemma TextInJoin(lines: seq<string>, k: nat)
    requires k < |lines| && !Blank(lines[k])
    ensures Strip(Join(lines)) != ""
    decreases lines
  {
    BlankIsEmptyStrip(Join(lines));
    BlankIsAllSpace(lines[k]);
    BlankIsAllSpace(Join(lines));
    var i :| 0 <= i < |lines[k]| && !IsSpace(lines[k][i]);
    CharInJoin(lines, k, i);
  }

  lemma NoCopies(line: nat)
    ensures Copies([], line) == 0
  {
  }

  /** Whether line `i`, counted from 0, lies in window `k`. */
  predicate InWindow(i: nat, k: nat) {
    k * STEP <= i < k * STEP + WINDOW_LINES
  }

  function WindowsBefore(i: nat, n: nat): nat {
    if n == 0 then 0 else WindowsBefore(i, n - 1) + if InWindow(i, n - 1) then 1 else 0
  }

  lemma OneCopy(chunks: seq<Chunk>, line: nat)
    requires |chunks| <= 1
    ensures Copies(chunks, line) == if chunks != [] && Contains(chunks[0], line) then 1 else 0
  {
    assert chunks != [] ==> chunks[..|chunks| - 1] == [];
  }

  lemma OneWindow(lines: seq<string>, k: nat, i: nat)
    requires k * STEP < |lines| && i < |lines| && !Blank(lines[i])
    ensures Copies(WindowChunk(lines, k), i + 1) == if InWindow(i, k) then 1 else 0
  {
    hide Strip, Join, Blank;
    var lo, hi := k * STEP, WindowEnd(lines, k);
    if InWindow(i, k) {
      assert lines[lo..hi][i - lo] == lines[i];
      TextInJoin(lines[lo..hi], i - lo);
    }
    OneCopy(WindowChunk(lines, k), i + 1);
  }

  lemma {:induction false} CopiesInWindows(lines: seq<string>, n: nat, i: nat)
    requires n > 0 ==> (n - 1) * STEP < |lines|
    requires i < |lines| && !Blank(lines[i])
    ensures Copies(WindowChunks(lines, n), i + 1) == WindowsBefore(i, n)
  {
    hide Blank, Copies, WindowChunk, InWindow;
    NoCopies(i + 1);
    if n > 0 {
      CopiesInWindows(lines, n - 1, i);
      CopiesAppend(WindowChunks(lines, n - 1), WindowChunk(lines, n - 1), i + 1);
      OneWindow(lines, n - 1, i);
    }
  }

  lemma {:induction false} CountWindows(i: nat, n: nat)
    ensures WindowsBefore(i, n)
      == (if i < n * STEP || i / STEP < n then 1 else 0)
         + (if i >= STEP && i % STEP < WINDOW_OVERLAP && i / STEP <= n then 1 else 0)
  {
    if n > 0 {
      CountWindows(i, n - 1);
    }
  }

  /** Every line with text is in one window or in two: in two exactly when it lies in the overlap,
      that is when its index from 0 is at least 50 and below 10 modulo 50. */
  lemma LinesInOneOrTwoWindows(lines: seq<string>, i: nat)
    requires i < |lines| && !Blank(lines[i])
    ensures Copies(WindowChunks(lines, Windows(|lines|)), i + 1)
      == if i >= 50 && i % 50 < 10 then 2 else 1
  {
    hide Blank, WindowChunks, Windows;
    var n := Windows(|lines|);
    CopiesInWindows(lines, n, i);
    CountWindows(i, n);
  }

  // ----- Top-level definitions -----

  ghost predicate Disjoint(defs: seq<Definition>, size: nat) {
    && (forall i | 0 <= i < |defs| :: 0 < defs[i].start <= defs[i].end <= size)
    && (forall i, j | 0 <= i < j < |defs| ::
          defs[i].end < defs[j].start || defs[j].end < defs[i].start)
  }

  ghost predicate IsGap(total: nat, covered: set<nat>, r: (nat, nat)) {
    && 1 <= r.0 <= r.1 <= total
    && (forall line | r.0 <= line <= r.1 :: line !in covered)
    && (r.0 == 1 || r.0 - 1 in covered)
    && (r.1 == total || r.1 + 1 in covered)
  }

  ghost predicate InSome(ranges: seq<(nat, nat)>, line: nat) {
    exists r :: r in ranges && r.0 <= line <= r.1
  }

  /** The maximal runs of lines that are not covered, in ascending order. */
  ghost predicate AreGaps(total: nat, covered: set<nat>, ranges: seq<(nat, nat)>) {
    && (forall r | r in ranges :: IsGap(total, covered, r))
    && (forall i, j | 0 <= i < j < |ranges| :: ranges[i].1 + 1 < ranges[j].0)
    && (forall line | 1 <= line <= total && line !in covered :: InSome(ranges, line))
  }

  lemma CloseGap(ranges: seq<(nat, nat)>, start: nat, end: nat, covered: set<nat>)
    requires start <= end
    requires forall k | 1 <= k < start && k !in covered :: InSome(ranges, k)
    ensures forall k | 1 <= k <= end && k !in covered :: InSome(ranges + [(start, end)], k)
  {
    var more := ranges + [(start, end)];
    assert (start, end) in more;
    forall k | 1 <= k <= end && k !in covered ensures InSome(more, k) {
      if k < start {
        var r :| r in ranges && r.0 <= k <= r.1;
        assert r in more;
      }
    }
  }

  method UncoveredRanges(total: nat, covered: set<nat>) returns (ranges: seq<(nat, nat)>)
    ensures AreGaps(total, covered, ranges)
  {
    ranges := [];
    var start := 0;
    for line := 1 to total + 1
      invariant start == 0 || (1 <= start < line && (start == 1 || start - 1 in covered)
                               && forall k | start <= k < line :: k !in covered)
      invariant start == 0 ==> line == 1 || line - 1 in covered
      invariant forall r | r in ranges :: IsGap(total, covered, r)
      invariant forall r | r in ranges :: r.1 + 1 < (if start == 0 then line else start)
      invariant forall i, j | 0 <= i < j < |ranges| :: ranges[i].1 + 1 < ranges[j].0
      invariant forall k | 1 <= k < (if start == 0 then line else start) && k !in covered ::
        InSome(ranges, k)
    {
      if line !in covered {
        if start == 0 {
          start := line;
        }
      } else if start != 0 {
        CloseGap(ranges, start, line - 1, covered);
        ranges := ranges + [(start, line - 1)];
        start := 0;
      }
    }
    if start != 0 {
      CloseGap(ranges, start, total, covered);
      ranges := ranges + [(start, total)];
    }
  }

  /** A gap found by one list of gaps is found by every other. */
  lemma SameGap(total: nat, covered: set<nat>, ranges: seq<(nat, nat)>, r: (nat, nat))
    requires AreGaps(total, covered, ranges) && IsGap(total, covered, r)
    ensures r in ranges
  {
    assert InSome(ranges, r.0);
    var q :| q in ranges && q.0 <= r.0 <= q.1;
    assert IsGap(total, covered, q);
    assert q.0 == r.0;
    assert q.1 == r.1;
  }

  ghost predicate Ascending(xs: seq<(nat, nat)>) {
    && (forall r | r in xs :: r.0 <= r.1)
    && (forall i, j | 0 <= i < j < |xs| :: xs[i].1 + 1 < xs[j].0)
  }

  lemma {:induction false} AscendingUnique(xs: seq<(nat, nat)>, ys: seq<(nat, nat)>)
    requires Ascending(xs) && Ascending(ys) && forall r :: r in xs <==> r in ys
    ensures xs == ys
  {
    assert ys != [] ==> ys[0] in ys;
    if xs != [] {
      assert xs[0] in ys && ys[0] in xs;
      assert xs[0] == ys[0];
      assert xs == [xs[0]] + xs[1..] && ys == [ys[0]] + ys[1..];
      assert xs[0] !in xs[1..] && ys[0] !in ys[1..];
      assert forall r :: r in xs <==> r == xs[0] || r in xs[1..];
      assert forall r :: r in ys <==> r == ys[0] || r in ys[1..];
      AscendingUnique(xs[1..], ys[1..]);
    }
  }

  /** The list of gaps is determined by the covered lines. */
  lemma GapsAreUnique(total: nat, covered: set<nat>, xs: seq<(nat, nat)>, ys: seq<(nat, nat)>)
    requires AreGaps(total, covered, xs) && AreGaps(total, covered, ys)
    ensures xs == ys
  {
    forall r ensures r in xs <==> r in ys {
      if r in xs { SameGap(total, covered, ys, r); }
      if r in ys { SameGap(total, covered, xs, r); }
    }
    AscendingUnique(xs, ys);
  }

  // ----- Chunks of a parsed file -----

  function DefinitionChunk(lines: seq<string>, d: Definition): Chunk
    requires 0 < d.start <= d.end <= |lines|
  {
    Chunk(Join(lines[d.start - 1..d.end]), d.start, d.end, if d.isClass then Class else Function, d.name)
  }

  function GapChunk(lines: seq<string>, r: (nat, nat)): seq<Chunk>
    requires 0 < r.0 <= r.1 <= |lines|
  {
    var text := Strip(Join(lines[r.0 - 1..r.1]));
    if text == "" then [] else [Chunk(text, r.0, r.1, Module, "")]
  }

  ghost predicate InDefinition(defs: seq<Definition>, line: nat) {
    exists d :: d in defs && d.start <= line <= d.end
  }

  ghost function LinesOf(defs: seq<Definition>, size: nat): set<nat> {
    set line: nat | line <= size && InDefinition(defs, line)
  }

  predicate From(start: nat, line: nat) {
    start <= line
  }

  /** `set(range(start, end + 1))` */
  function LineRange(start: nat, end: nat): set<nat> {
    set line: nat | line <= end && From(start, line)
  }

  /** By the start line; the order that `sorted` uses. */
  predicate StartsNoLater(c: Chunk, d: Chunk) {
    c.startLine <= d.startLine
  }

  function DefinitionChunks(lines: seq<string>, defs: seq<Definition>): seq<Chunk>
    requires Disjoint(defs, |lines|)
  {
    if defs == [] then []
    else
      DefinitionChunks(lines, defs[..|defs| - 1]) + [DefinitionChunk(lines, defs[|defs| - 1])]
  }

  function GapChunks(lines: seq<string>, ranges: seq<(nat, nat)>): seq<Chunk>
    requires forall i | 0 <= i < |ranges| :: 0 < ranges[i].0 <= ranges[i].1 <= |lines|
  {
    if ranges == [] then []
    else GapChunks(lines, ranges[..|ranges| - 1]) + GapChunk(lines, ranges[|ranges| - 1])
  }

  lemma CoverOneMore(defs: seq<Definition>, d: Definition, size: nat)
    requires d.end <= size
    ensures LinesOf(defs + [d], size) == LinesOf(defs, size) + LineRange(d.start, d.end)
  {
    var more := defs + [d];
    forall line: nat
      ensures InDefinition(more, line) <==> InDefinition(defs, line) || d.start <= line <= d.end
    {
      assert d in more;
      if e :| e in defs && e.start <= line <= e.end { assert e in more; }
    }
    assert forall line: nat :: From(d.start, line) <==> d.start <= line;
  }

  method CollectDefinitions(lines: seq<string>, defs: seq<Definition>)
    returns (chunks: seq<Chunk>, covered: set<nat>)
    requires Disjoint(defs, |lines|)
    ensures chunks == DefinitionChunks(lines, defs)
    ensures covered == LinesOf(defs, |lines|)
  {
    hide Join;
    chunks, covered := [], {};
    for k := 0 to |defs|
      invariant chunks == DefinitionChunks(lines, defs[..k])
      invariant covered == LinesOf(defs[..k], |lines|)
    {
      var d := defs[k];
      assert defs[..k + 1][..k] == defs[..k];
      chunks := chunks + [DefinitionChunk(lines, d)];
      CoverOneMore(defs[..k], d, |lines|);
      assert defs[..k + 1] == defs[..k] + [d];
      covered := covered + LineRange(d.start, d.end);
    }
    assert defs[..|defs|] == defs;
  }

  /** The chunks of the definitions and of the gaps between them, by their start line. */
  ghost predicate AreChunks(lines: seq<string>, defs: seq<Definition>, chunks: seq<Chunk>)
    requires Disjoint(defs, |lines|)
  {
    exists ranges: seq<(nat, nat)> ::
      && AreGaps(|lines|, LinesOf(defs, |lines|), ranges)
      && (forall i | 0 <= i < |ranges| :: 0 < ranges[i].0 <= ranges[i].1 <= |lines|)
      && chunks == Sort(StartsNoLater, DefinitionChunks(lines, defs) + GapChunks(lines, ranges))
  }

  /** They are determined by the file and its definitions. */
  lemma ChunksAreUnique(lines: seq<string>, defs: seq<Definition>, xs: seq<Chunk>, ys: seq<Chunk>)
    requires Disjoint(defs, |lines|) && AreChunks(lines, defs, xs) && AreChunks(lines, defs, ys)
    ensures xs == ys
  {
    hide DefinitionChunks, GapChunks, LinesOf, AreGaps, Sort;
    var covered := LinesOf(defs, |lines|);
    forall p, q | AreGaps(|lines|, covered, p) && AreGaps(|lines|, covered, q) ensures p == q {
      GapsAreUnique(|lines|, covered, p, q);
    }
  }

  lemma GapsInRange(total: nat, covered: set<nat>, ranges: seq<(nat, nat)>)
    requires AreGaps(total, covered, ranges)
    ensures forall i | 0 <= i < |ranges| :: 0 < ranges[i].0 <= ranges[i].1 <= total
  {
    assert forall i | 0 <= i < |ranges| :: ranges[i] in ranges && IsGap(total, covered, ranges[i]);
  }

  method CollectGaps(lines: seq<string>, gaps: seq<(nat, nat)>) returns (chunks: seq<Chunk>)
    requires forall i | 0 <= i < |gaps| :: 0 < gaps[i].0 <= gaps[i].1 <= |lines|
    ensures chunks == GapChunks(lines, gaps)
  {
    hide Strip, Join;
    chunks := [];
    for k := 0 to |gaps|
      invariant chunks == GapChunks(lines, gaps[..k])
    {
      assert gaps[..k + 1][..k] == gaps[..k];
      var (start, end) := gaps[k];
      var text := Strip(Join(lines[start - 1..end]));
      if text == "" {
        continue;
      }
      chunks := chunks + [Chunk(text, start, end, Module, "")];
    }
    assert gaps[..|gaps|] == gaps;
  }

  /** `defs` are the top-level functions and classes that the parser found in `content`. */
  method ChunkByDefinitions(content: string, defs: seq<Definition>) returns (chunks: seq<Chunk>)
    requires Disjoint(defs, |SplitLines(content)|)
    ensures AreChunks(SplitLines(content), defs, chunks)
  {
    hide Strip, Join, SplitLines, DefinitionChunks, GapChunks, LinesOf, AreGaps, Sort;
    var lines := SplitLines(content);
    var covered;
    chunks, covered := CollectDefinitions(lines, defs);
    var gaps := UncoveredRanges(|lines|, covered);
    GapsInRange(|lines|, covered, gaps);
    var gapChunks := CollectGaps(lines, gaps);
    chunks := Sort(StartsNoLater, chunks + gapChunks);
  }

  // ----- Every line with text is in exactly one chunk -----

  lemma {:induction false} CopiesInsert(x: Chunk, xs: seq<Chunk>, line: nat)
    ensures Copies(Insert(StartsNoLater, x, xs), line) == Copies([x], line) + Copies(xs, line)
  {
    hide Contains, StartsNoLater;
    if xs == [] || StartsNoLater(x, xs[0]) {
      CopiesAppend([x], xs, line);
    } else {
      CopiesInsert(x, xs[1..], line);
      CopiesAppend([xs[0]], Insert(StartsNoLater, x, xs[1..]), line);
      CopiesAppend([xs[0]], xs[1..], line);
      assert xs == [xs[0]] + xs[1..];
    }
  }

  lemma {:induction false} CopiesSort(xs: seq<Chunk>, line: nat)
    ensures Copies(Sort(StartsNoLater, xs), line) == Copies(xs, line)
  {
    hide Contains, StartsNoLater, Insert;
    if xs != [] {
      CopiesSort(xs[1..], line);
      CopiesInsert(xs[0], Sort(StartsNoLater, xs[1..]), line);
      CopiesAppend([xs[0]], xs[1..], line);
      assert xs == [xs[0]] + xs[1..];
    }
  }

  lemma OnlyOneDefinition(front: seq<Definition>, d: Definition, line: nat, size: nat)
    requires Disjoint(front + [d], size)
    ensures InDefinition(front + [d], line) <==> InDefinition(front, line) || d.start <= line <= d.end
    ensures !(InDefinition(front, line) && d.start <= line <= d.end)
  {
    var defs := front + [d];
    assert d in defs && defs[|front|] == d;
    if e :| e in front && e.start <= line <= e.end {
      var i :| 0 <= i < |front| && front[i] == e;
      assert defs[i] == e && e in defs;
    }
  }

  lemma NoDefinition(line: nat)
    ensures !InDefinition([], line)
  {
  }

  lemma {:induction false} CopiesInDefinitions(lines: seq<string>, defs: seq<Definition>, line: nat)
    requires Disjoint(defs, |lines|)
    ensures Copies(DefinitionChunks(lines, defs), line) == if InDefinition(defs, line) then 1 else 0
  {
    hide Join, Copies, InDefinition;
    NoCopies(line);
    if defs == [] {
      NoDefinition(line);
    } else {
      var n := |defs| - 1;
      var front, d := defs[..n], defs[n];
      CopiesInDefinitions(lines, front, line);
      CopiesAppend(DefinitionChunks(lines, front), [DefinitionChunk(lines, d)], line);
      OneCopy([DefinitionChunk(lines, d)], line);
      assert defs == front + [d];
      OnlyOneDefinition(front, d, line, |lines|);
    }
  }

  lemma OneGap(lines: seq<string>, r: (nat, nat), line: nat)
    requires 0 < r.0 <= r.1 <= |lines|
    requires 0 < line <= |lines| && !Blank(lines[line - 1])
    ensures Copies(GapChunk(lines, r), line) == if r.0 <= line <= r.1 then 1 else 0
  {
    hide Blank, Join, Strip;
    if r.0 <= line <= r.1 {
      assert lines[r.0 - 1..r.1][line - r.0] == lines[line - 1];
      TextInJoin(lines[r.0 - 1..r.1], line - r.0);
    }
    OneCopy(GapChunk(lines, r), line);
  }

  lemma OnlyOneGap(front: seq<(nat, nat)>, r: (nat, nat), line: nat)
    requires forall i, j | 0 <= i < j <= |front| :: front[i].1 + 1 < (front + [r])[j].0
    ensures InSome(front + [r], line) <==> InSome(front, line) || r.0 <= line <= r.1
    ensures !(InSome(front, line) && r.0 <= line <= r.1)
  {
    var ranges := front + [r];
    assert r in ranges && ranges[|front|] == r;
    if q :| q in front && q.0 <= line <= q.1 {
      var i :| 0 <= i < |front| && front[i] == q;
      assert ranges[i] == q && q in ranges;
    }
  }

  lemma {:induction false} CopiesInGaps(lines: seq<string>, ranges: seq<(nat, nat)>, line: nat)
    requires forall i | 0 <= i < |ranges| :: 0 < ranges[i].0 <= ranges[i].1 <= |lines|
    requires forall i, j | 0 <= i < j < |ranges| :: ranges[i].1 + 1 < ranges[j].0
    requires 0 < line <= |lines| && !Blank(lines[line - 1])
    ensures Copies(GapChunks(lines, ranges), line) == if InSome(ranges, line) then 1 else 0
  {
    hide Blank, Join, Strip, Contains, GapChunk;
    if ranges != [] {
      var n := |ranges| - 1;
      var front, r := ranges[..n], ranges[n];
      CopiesInGaps(lines, front, line);
      CopiesAppend(GapChunks(lines, front), GapChunk(lines, r), line);
      OneGap(lines, r, line);
      assert ranges == front + [r];
      OnlyOneGap(front, r, line);
    }
  }

  lemma GapOrDefinition(lines: seq<string>, defs: seq<Definition>, ranges: seq<(nat, nat)>, line: nat)
    requires AreGaps(|lines|, LinesOf(defs, |lines|), ranges) && 0 < line <= |lines|
    ensures InSome(ranges, line) <==> !InDefinition(defs, line)
  {
    hide InDefinition;
    if r :| r in ranges && r.0 <= line <= r.1 {
      assert IsGap(|lines|, LinesOf(defs, |lines|), r);
      assert line !in LinesOf(defs, |lines|);
    }
  }

  /** Nothing is dropped and nothing is there twice; the chunks are in order of their start. */
  lemma LinesInOneChunk(lines: seq<string>, defs: seq<Definition>, chunks: seq<Chunk>, line: nat)
    requires Disjoint(defs, |lines|) && AreChunks(lines, defs, chunks)
    requires 0 < line <= |lines| && !Blank(lines[line - 1])
    ensures Copies(chunks, line) == 1
    ensures SortedBy(StartsNoLater, chunks)
  {
    hide Blank, Sort, DefinitionChunks, GapChunks, IsGap;
    var ranges: seq<(nat, nat)> :|
      && AreGaps(|lines|, LinesOf(defs, |lines|), ranges)
      && (forall i | 0 <= i < |ranges| :: 0 < ranges[i].0 <= ranges[i].1 <= |lines|)
      && chunks == Sort(StartsNoLater, DefinitionChunks(lines, defs) + GapChunks(lines, ranges));
    var unsorted := DefinitionChunks(lines, defs) + GapChunks(lines, ranges);
    Sorts(StartsNoLater, unsorted);
    CopiesSort(unsorted, line);
    CopiesAppend(DefinitionChunks(lines, defs), GapChunks(lines, ranges), line);
    CopiesInDefinitions(lines, defs, line);
    CopiesInGaps(lines, ranges, line);
    GapOrDefinition(lines, defs, ranges, line);
  }

  // ----- One file -----

  lemma {:induction false} SplitChars(s: string, i: nat, c: char)
    requires i < |SplitLines(s)| && c in SplitLines(s)[i]
    ensures c in s
    decreases |s|
  {
    var n := LineEnd(s);
    if i > 0 {
      SplitChars(s[n + BreakWidth(s, n)..], i - 1, c);
    }
  }

  lemma BlankContent(content: string, i: nat)
    requires Strip(content) == "" && i < |SplitLines(content)|
    ensures Blank(SplitLines(content)[i])
  {
    var line := SplitLines(content)[i];
    BlankIsEmptyStrip(content);
    BlankIsAllSpace(content);
    BlankIsAllSpace(line);
    hide LStrip, IsSpace, SplitLines, Strip;
    forall k | 0 <= k < |line| ensures IsSpace(line[k]) {
      SplitChars(content, i, line[k]);
    }
  }

  predicate EndsWithPy(filename: string) {
    |filename| >= 3 && filename[|filename| - 3..] == ".py"
  }

  /** `parsed` is what the parser finds in `content`, nothing when it does not parse. */
  datatype Parsed = NotPython | Tree(defs: seq<Definition>)

  method ChunkFile(filename: string, content: string, parsed: Parsed) returns (chunks: seq<Chunk>)
    requires parsed.Tree? ==> Disjoint(parsed.defs, |SplitLines(content)|)
    ensures var lines := SplitLines(content);
      forall i | 0 <= i < |lines| && !Blank(lines[i]) ::
        Copies(chunks, i + 1)
        == if EndsWithPy(filename) && parsed.Tree? then 1
           else if i >= 50 && i % 50 < 10 then 2 else 1
    ensures var lines := SplitLines(content);
      if Strip(content) == "" then chunks == []
      else if EndsWithPy(filename) && parsed.Tree? then AreChunks(lines, parsed.defs, chunks)
      else chunks == WindowChunks(lines, Windows(|lines|))
  {
    hide Blank, Strip, SplitLines, Disjoint, Copies, AreChunks, WindowChunks, Windows;
    ghost var lines := SplitLines(content);
    if Strip(content) == "" {
      forall i | 0 <= i < |lines| ensures Blank(lines[i]) {
        BlankContent(content, i);
      }
      return [];
    }
    if EndsWithPy(filename) && parsed.Tree? {
      chunks := ChunkByDefinitions(content, parsed.defs);
      forall i | 0 <= i < |lines| && !Blank(lines[i]) ensures Copies(chunks, i + 1) == 1 {
        LinesInOneChunk(lines, parsed.defs, chunks, i + 1);
      }
    } else {
      chunks := ChunkByWindow(content);
      forall i | 0 <= i < |lines| && !Blank(lines[i])
        ensures Copies(chunks, i + 1) == if i >= 50 && i % 50 < 10 then 2 else 1
      {
        LinesInOneOrTwoWindows(lines, i);
      }
    }
  }
}
