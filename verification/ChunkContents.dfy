/** What the chunks of a file hold, in terms of its lines. */
module ChunkContents {
  import opened Text
  import opened Lists
  import opened Chunker

  /** The lines `start..end`, numbered from 1. */
  function Lines(lines: seq<string>, start: nat, end: nat): seq<string>
    requires 0 < start <= end <= |lines|
  {
    lines[start - 1..end]
  }

  ghost predicate InFile(lines: seq<string>, c: Chunk) {
    0 < c.startLine <= c.endLine <= |lines|
  }

  // ----- A parsed file -----

  /** The chunk of a function or class: all of its lines, under its name. */
  ghost predicate HoldsDefinition(lines: seq<string>, c: Chunk, d: Definition) {
    && c.startLine == d.start && c.endLine == d.end && InFile(lines, c)
    && c.content == Join(Lines(lines, d.start, d.end))
    && c.name == d.name && (if d.isClass then c.kind == Class else c.kind == Function)
  }

  /** The definition has no line in `start..end`. */
  predicate Misses(d: Definition, start: nat, end: nat) {
    d.end < start || end < d.start
  }

  /** The chunk of the lines between definitions: their text without blanks around it. */
  ghost predicate HoldsGap(lines: seq<string>, defs: seq<Definition>, c: Chunk) {
    && c.kind == Module && c.name == "" && InFile(lines, c)
    && c.content == Strip(Join(Lines(lines, c.startLine, c.endLine))) && c.content != ""
    && forall d | d in defs :: Misses(d, c.startLine, c.endLine)
  }

  lemma {:induction false} DefinitionChunksHold(lines: seq<string>, defs: seq<Definition>)
    requires Disjoint(defs, |lines|)
    ensures |DefinitionChunks(lines, defs)| == |defs|
    ensures forall i | 0 <= i < |defs| :: HoldsDefinition(lines, DefinitionChunks(lines, defs)[i], defs[i])
  {
    hide Join;
    if defs != [] {
      DefinitionChunksHold(lines, defs[..|defs| - 1]);
    }
  }

  lemma {:induction false} GapChunksHold(lines: seq<string>, defs: seq<Definition>,
                                         ranges: seq<(nat, nat)>, c: Chunk)
    requires forall i | 0 <= i < |ranges| :: 0 < ranges[i].0 <= ranges[i].1 <= |lines|
    requires forall r, d | r in ranges && d in defs :: Misses(d, r.0, r.1)
    requires c in GapChunks(lines, ranges)
    ensures HoldsGap(lines, defs, c)
  {
    hide Join, Strip;
    var n := |ranges| - 1;
    assert ranges[n] in ranges;
    if c in GapChunks(lines, ranges[..n]) {
      assert forall r | r in ranges[..n] :: r in ranges;
      GapChunksHold(lines, defs, ranges[..n], c);
    }
  }

  lemma GapsMissDefinitions(size: nat, defs: seq<Definition>, ranges: seq<(nat, nat)>)
    requires Disjoint(defs, size) && AreGaps(size, LinesOf(defs, size), ranges)
    ensures forall r, d | r in ranges && d in defs :: Misses(d, r.0, r.1)
  {
    forall r, d | r in ranges && d in defs ensures Misses(d, r.0, r.1) {
      assert IsGap(size, LinesOf(defs, size), r);
      var n := if d.start <= r.0 then r.0 else d.start;
      assert r.0 <= n <= r.1 ==> n !in LinesOf(defs, size);
    }
  }

  /** Every function and class of the file has its chunk, with all its lines; all other chunks hold
      the text between them; and the chunks are in the order of their first lines. */
  lemma ParsedFileSays(lines: seq<string>, defs: seq<Definition>, chunks: seq<Chunk>)
    requires Disjoint(defs, |lines|) && AreChunks(lines, defs, chunks)
    ensures forall d | d in defs :: exists c :: c in chunks && HoldsDefinition(lines, c, d)
    ensures forall c | c in chunks ::
      HoldsGap(lines, defs, c) || exists d :: d in defs && HoldsDefinition(lines, c, d)
    ensures forall i, j | 0 <= i < j < |chunks| :: chunks[i].startLine <= chunks[j].startLine
  {
    hide HoldsDefinition, HoldsGap, DefinitionChunks, GapChunks, LinesOf, AreGaps, Sort, Disjoint;
    var ranges: seq<(nat, nat)> :|
      && AreGaps(|lines|, LinesOf(defs, |lines|), ranges)
      && (forall i | 0 <= i < |ranges| :: 0 < ranges[i].0 <= ranges[i].1 <= |lines|)
      && chunks == Sort(StartsNoLater, DefinitionChunks(lines, defs) + GapChunks(lines, ranges));
    var first, second := DefinitionChunks(lines, defs), GapChunks(lines, ranges);
    Sorts(StartsNoLater, first + second);
    DefinitionChunksHold(lines, defs);
    GapsMissDefinitions(|lines|, defs, ranges);
    forall c ensures c in chunks <==> c in first || c in second {
      assert c in chunks <==> c in multiset(chunks);
      assert c in first + second <==> c in multiset(first + second);
    }
    forall c | c in second ensures HoldsGap(lines, defs, c) {
      GapChunksHold(lines, defs, ranges, c);
    }
    forall d | d in defs ensures exists c :: c in chunks && HoldsDefinition(lines, c, d) {
      var i :| 0 <= i < |defs| && defs[i] == d;
      assert first[i] in chunks;
    }
    forall c | c in first ensures exists d :: d in defs && HoldsDefinition(lines, c, d) {
      var i :| 0 <= i < |first| && first[i] == c;
      assert defs[i] in defs;
    }
    assert SortedBy(StartsNoLater, chunks);
  }

  // ----- Windows -----

  /** Sixty lines, or those that are left, from a line 50 lines after the window before; their text
      without blanks around it. */
  ghost predicate HoldsWindow(lines: seq<string>, c: Chunk) {
    && c.kind == Window && c.name == "" && InFile(lines, c)
    && c.startLine % 50 == 1
    && c.endLine == (if c.startLine + 59 <= |lines| then c.startLine + 59 else |lines|)
    && c.content == Strip(Join(Lines(lines, c.startLine, c.endLine))) && c.content != ""
  }

  lemma {:induction false} WindowChunksHold(lines: seq<string>, n: nat, c: Chunk)
    requires n > 0 ==> (n - 1) * STEP < |lines|
    requires c in WindowChunks(lines, n)
    ensures HoldsWindow(lines, c) && c.startLine <= (n - 1) * STEP + 1
  {
    hide Join, Strip;
    if c in WindowChunks(lines, n - 1) {
      WindowChunksHold(lines, n - 1, c);
    }
  }

  lemma {:induction false} WindowsAscend(lines: seq<string>, n: nat)
    requires n > 0 ==> (n - 1) * STEP < |lines|
    ensures var chunks := WindowChunks(lines, n);
      forall i, j | 0 <= i < j < |chunks| :: chunks[i].startLine < chunks[j].startLine
  {
    hide Join, Strip, HoldsWindow;
    if n > 0 {
      var before := WindowChunks(lines, n - 1);
      WindowsAscend(lines, n - 1);
      forall i | 0 <= i < |before| ensures before[i].startLine < (n - 1) * STEP + 1 {
        assert STEP == 50;
        WindowChunksHold(lines, n - 1, before[i]);
      }
      var last := WindowChunk(lines, n - 1);
      assert forall i | 0 <= i < |last| :: last[i].startLine == (n - 1) * STEP + 1;
      assert WindowChunks(lines, n) == before + last;
    }
  }

  /** All chunks of a file that is not parsed are windows, in the order of the file. */
  lemma WindowedFileSays(lines: seq<string>, chunks: seq<Chunk>)
    requires chunks == WindowChunks(lines, Windows(|lines|))
    ensures forall c | c in chunks :: HoldsWindow(lines, c)
    ensures forall i, j | 0 <= i < j < |chunks| :: chunks[i].startLine < chunks[j].startLine
  {
    hide WindowChunks, Windows, HoldsWindow;
    var n := Windows(|lines|);
    WindowsAscend(lines, n);
    forall c | c in chunks ensures HoldsWindow(lines, c) {
      WindowChunksHold(lines, n, c);
    }
  }

  // ----- Which files are parsed -----

  lemma EndsWithPyMeans(filename: string)
    ensures EndsWithPy(filename) <==> exists stem :: filename == stem + ".py"
  {
    if EndsWithPy(filename) {
      assert filename == filename[..|filename| - 3] + ".py";
    }
    forall stem | filename == stem + ".py" ensures filename[|filename| - 3..] == ".py" {
    }
  }
}
