/** `LineNumberMap`: an index from code-unit offsets to line and column
    numbers, fed one chunk of text at a time. The interval tree it stores
    lines in is a list of inclusive intervals, one per terminated line, in
    the order they were found. */
module LineIndex {
  import opened Wrappers
  import opened Strings
  import opened LineBreaks

  /** A terminated line: offsets `low..high`, both included, the last one
      being the line's final break unit. */
  datatype Interval = Interval(low: int, high: int, lineno: nat)

  datatype LineNumberMap = LineNumberMap(
    lastLineStart: nat,
    lastLineLengthFromPrevChunks: nat,
    lineNumber: nat,
    intervals: seq<Interval>)

  /** The counters before the constructor's first chunk. */
  const Empty: LineNumberMap := LineNumberMap(0, 0, 1, [])

  /** The intervals cover `0..end - 1` in order, without gaps or overlaps,
      none empty, numbered 1, 2, 3, ... */
  ghost predicate Tiles(ivs: seq<Interval>, end: int) {
    && (|ivs| == 0 ==> end == 0)
    && (|ivs| > 0 ==> ivs[0].low == 0 && ivs[|ivs| - 1].high + 1 == end)
    && (forall k :: 0 <= k < |ivs| ==> ivs[k].low <= ivs[k].high && ivs[k].lineno == k + 1)
    && (forall k :: 0 < k < |ivs| ==> ivs[k].low == ivs[k - 1].high + 1)
  }

  /** What the map keeps true of the text `t` it has been fed: its intervals
      tile the text up to the start of the last line, each ends on a CR or
      LF, the unterminated rest is `lastLineLengthFromPrevChunks` long, and
      `lineNumber` is the number of the last line. */
  ghost predicate Valid(lm: LineNumberMap, t: Text) {
    && Tiles(lm.intervals, lm.lastLineStart)
    && lm.lastLineStart + lm.lastLineLengthFromPrevChunks == |t|
    && lm.lineNumber == |lm.intervals| + 1
    && (forall k :: 0 <= k < |lm.intervals| ==>
          0 <= lm.intervals[k].high < |t| && IsNewline(t[lm.intervals[k].high]))
  }

  /** Recording one line of `len` units found in the current chunk: the line
      starts where the last line started and also holds the units carried
      over from earlier chunks. */
  function Insert(lm: LineNumberMap, len: nat): LineNumberMap {
    var whole := lm.lastLineLengthFromPrevChunks + len;
    LineNumberMap(
      lm.lastLineStart + whole,
      0,
      lm.lineNumber + 1,
      lm.intervals + [Interval(lm.lastLineStart, lm.lastLineStart + whole - 1, lm.lineNumber)])
  }

  /** The `while` loop of `addChunk` from offset `p` of the chunk: one line
      per match of the sticky line regex; the text after the last match is
      added to the unterminated line. */
  function Scan(lm: LineNumberMap, chunk: Text, p: nat): LineNumberMap
    requires p <= |chunk|
    decreases |chunk| - p
  {
    match LineEnd(chunk, p)
    case Some(e) => Scan(Insert(lm, e - p), chunk, e)
    case None => lm.(lastLineLengthFromPrevChunks := lm.lastLineLengthFromPrevChunks + (|chunk| - p))
  }

  /** `addChunk(chunk)`. */
  function AddChunk(lm: LineNumberMap, chunk: Text): (r: LineNumberMap)
    ensures forall t :: Valid(lm, t) ==> Valid(r, t + chunk)
    ensures |lm.intervals| <= |r.intervals| && r.intervals[..|lm.intervals|] == lm.intervals
  {
    forall t | Valid(lm, t) ensures Valid(Scan(lm, chunk, 0), t + chunk) {
      assert chunk[..0] == [];
      assert t + chunk[..0] == t;
      ScanValid(lm, t, chunk, 0);
    }
    ScanExtends(lm, chunk, 0);
    Scan(lm, chunk, 0)
  }

  /** `new LineNumberMap(initialChunk)`. */
  function New(chunk: Text): (r: LineNumberMap)
    ensures Valid(r, chunk)
  {
    assert [] + chunk == chunk;
    AddChunk(Empty, chunk)
  }

  lemma {:induction false} ScanValid(lm: LineNumberMap, t: Text, chunk: Text, p: nat)
    requires p <= |chunk| && Valid(lm, t + chunk[..p])
    ensures Valid(Scan(lm, chunk, p), t + chunk)
    decreases |chunk| - p
  {
    match LineEnd(chunk, p)
    case Some(e) =>
      InsertValid(lm, t, chunk, p, e);
      ScanStep(lm, chunk, p, e);
      ScanValid(Insert(lm, e - p), t, chunk, e);
    case None =>
      ScanLast(lm, chunk, p);
      assert chunk[..|chunk|] == chunk;
  }

  /** Recording a line found in the chunk keeps the map valid for the text
      up to the line's end. */
  lemma InsertValid(lm: LineNumberMap, t: Text, chunk: Text, p: nat, e: nat)
    requires p <= |chunk| && Valid(lm, t + chunk[..p]) && LineEnd(chunk, p) == Some(e)
    ensures Valid(Insert(lm, e - p), t + chunk[..e])
  {
    var seen := t + chunk[..e];
    assert seen[|t| + e - 1] == chunk[e - 1];
    assert (t + chunk[..p]) == seen[..|t| + p];
    forall k | 0 <= k < |lm.intervals| ensures seen[lm.intervals[k].high] == (t + chunk[..p])[lm.intervals[k].high] { }
  }

  lemma {:induction false} ScanExtends(lm: LineNumberMap, chunk: Text, p: nat)
    requires p <= |chunk|
    ensures |lm.intervals| <= |Scan(lm, chunk, p).intervals|
    ensures Scan(lm, chunk, p).intervals[..|lm.intervals|] == lm.intervals
    decreases |chunk| - p
  {
    match LineEnd(chunk, p)
    case Some(e) =>
      ScanExtends(Insert(lm, e - p), chunk, e);
      assert Insert(lm, e - p).intervals[..|lm.intervals|] == lm.intervals;
    case None =>
  }

  // ---------------------------------------------------------------------
  // Queries

  /** `intervalTree.search(offset, offset)[0]`: the first interval holding
      `offset`, by index. */
  function Find(ivs: seq<Interval>, offset: int): (r: Option<nat>)
    ensures r.Some? ==> r.value < |ivs| && ivs[r.value].low <= offset <= ivs[r.value].high
    ensures r.Some? ==> forall k :: 0 <= k < r.value ==> !(ivs[k].low <= offset <= ivs[k].high)
    ensures r.None? <==> forall k :: 0 <= k < |ivs| ==> !(ivs[k].low <= offset <= ivs[k].high)
    decreases |ivs|
  {
    if |ivs| == 0 then None
    else if ivs[0].low <= offset <= ivs[0].high then Some(0)
    else match Find(ivs[1..], offset)
      case None => None
      case Some(k) => Some(k + 1)
  }

  /** `getLineNumberForOffset(offset)`. */
  function GetLineNumberForOffset(lm: LineNumberMap, offset: int): int {
    match Find(lm.intervals, offset)
    case None => lm.lineNumber
    case Some(k) => lm.intervals[k].lineno
  }

  /** `getColumnForOffset(offset)`. */
  function GetColumnForOffset(lm: LineNumberMap, offset: int): int {
    match Find(lm.intervals, offset)
    case None => offset - lm.lastLineStart + 1
    case Some(k) => offset - lm.intervals[k].low + 1
  }

  /** Tiled intervals are ordered: each ends before the next one starts. */
  lemma {:induction false} TilesOrdered(ivs: seq<Interval>, end: int, i: nat, j: nat)
    requires Tiles(ivs, end) && i < j < |ivs|
    ensures ivs[i].high < ivs[j].low
    decreases j - i
  {
    if i + 1 < j {
      TilesOrdered(ivs, end, i, j - 1);
    }
  }

  /** Tiled intervals cover every offset before their end. */
  lemma {:induction false} TilesCover(ivs: seq<Interval>, end: int, offset: int)
    requires Tiles(ivs, end) && 0 <= offset < end
    ensures exists k :: 0 <= k < |ivs| && ivs[k].low <= offset <= ivs[k].high
    decreases |ivs|
  {
    var n := |ivs| - 1;
    if offset < ivs[n].low {
      var front := ivs[..n];
      assert n > 0;
      assert Tiles(front, ivs[n].low) by {
        assert front[n - 1] == ivs[n - 1];
      }
      TilesCover(front, ivs[n].low, offset);
      var k :| 0 <= k < |front| && front[k].low <= offset <= front[k].high;
      assert ivs[k] == front[k];
    } else {
      assert ivs[n].low <= offset <= ivs[n].high;
    }
  }

  /** What the two queries answer: inside the indexed lines, the number of the
      one line holding the offset and the distance from its start; anywhere
      else (a negative offset, or one on the unterminated last line or past
      it), the last line's number and the distance from its start. Every
      offset from 0 on has a column of at least 1. */
  lemma Queries(lm: LineNumberMap, t: Text, offset: int)
    requires Valid(lm, t)
    ensures 0 <= offset < lm.lastLineStart ==>
      var k := GetLineNumberForOffset(lm, offset) - 1;
      && 0 <= k < |lm.intervals|
      && lm.intervals[k].low <= offset <= lm.intervals[k].high
      && (forall j :: 0 <= j < |lm.intervals| && j != k ==> !(lm.intervals[j].low <= offset <= lm.intervals[j].high))
      && GetColumnForOffset(lm, offset) == offset - lm.intervals[k].low + 1
    ensures (offset < 0 || offset >= lm.lastLineStart) ==>
      GetLineNumberForOffset(lm, offset) == lm.lineNumber
      && GetColumnForOffset(lm, offset) == offset - lm.lastLineStart + 1
    ensures offset >= 0 ==> GetColumnForOffset(lm, offset) >= 1
  {
    var ivs := lm.intervals;
    FindWithinTiles(ivs, lm.lastLineStart, offset);
    if 0 <= offset < lm.lastLineStart {
      TilesCover(ivs, lm.lastLineStart, offset);
      var k := Find(ivs, offset).value;
      forall j | 0 <= j < |ivs| && j != k ensures !(ivs[j].low <= offset <= ivs[j].high) {
        if j < k { TilesOrdered(ivs, lm.lastLineStart, j, k); }
        if k < j { TilesOrdered(ivs, lm.lastLineStart, k, j); }
      }
    }
  }

  /** Only offsets inside the tiled range fall in one of the intervals. */
  lemma FindWithinTiles(ivs: seq<Interval>, end: int, offset: int)
    requires Tiles(ivs, end)
    ensures Find(ivs, offset).Some? ==> 0 <= offset < end
  {
    if Find(ivs, offset).Some? {
      var k := Find(ivs, offset).value;
      if k + 1 < |ivs| { TilesOrdered(ivs, end, k, |ivs| - 1); }
      if k > 0 { TilesOrdered(ivs, end, 0, k); }
    }
  }

  // ---------------------------------------------------------------------
  // Chunks

  /** Scanning `b` inside `a + b` is scanning `b` alone. */
  lemma {:induction false} ScanShift(lm: LineNumberMap, a: Text, b: Text, q: nat)
    requires q <= |b|
    ensures Scan(lm, a + b, |a| + q) == Scan(lm, b, q)
    decreases |b| - q
  {
    LineEndShift(a, b, q);
    var r := LineEnd(b, q);
    if r.Some? {
      var e := r.value;
      ScanStep(lm, b, q, e);
      ScanStep(lm, a + b, |a| + q, |a| + e);
      ScanShift(Insert(lm, e - q), a, b, e);
    } else {
      ScanLast(lm, b, q);
      ScanLast(lm, a + b, |a| + q);
    }
  }

  /** The last line of `a`, from `p` on, has no break: scanning it carries
      its length into the scan of `b`, which then runs as the scan of
      `a + b` from `p`. */
  lemma ScanSplitTail(lm: LineNumberMap, a: Text, b: Text, p: nat)
    requires p <= |a| && LineEnd(a, p).None?
    requires LineEnd(a + b, p) == if LineEnd(b, 0).Some? then Some(|a| + LineEnd(b, 0).value) else None
    ensures Scan(Scan(lm, a, p), b, 0) == Scan(lm, a + b, p)
  {
    var carried := lm.(lastLineLengthFromPrevChunks := lm.lastLineLengthFromPrevChunks + (|a| - p));
    ScanLast(lm, a, p);
    var rb := LineEnd(b, 0);
    if rb.Some? {
      ScanCarriedLine(lm, a, b, p, rb.value);
    } else {
      ScanLast(carried, b, 0);
      ScanLast(lm, a + b, p);
    }
  }

  /** The first line of `b` completes the line carried over from `a`. */
  lemma ScanCarriedLine(lm: LineNumberMap, a: Text, b: Text, p: nat, e: nat)
    requires p <= |a| && LineEnd(b, 0) == Some(e) && LineEnd(a + b, p) == Some(|a| + e)
    ensures var carried := lm.(lastLineLengthFromPrevChunks := lm.lastLineLengthFromPrevChunks + (|a| - p));
            Scan(carried, b, 0) == Scan(lm, a + b, p)
  {
    var n := |a| - p;
    var x := Insert(lm, n + e);
    calc {
      Scan(lm.(lastLineLengthFromPrevChunks := lm.lastLineLengthFromPrevChunks + n), b, 0);
      { CarriedFirstLine(lm, n, b, e); }
      Scan(x, b, e);
      { ScanShift(x, a, b, e); }
      Scan(x, a + b, |a| + e);
      { ScanStep(lm, a + b, p, |a| + e); }
      Scan(lm, a + b, p);
    }
  }

  /** With `n` units carried over, the first line of `b` is recorded as one
      interval `n` units longer. */
  lemma CarriedFirstLine(lm: LineNumberMap, n: nat, b: Text, e: nat)
    requires LineEnd(b, 0) == Some(e)
    ensures var carried := lm.(lastLineLengthFromPrevChunks := lm.lastLineLengthFromPrevChunks + n);
            Scan(carried, b, 0) == Scan(Insert(lm, n + e), b, e)
  {
    var carried := lm.(lastLineLengthFromPrevChunks := lm.lastLineLengthFromPrevChunks + n);
    InsertCarried(lm, n, e);
    ScanStep(carried, b, 0, e);
  }

  /** Units carried over from earlier chunks count towards the line they
      end up in. */
  lemma InsertCarried(lm: LineNumberMap, n: nat, e: nat)
    ensures Insert(lm.(lastLineLengthFromPrevChunks := lm.lastLineLengthFromPrevChunks + n), e) == Insert(lm, n + e)
  {
  }

  /** Without a further line the rest of the chunk joins the unterminated
      line. */
  lemma ScanLast(lm: LineNumberMap, t: Text, p: nat)
    requires p <= |t| && LineEnd(t, p).None?
    ensures Scan(lm, t, p) == lm.(lastLineLengthFromPrevChunks := lm.lastLineLengthFromPrevChunks + (|t| - p))
  {
  }

  /** A line found at `p` is recorded and the scan goes on from its end. */
  lemma ScanStep(lm: LineNumberMap, t: Text, p: nat, e: nat)
    requires p <= |t| && LineEnd(t, p) == Some(e)
    ensures p < e <= |t|
    ensures Scan(lm, t, p) == Scan(Insert(lm, e - p), t, e)
  {
  }

  /** One line of `a` scanned: the scans of `a` and of `a + b` both move on
      to the line's end with the same interval inserted. */
  lemma ScanSplitLine(lm: LineNumberMap, a: Text, b: Text, p: nat, e: nat)
    requires p <= |a| && LineEnd(a, p) == Some(e) && !SplitsCrLf(a, b)
    ensures p < e <= |a|
    ensures Scan(lm, a, p) == Scan(Insert(lm, e - p), a, e)
    ensures Scan(lm, a + b, p) == Scan(Insert(lm, e - p), a + b, e)
  {
    LineEndExtend(a, b, p);
    ScanStep(lm, a, p, e);
    ScanStep(lm, a + b, p, e);
  }

  /** Scanning `a` from `p` and then the chunk `b` is scanning `a + b` from
      `p`, provided the rest of `a` holds no LS or PS and `b` does not
      complete a CR ending `a` into a CRLF. */
  lemma {:induction false} ScanSplit(lm: LineNumberMap, a: Text, b: Text, p: nat)
    requires p <= |a| && NoSeparators(a[p..]) && !SplitsCrLf(a, b)
    ensures Scan(Scan(lm, a, p), b, 0) == Scan(lm, a + b, p)
    decreases |a| - p
  {
    var r := LineEnd(a, p);
    if r.Some? {
      var e := r.value;
      ScanSplitLine(lm, a, b, p, e);
      assert a[e..] == a[p..][e - p..];
      ScanSplit(Insert(lm, e - p), a, b, e);
    } else {
      LineEndNoneNoBreaks(a, p);
      LineEndAcross(a, b, p);
      ScanSplitTail(lm, a, b, p);
    }
  }

  /** The text of several chunks. */
  function Concat(chunks: seq<Text>): Text {
    if |chunks| == 0 then [] else Concat(chunks[..|chunks| - 1]) + chunks[|chunks| - 1]
  }

  /** Feeding chunks one after the other: `new LineNumberMap(c0)` followed by
      `addChunk(c1)`, `addChunk(c2)`, ... */
  function Feed(lm: LineNumberMap, chunks: seq<Text>): LineNumberMap {
    if |chunks| == 0 then lm else AddChunk(Feed(lm, chunks[..|chunks| - 1]), chunks[|chunks| - 1])
  }

  /** One chunk is indexed as the whole text, whatever it holds: the
      conditions of `ChunkedAgrees` are sufficient, not necessary. */
  lemma SingleChunkAgrees(chunk: Text)
    ensures Feed(Empty, [chunk]) == New(chunk)
  {
    assert [chunk][..0] == [];
  }

  /** No chunk boundary falls between the CR and the LF of a CRLF. */
  predicate KeepsCrLf(chunks: seq<Text>) {
    forall i :: 0 < i < |chunks| ==> !SplitsCrLf(Concat(chunks[..i]), chunks[i])
  }

  /** Indexing text chunk by chunk gives the same map as indexing it in one
      go, so a line spanning chunks is one interval from its true start. This
      needs the text to hold no LS or PS, and no boundary splitting a CRLF. */
  lemma {:induction false} ChunkedAgrees(chunks: seq<Text>)
    requires |chunks| > 0 && NoSeparators(Concat(chunks)) && KeepsCrLf(chunks)
    ensures Feed(Empty, chunks) == New(Concat(chunks))
    decreases |chunks|
  {
    var n := |chunks| - 1;
    var init := chunks[..n];
    var a := Concat(init);
    assert Concat(chunks) == a + chunks[n];
    assert Feed(Empty, chunks) == AddChunk(Feed(Empty, init), chunks[n]);
    if n == 0 {
      assert a == [];
      assert Concat(chunks) == chunks[0];
      assert Feed(Empty, init) == Empty;
    } else {
      NoSeparatorsPrefix(a, chunks[n]);
      assert KeepsCrLf(init) by {
        forall i | 0 < i < |init| ensures !SplitsCrLf(Concat(init[..i]), init[i]) {
          assert init[..i] == chunks[..i];
        }
      }
      ChunkedAgrees(init);
      assert a[0..] == a;
      assert chunks[..n] == init;
      assert !SplitsCrLf(a, chunks[n]);
      ScanSplit(Empty, a, chunks[n], 0);
    }
  }

  lemma NoSeparatorsPrefix(a: Text, b: Text)
    requires NoSeparators(a + b)
    ensures NoSeparators(a)
  {
    forall k | 0 <= k < |a| ensures !IsSeparator(a[k]) { assert a[k] == (a + b)[k]; }
  }

  /** Without LS or PS ahead, scanning records one line per break. */
  lemma {:induction false} ScanCounts(lm: LineNumberMap, chunk: Text, p: nat)
    requires p <= |chunk| && NoSeparators(chunk[p..])
    ensures Scan(lm, chunk, p).lineNumber == lm.lineNumber + CountBreaks(chunk[p..])
    ensures |Scan(lm, chunk, p).intervals| == |lm.intervals| + CountBreaks(chunk[p..])
    decreases |chunk| - p
  {
    match LineEnd(chunk, p)
    case Some(e) =>
      assert CountBreaks(chunk[p..]) == 1 + CountBreaks(chunk[e..]) by {
        LineEndFacts(chunk, p);
        assert chunk[p..] == chunk[p..e] + chunk[e..];
        assert chunk[p..e][e - p - 1] == chunk[..e][e - 1];
        CountBreaksConcat(chunk[p..e], chunk[e..]);
      }
      NoSeparatorsSuffix(chunk, p, e);
      ScanStep(lm, chunk, p, e);
      ScanCounts(Insert(lm, e - p), chunk, e);
    case None =>
      ScanLast(lm, chunk, p);
      LineEndNoneNoBreaks(chunk, p);
  }

  /** `lineNumber` is one more than the breaks `\r\n|\r|\n` of a text indexed
      in one go, a CRLF counting once, when it holds no LS or PS. */
  lemma LineNumberCountsBreaks(t: Text)
    requires NoSeparators(t)
    ensures New(t).lineNumber == 1 + CountBreaks(t)
    ensures |New(t).intervals| == CountBreaks(t)
  {
    assert t[0..] == t;
    ScanCounts(Empty, t, 0);
  }

  /** An LS or PS before the next CR or LF stops the scan of the chunk: the
      rest of it is added to the unterminated last line. */
  lemma SeparatorEndsScan(lm: LineNumberMap, chunk: Text, p: nat, q: nat)
    requires p <= q < |chunk| && IsSeparator(chunk[q])
    requires forall k :: p <= k < q ==> !IsNewline(chunk[k])
    ensures Scan(lm, chunk, p) ==
      lm.(lastLineLengthFromPrevChunks := lm.lastLineLengthFromPrevChunks + (|chunk| - p))
  {
  }

  /** A chunk boundary between CR and LF records the CRLF as two lines:
      "a\r" then "\nb" reaches line 3 where "a\r\nb" reaches line 2. */
  lemma SplitCrLfCounterexample()
    ensures Feed(Empty, [[0x61, CR], [LF, 0x62]]).lineNumber == 3
    ensures New([0x61, CR, LF, 0x62]).lineNumber == 2
  {
    var t: Text := [0x61, CR];
    var u: Text := [LF, 0x62];
    var w: Text := [0x61, CR, LF, 0x62];
    var chunks: seq<Text> := [t, u];
    assert chunks[..1] == [t] && [t][..0] == [];
    assert Feed(Empty, [t]) == AddChunk(Feed(Empty, []), t);
    assert New(t) == AddChunk(Empty, t);
    assert Feed(Empty, chunks) == AddChunk(New(t), u);
    assert CountBreaks(t) == 1 by {
      var cr: Text := [CR];
      assert BreakLength(cr, 0) == 1 && cr[1..] == [];
      assert CountBreaks(cr) == 1;
      assert !IsNewline(t[0]) && t[1..] == cr;
    }
    assert CountBreaks(u) == 1 by {
      assert BreakLength(u, 0) == 1 && u[1..] == [0x62];
      assert [0x62 as Unit][1..] == [];
    }
    assert CountBreaks(w) == 1 by {
      assert w[1..] == [CR, LF, 0x62];
      assert BreakLength(w[1..], 0) == 2 && w[1..][2..] == [0x62];
      assert [0x62 as Unit][1..] == [];
    }
    assert NoSeparators(t) && NoSeparators(u) && NoSeparators(w);
    LineNumberCountsBreaks(t);
    LineNumberCountsBreaks(w);
    assert u[0..] == u;
    ScanCounts(New(t), u, 0);
  }

  /** An LS ahead of a line's break hides that break when the text comes in
      one chunk, but not when the LS ends an earlier chunk: "a<LS>\n" then
      "b\n" reaches line 2, the same text in one chunk only line 1. */
  lemma SeparatorCounterexample()
    ensures Feed(Empty, [[0x61, LS, LF], [0x62, LF]]).lineNumber == 2
    ensures New([0x61, LS, LF, 0x62, LF]).lineNumber == 1
  {
    var t: Text := [0x61, LS, LF];
    var u: Text := [0x62, LF];
    var chunks: seq<Text> := [t, u];
    assert chunks[..1] == [t] && [t][..0] == [];
    assert Feed(Empty, [t]) == AddChunk(Feed(Empty, []), t);
    assert New(t) == AddChunk(Empty, t);
    assert Feed(Empty, chunks) == AddChunk(New(t), u);
    SeparatorEndsScan(Empty, t, 0, 1);
    assert CountBreaks(u) == 1 by {
      var lf: Text := [LF];
      assert BreakLength(lf, 0) == 1 && lf[1..] == [];
      assert CountBreaks(lf) == 1;
      assert !IsNewline(u[0]) && u[1..] == lf;
    }
    assert NoSeparators(u);
    assert u[0..] == u;
    ScanCounts(New(t), u, 0);
    SeparatorEndsScan(Empty, [0x61, LS, LF, 0x62, LF], 0, 1);
  }

  // ---------------------------------------------------------------------
  // Queries against a direct reading of the text

  /** Offset `o` of `t` sits between the CR and the LF of a CRLF. */
  predicate InsideCrLf(t: Text, o: nat)
    requires o <= |t|
  {
    SplitsCrLf(t[..o], t[o..])
  }

  /** The queries answer, for every offset of `t` below `hi` that is not
      inside a CRLF, one more than the breaks before it, and one more than its
      distance from the end of the last break before it. */
  ghost predicate AgreesBelow(lm: LineNumberMap, t: Text, hi: int) {
    forall o: nat :: o < hi && o <= |t| && !InsideCrLf(t, o) ==>
      && GetLineNumberForOffset(lm, o) == 1 + CountBreaks(t[..o])
      && GetColumnForOffset(lm, o) == o - LastBreakEnd(t[..o]) + 1
  }

  /** A scan of `t` in one go that has reached line start `p`. */
  ghost predicate ScannedTo(lm: LineNumberMap, t: Text, p: nat) {
    && p <= |t|
    && lm.lastLineStart == p && lm.lastLineLengthFromPrevChunks == 0
    && Tiles(lm.intervals, p)
    && lm.lineNumber == |lm.intervals| + 1 == 1 + CountBreaks(t[..p])
    && LastBreakEnd(t[..p]) == p
    && !InsideCrLf(t, p)
    && AgreesBelow(lm, t, p)
  }

  /** An interval appended after the tiled ones does not change what `Find`
      answers below their end. */
  lemma FindFrame(ivs: seq<Interval>, x: Interval, p: int, o: int)
    requires Tiles(ivs, p) && 0 <= o < p
    ensures Find(ivs + [x], o) == Find(ivs, o)
  {
    TilesCover(ivs, p, o);
    var k :| 0 <= k < |ivs| && ivs[k].low <= o <= ivs[k].high;
    assert (ivs + [x])[k] == ivs[k];
    var j := Find(ivs + [x], o).value;
    assert (ivs + [x])[j] == ivs[j];
    var i := Find(ivs, o).value;
    assert (ivs + [x])[i] == ivs[i];
  }

  /** Offsets from the end of the tiled intervals on lie in none of them. */
  lemma FindBeyond(ivs: seq<Interval>, p: int, o: int)
    requires Tiles(ivs, p) && o >= p
    ensures Find(ivs, o).None?
  {
    forall k | 0 <= k < |ivs| ensures ivs[k].high < p {
      if k < |ivs| - 1 { TilesOrdered(ivs, p, k, |ivs| - 1); }
    }
  }

  /** Text without CR or LF, after a point that is not inside a CRLF, adds
      no break and leaves the last break where it was. */
  lemma NoBreaksAfter(t: Text, p: nat, o: nat)
    requires p <= o <= |t| && !InsideCrLf(t, p)
    requires forall k :: p <= k < o ==> !IsNewline(t[k])
    ensures CountBreaks(t[..o]) == CountBreaks(t[..p])
    ensures LastBreakEnd(t[..o]) == LastBreakEnd(t[..p])
  {
    var mid := t[p..o];
    assert t[..o] == t[..p] + mid;
    forall k | 0 <= k < |mid| ensures !IsNewline(mid[k]) { assert mid[k] == t[p + k]; }
    assert IndexWhere(mid, 0, IsNewline) == |mid|;
    CountBreaksZero(mid);
    if |mid| > 0 { assert mid[0] == t[p..][0]; }
    CountBreaksConcat(t[..p], mid);
    LastBreakEndConcat(t[..p], mid);
  }

  lemma InsertTiles(lm: LineNumberMap, p: nat, e: nat)
    requires Tiles(lm.intervals, p) && lm.lastLineStart == p && lm.lastLineLengthFromPrevChunks == 0
    requires lm.lineNumber == |lm.intervals| + 1 && p < e
    ensures Tiles(Insert(lm, e - p).intervals, e)
  {
  }

  /** Below the new line's start, the queries answer as before. */
  lemma InsertKeepsAnswers(lm: LineNumberMap, p: nat, e: nat, o: int)
    requires Tiles(lm.intervals, p) && lm.lastLineStart == p && 0 <= o < p <= e
    ensures GetLineNumberForOffset(Insert(lm, e - p), o) == GetLineNumberForOffset(lm, o)
    ensures GetColumnForOffset(Insert(lm, e - p), o) == GetColumnForOffset(lm, o)
  {
    var ivs := lm.intervals;
    var x := Insert(lm, e - p).intervals[|ivs|];
    assert Insert(lm, e - p).intervals == ivs + [x];
    FindFrame(ivs, x, p, o);
    TilesCover(ivs, p, o);
    var k := Find(ivs, o).value;
    assert (ivs + [x])[k] == ivs[k];
  }

  /** On the new line, the queries answer its number and the distance from
      its start, which the direct reading agrees with. */
  lemma InsertAnswersNewLine(lm: LineNumberMap, t: Text, p: nat, e: nat, o: nat)
    requires ScannedTo(lm, t, p) && LineEnd(t, p) == Some(e)
    requires p <= o < e && !InsideCrLf(t, o)
    ensures GetLineNumberForOffset(Insert(lm, e - p), o) == 1 + CountBreaks(t[..o])
    ensures GetColumnForOffset(Insert(lm, e - p), o) == o - LastBreakEnd(t[..o]) + 1
  {
    var ivs := lm.intervals;
    var x := Interval(p, e - 1, lm.lineNumber);
    assert Insert(lm, e - p).intervals == ivs + [x];
    FindNewLine(ivs, x, p, o);
    LineBodyHasNoBreak(t, p, e, o);
    NoBreaksAfter(t, p, o);
  }

  /** An offset inside an interval appended right after the tiled ones is
      found in that interval. */
  lemma FindNewLine(ivs: seq<Interval>, x: Interval, p: int, o: int)
    requires Tiles(ivs, p) && x.low == p && p <= o <= x.high
    ensures Find(ivs + [x], o) == Some(|ivs|)
  {
    FindBeyond(ivs, p, o);
    assert (ivs + [x])[|ivs|] == x;
    forall k | 0 <= k < |ivs| ensures !((ivs + [x])[k].low <= o <= (ivs + [x])[k].high) {
      assert (ivs + [x])[k] == ivs[k];
    }
  }

  /** Before the break that ends the line found at `p`, the line holds no CR
      or LF, short of the LF of its own CRLF. */
  lemma LineBodyHasNoBreak(t: Text, p: nat, e: nat, o: nat)
    requires p <= |t| && LineEnd(t, p) == Some(e)
    requires p <= o < e && !InsideCrLf(t, o)
    ensures forall k :: p <= k < o ==> !IsNewline(t[k])
  {
    var q := IndexWhere(t, p, IsLineTerminator);
    if BreakLength(t, q) == 2 {
      assert InsideCrLf(t, q + 1) by {
        assert t[..q + 1][q] == t[q] && t[q + 1..][0] == t[q + 1];
      }
    }
    assert o <= q;
  }

  /** Recording the line found at `p` moves the scan to the line's end with
      its counters in step with the text. */
  lemma ScanAgreesLineCounters(lm: LineNumberMap, t: Text, p: nat, e: nat)
    requires ScannedTo(lm, t, p) && LineEnd(t, p) == Some(e)
    ensures var lm' := Insert(lm, e - p);
            && e <= |t|
            && lm'.lastLineStart == e && lm'.lastLineLengthFromPrevChunks == 0
            && Tiles(lm'.intervals, e)
            && lm'.lineNumber == |lm'.intervals| + 1 == 1 + CountBreaks(t[..e])
            && LastBreakEnd(t[..e]) == e
            && !InsideCrLf(t, e)
  {
    LineEndBreaks(t, p, e);
    InsertTiles(lm, p, e);
  }

  /** The prefix up to a line's end holds one more break than the prefix up
      to its start, and ends right after a break that is not split. */
  lemma LineEndBreaks(t: Text, p: nat, e: nat)
    requires p <= |t| && !InsideCrLf(t, p) && LineEnd(t, p) == Some(e)
    ensures e <= |t| && !InsideCrLf(t, e)
    ensures CountBreaks(t[..e]) == CountBreaks(t[..p]) + 1
    ensures LastBreakEnd(t[..e]) == e
  {
    LineEndFacts(t, p);
    LineEndCount(t, p, e);
    assert LastBreakEnd(t[..e]) == e by {
      assert t[..e][e - 1] == t[e - 1];
    }
  }

  lemma LineEndCount(t: Text, p: nat, e: nat)
    requires p <= e <= |t| && !InsideCrLf(t, p) && CountBreaks(t[p..e]) == 1
    ensures CountBreaks(t[..e]) == CountBreaks(t[..p]) + 1
  {
    var a, b := t[..p], t[p..e];
    assert !SplitsCrLf(a, b) by {
      if p < e {
        assert b[0] == t[p..][0];
      }
    }
    assert t[..e] == a + b;
    CountBreaksConcat(a, b);
  }

  /** Every offset below the recorded line's end is answered as the direct
      reading says. */
  lemma ScanAgreesLineAnswers(lm: LineNumberMap, t: Text, p: nat, e: nat)
    requires ScannedTo(lm, t, p) && LineEnd(t, p) == Some(e)
    ensures AgreesBelow(Insert(lm, e - p), t, e)
  {
    var lm' := Insert(lm, e - p);
    forall o: nat | o < e && o <= |t| && !InsideCrLf(t, o)
      ensures GetLineNumberForOffset(lm', o) == 1 + CountBreaks(t[..o])
      ensures GetColumnForOffset(lm', o) == o - LastBreakEnd(t[..o]) + 1
    {
      if o < p {
        InsertKeepsAnswers(lm, p, e, o);
      } else {
        InsertAnswersNewLine(lm, t, p, e, o);
      }
    }
  }

  lemma ScanAgreesLine(lm: LineNumberMap, t: Text, p: nat, e: nat)
    requires ScannedTo(lm, t, p) && LineEnd(t, p) == Some(e)
    ensures ScannedTo(Insert(lm, e - p), t, e)
  {
    ScanAgreesLineCounters(lm, t, p, e);
    ScanAgreesLineAnswers(lm, t, p, e);
  }

  /** Once the line regex fails, every offset from the last line's start on
      is on the last line. */
  lemma ScanAgreesLast(lm: LineNumberMap, t: Text, p: nat)
    requires ScannedTo(lm, t, p) && NoSeparators(t[p..]) && LineEnd(t, p).None?
    ensures AgreesBelow(Scan(lm, t, p), t, |t| + 1)
  {
    LineEndNoneNoBreaks(t, p);
    var end := Scan(lm, t, p);
    assert end.intervals == lm.intervals && end.lastLineStart == p && end.lineNumber == lm.lineNumber;
    forall o: nat | o <= |t| && !InsideCrLf(t, o)
      ensures GetLineNumberForOffset(end, o) == 1 + CountBreaks(t[..o])
      ensures GetColumnForOffset(end, o) == o - LastBreakEnd(t[..o]) + 1
    {
      if o >= p {
        forall k | p <= k < o ensures !IsNewline(t[k]) { assert t[p..][k - p] == t[k]; }
        NoBreaksAfter(t, p, o);
        FindBeyond(lm.intervals, p, o);
      }
    }
  }

  /** The rest of a text without LS or PS from a later offset on has none
      either. */
  lemma NoSeparatorsSuffix(t: Text, p: nat, e: nat)
    requires p <= e <= |t| && NoSeparators(t[p..])
    ensures NoSeparators(t[e..])
  {
    assert t[e..] == t[p..][e - p..];
  }

  /** Scanning `t` from a line start `p` agrees with a direct reading of the
      whole text. */
  lemma {:induction false} ScanAgrees(lm: LineNumberMap, t: Text, p: nat)
    requires ScannedTo(lm, t, p) && NoSeparators(t[p..])
    ensures AgreesBelow(Scan(lm, t, p), t, |t| + 1)
    decreases |t| - p
  {
    var r := LineEnd(t, p);
    if r.Some? {
      var e := r.value;
      ScanAgreesLine(lm, t, p, e);
      ScanStep(lm, t, p, e);
      NoSeparatorsSuffix(t, p, e);
      ScanAgrees(Insert(lm, e - p), t, e);
    } else {
      ScanAgreesLast(lm, t, p);
    }
  }

  /** For a text indexed in one go without LS or PS, the line of an offset
      is one more than the breaks before it, and its column one more than its
      distance from the end of the last of them; an offset between the CR
      and the LF of a CRLF already belongs to the CRLF's line. */
  lemma QueriesCountBreaks(t: Text, o: nat)
    requires NoSeparators(t) && o <= |t| && !InsideCrLf(t, o)
    ensures GetLineNumberForOffset(New(t), o) == 1 + CountBreaks(t[..o])
    ensures GetColumnForOffset(New(t), o) == o - LastBreakEnd(t[..o]) + 1
  {
    assert t[..0] == [] && t[0..] == t;
    assert ScannedTo(Empty, t, 0);
    ScanAgrees(Empty, t, 0);
  }

  /** A line without breaks, its LF and the rest hold one break more than the
      rest. */
  lemma {:induction false} CountBreaksLine(w: Text, rest: Text)
    requires forall k :: 0 <= k < |w| ==> !IsNewline(w[k])
    ensures CountBreaks(w + [LF] + rest) == 1 + CountBreaks(rest)
    decreases |w|
  {
    if |w| == 0 {
      assert [] + [LF] + rest == [LF] + rest;
      assert ([LF] + rest)[1..] == rest;
    } else {
      CountBreaksLine(w[1..], rest);
      assert (w + [LF] + rest)[1..] == w[1..] + [LF] + rest;
    }
  }

  /** The text of the library's worked example, line by line. */
  function ExampleText(): Text {
    Lit("one") + [LF] + (Lit("two") + [LF] + (Lit("three") + [LF] + (Lit("four") + [LF] + Lit("five"))))
  }

  lemma ExampleTextIsLiteral()
    ensures Lit("one\ntwo\nthree\nfour\nfive") == ExampleText()
  {
    var t, e := Lit("one\ntwo\nthree\nfour\nfive"), ExampleText();
    assert |t| == |e| == 23;
    forall k | 0 <= k < 23 ensures t[k] == e[k] {
    }
  }

  /** The worked example of the library's tests: in "one\ntwo\nthree\nfour\nfive",
      offsets 0, 1, 4 and 20 lie on lines 1, 1, 2 and 5. */
  lemma LineNumberExample()
    ensures GetLineNumberForOffset(New(Lit("one\ntwo\nthree\nfour\nfive")), 0) == 1
    ensures GetLineNumberForOffset(New(Lit("one\ntwo\nthree\nfour\nfive")), 1) == 1
    ensures GetLineNumberForOffset(New(Lit("one\ntwo\nthree\nfour\nfive")), 4) == 2
    ensures GetLineNumberForOffset(New(Lit("one\ntwo\nthree\nfour\nfive")), 20) == 5
  {
    ExampleTextIsLiteral();
    ExampleNoSeparators();
    ExampleFirstLine();
    ExampleSecondLine();
    ExampleFifthLine();
    var t := ExampleText();
    QueriesCountBreaks(t, 0);
    QueriesCountBreaks(t, 1);
    QueriesCountBreaks(t, 4);
    QueriesCountBreaks(t, 20);
  }

  lemma ExampleNoSeparators()
    ensures NoSeparators(ExampleText())
  {
    var lf: Text := [LF];
    assert NoSeparators(lf);
    AsciiNoSeparators("one");
    AsciiNoSeparators("two");
    AsciiNoSeparators("three");
    AsciiNoSeparators("four");
    AsciiNoSeparators("five");
    var r4 := Lit("four") + lf + Lit("five");
    NoSeparatorsJoin(Lit("four"), lf);
    NoSeparatorsJoin(Lit("four") + lf, Lit("five"));
    var r3 := Lit("three") + lf + r4;
    NoSeparatorsJoin(Lit("three"), lf);
    NoSeparatorsJoin(Lit("three") + lf, r4);
    var r2 := Lit("two") + lf + r3;
    NoSeparatorsJoin(Lit("two"), lf);
    NoSeparatorsJoin(Lit("two") + lf, r3);
    NoSeparatorsJoin(Lit("one"), lf);
    NoSeparatorsJoin(Lit("one") + lf, r2);
  }

  /** The literal of an ASCII string holds no separator. */
  lemma AsciiNoSeparators(s: string)
    requires forall k :: 0 <= k < |s| ==> s[k] as int < 0x80
    ensures NoSeparators(Lit(s))
  {
  }

  lemma NoSeparatorsJoin(a: Text, b: Text)
    requires NoSeparators(a) && NoSeparators(b)
    ensures NoSeparators(a + b)
  {
    forall k | 0 <= k < |a + b| ensures !IsSeparator((a + b)[k]) {
      if k >= |a| { assert (a + b)[k] == b[k - |a|]; }
    }
  }

  lemma ExampleFirstLine()
    ensures CountBreaks(ExampleText()[..0]) == 0 && !InsideCrLf(ExampleText(), 0)
    ensures CountBreaks(ExampleText()[..1]) == 0 && !InsideCrLf(ExampleText(), 1)
  {
    var t := ExampleText();
    assert t[..0] == [];
    assert t[..1] == [t[0]] && t[0] == Lit("one")[0];
  }

  lemma ExampleSecondLine()
    ensures CountBreaks(ExampleText()[..4]) == 1 && !InsideCrLf(ExampleText(), 4)
  {
    var t, w1 := ExampleText(), Lit("one");
    assert t[..4] == w1 + [LF] + [];
    CountBreaksLine(w1, []);
  }

  lemma ExampleFifthLine()
    ensures CountBreaks(ExampleText()[..20]) == 4 && !InsideCrLf(ExampleText(), 20)
  {
    var t := ExampleText();
    var w1, w2, w3, w4, w5 := Lit("one"), Lit("two"), Lit("three"), Lit("four"), Lit("five");
    var r4 := w4 + [LF] + [w5[0]];
    var r3 := w3 + [LF] + r4;
    var r2 := w2 + [LF] + r3;
    assert t[..20] == w1 + [LF] + r2;
    assert CountBreaks([w5[0]]) == 0;
    CountBreaksLine(w4, [w5[0]]);
    CountBreaksLine(w3, r4);
    CountBreaksLine(w2, r3);
    CountBreaksLine(w1, r2);
  }
}
