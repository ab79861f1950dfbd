/** `DataProcessor.chunk_document`: a window of `chunk_size` characters
    slides over the text, each window starting `overlap` characters before
    the previous one ended. */
module Chunker {
  import opened Common

  /** Python's reading of a slice bound: a negative bound counts from the
      end, and the result is clipped to `[0, n]`. */
  function SliceBound(i: int, n: nat): (b: nat)
    ensures b <= n
  {
    if i < 0 then (if i + n < 0 then 0 else i + n) else if i > n then n else i
  }

  /** `s[i:j]`. */
  function PySlice(s: string, i: int, j: int): (r: string)
    ensures |r| <= |s|
  {
    var a := SliceBound(i, |s|);
    var b := SliceBound(j, |s|);
    if a < b then s[a..b] else []
  }

  function Min(a: int, b: int): int {
    if a <= b then a else b
  }

  /** The loop stops on `text`: it is empty, or every pass moves the start
      forward without ever stepping back before the previous window's end. */
  predicate Terminates(n: nat, chunkSize: int, overlap: int) {
    n == 0 || (overlap <= 0 && 0 < chunkSize - overlap)
  }

  /** The start after a window starting at `start`: `end - overlap`. */
  function NextStart(start: int, n: nat, chunkSize: int, overlap: int): int {
    Min(start + chunkSize, n) - overlap
  }

  /** The value of `start` after `k` passes, had the loop no exit test. */
  function StartAfter(k: nat, n: nat, chunkSize: int, overlap: int): int {
    if k == 0 then 0 else NextStart(StartAfter(k - 1, n, chunkSize, overlap), n, chunkSize, overlap)
  }

  /** Outside `Terminates`, `start` stays below `len(text)` forever: with a
      positive overlap it falls back to `len(text) - overlap` once a
      window reaches the end, and with a step of at most zero it never
      moves forward. */
  lemma {:induction false} LoopNeverExits(n: nat, chunkSize: int, overlap: int, k: nat)
    requires !Terminates(n, chunkSize, overlap)
    ensures StartAfter(k, n, chunkSize, overlap) < n
  {
    if k > 0 {
      LoopNeverExits(n, chunkSize, overlap, k - 1);
      var s := StartAfter(k - 1, n, chunkSize, overlap);
      if overlap <= 0 {
        assert NextStart(s, n, chunkSize, overlap) <= s + chunkSize - overlap;
      }
    }
  }

  /** The number of windows: the starts `0, step, 2*step, ...` below `n`. */
  function ChunkCount(n: int, step: int): nat
    requires step > 0
    decreases n
  {
    if n <= 0 then 0 else 1 + ChunkCount(n - step, step)
  }

  lemma {:induction false} ChunkCountSpec(n: int, step: int, k: nat)
    requires step > 0
    ensures k < ChunkCount(n, step) <==> k * step < n
    decreases n
  {
    if n > 0 && k > 0 {
      ChunkCountSpec(n - step, step, k - 1);
      assert k * step == (k - 1) * step + step;
    }
  }

  /** Window `k`: from `k * step` to `min(k * step + chunk_size, len(text))`. */
  function ChunkAt(text: string, chunkSize: int, overlap: int, k: nat): string {
    var start := k * (chunkSize - overlap);
    PySlice(text, start, Min(start + chunkSize, |text|))
  }

  /** All the windows of a terminating call. */
  function Chunks(text: string, chunkSize: int, overlap: int): (r: seq<string>)
    requires Terminates(|text|, chunkSize, overlap)
  {
    if |text| == 0 then []
    else
      var count := ChunkCount(|text|, chunkSize - overlap);
      seq(count, k requires 0 <= k < count => ChunkAt(text, chunkSize, overlap, k))
  }

  /** `chunk_document(text, chunk_size, overlap)`, for the arguments on which
      it returns. */
  method ChunkDocument(text: string, chunkSize: int, overlap: int) returns (chunks: seq<string>)
    requires Terminates(|text|, chunkSize, overlap)
    ensures chunks == Chunks(text, chunkSize, overlap)
  {
    chunks := [];
    var start := 0;
    var step := chunkSize - overlap;
    while start < |text|
      invariant |text| > 0 ==> step > 0
      invariant |text| == 0 ==> chunks == [] && start == 0
      invariant start >= 0
      invariant |text| > 0 && start < |text| ==> start == |chunks| * step
      invariant |text| > 0 && start >= |text| ==> |chunks| * step >= |text|
      invariant |text| > 0 && |chunks| > 0 ==> (|chunks| - 1) * step < |text|
      invariant forall k :: 0 <= k < |chunks| ==> chunks[k] == ChunkAt(text, chunkSize, overlap, k)
      decreases |text| - start
    {
      var end := start + chunkSize;
      if end > |text| {
        end := |text|;
      }
      assert PySlice(text, start, end) == ChunkAt(text, chunkSize, overlap, |chunks|);
      MulStep(|chunks| + 1, step);
      chunks := chunks + [PySlice(text, start, end)];
      start := end - overlap;
    }
    if |text| > 0 {
      ChunkCountSpec(|text|, step, |chunks|);
      if |chunks| > 0 {
        ChunkCountSpec(|text|, step, |chunks| - 1);
      }
    }
  }

  /** Empty text has no windows. */
  lemma EmptyTextNoChunks(chunkSize: int, overlap: int)
    ensures Chunks("", chunkSize, overlap) == []
  {
  }

  /** With a non-negative size, window `k` is the contiguous slice starting
      at `k * step` and at most `chunk_size` long. */
  lemma ChunkIsSlice(text: string, chunkSize: int, overlap: int, k: nat)
    requires Terminates(|text|, chunkSize, overlap) && chunkSize >= 0
    requires k < |Chunks(text, chunkSize, overlap)|
    ensures var start := k * (chunkSize - overlap);
      && 0 <= start < |text|
      && Chunks(text, chunkSize, overlap)[k] == text[start..Min(start + chunkSize, |text|)]
      && |Chunks(text, chunkSize, overlap)[k]| <= chunkSize
  {
    ChunkCountSpec(|text|, chunkSize - overlap, k);
  }

  /** Without overlap, the first `k` windows spell out the first `k * size`
      characters (or the whole text). */
  lemma {:induction false} ConcatPrefix(text: string, chunkSize: int, k: nat)
    requires chunkSize > 0 && |text| > 0 && k <= ChunkCount(|text|, chunkSize)
    ensures Concat(Chunks(text, chunkSize, 0)[..k]) == text[..Min(k * chunkSize, |text|)]
  {
    var cs := Chunks(text, chunkSize, 0);
    if k == 0 {
      assert cs[..0] == [];
    } else {
      var start := (k - 1) * chunkSize;
      var end := Min(start + chunkSize, |text|);
      ConcatPrefix(text, chunkSize, k - 1);
      ChunkIsSlice(text, chunkSize, 0, k - 1);
      MulStep(k, chunkSize);
      ConcatSnoc(cs, k, text[..start], text[start..end]);
      assert text[..start] + text[start..end] == text[..end];
    }
  }

  lemma MulStep(k: int, c: int)
    ensures k * c == (k - 1) * c + c
  {
  }

  lemma ConcatSnoc(cs: seq<string>, k: nat, a: string, b: string)
    requires 0 < k <= |cs| && Concat(cs[..k - 1]) == a && cs[k - 1] == b
    ensures Concat(cs[..k]) == a + b
  {
    assert cs[..k][..k - 1] == cs[..k - 1];
  }

  /** Without overlap the windows put back together give the text, and there
      are `ceil(len(text) / chunk_size)` of them: the fewest windows of
      `chunk_size` that cover it. */
  lemma ChunksConcatenate(text: string, chunkSize: int)
    requires chunkSize > 0
    ensures Concat(Chunks(text, chunkSize, 0)) == text
    ensures var count := |Chunks(text, chunkSize, 0)|;
      count * chunkSize >= |text| && (count == 0 || (count - 1) * chunkSize < |text|)
  {
    if |text| > 0 {
      var count := ChunkCount(|text|, chunkSize);
      ConcatPrefix(text, chunkSize, count);
      ChunkCountSpec(|text|, chunkSize, count);
      ChunkCountSpec(|text|, chunkSize, count - 1);
      assert Chunks(text, chunkSize, 0)[..count] == Chunks(text, chunkSize, 0);
    }
  }

  /** Without overlap the last window ends at the end of the text. */
  lemma LastChunkEndsText(text: string, chunkSize: int)
    requires chunkSize > 0 && |text| > 0
    ensures var k := |Chunks(text, chunkSize, 0)| - 1;
      k >= 0 && Min(k * chunkSize + chunkSize, |text|) == |text|
  {
    var count := ChunkCount(|text|, chunkSize);
    ChunkCountSpec(|text|, chunkSize, count);
    ChunkCountSpec(|text|, chunkSize, 0);
    assert count * chunkSize == (count - 1) * chunkSize + chunkSize;
  }

  /** A negative overlap leaves gaps and can drop the tail: windows of 3
      every 5 characters of a 10-character text stop at index 8. */
  lemma GapsExample()
    ensures Chunks("abcdefghij", 3, -2) == ["abc", "fgh"]
  {
    var cs := Chunks("abcdefghij", 3, -2);
    assert ChunkCount(10, 5) == 2;
    assert cs[0] == "abcdefghij"[0..3] == "abc";
    assert cs[1] == "abcdefghij"[5..8] == "fgh";
  }

  /** Without overlap the last window takes what is left. */
  lemma NoOverlapExample()
    ensures Chunks("abcdefg", 3, 0) == ["abc", "def", "g"]
  {
    var cs := Chunks("abcdefg", 3, 0);
    assert ChunkCount(7, 3) == 3;
    assert cs[0] == "abcdefg"[0..3] == "abc";
    assert cs[1] == "abcdefg"[3..6] == "def";
    assert cs[2] == "abcdefg"[6..7] == "g";
  }

  /** A negative size makes Python read the end bound as counting from the
      back, so a window can be longer than `chunk_size`, or empty. */
  lemma NegativeSizeExample()
    ensures Chunks("abcd", -1, -3) == ["abc", ""]
  {
    var cs := Chunks("abcd", -1, -3);
    assert ChunkCount(4, 2) == 2;
    assert cs[0] == "abcd"[0..3] == "abc";
    assert cs[1] == "";
  }

  // ---------------------------------------------------------------------
  // With a positive overlap the loop above never stops: once a window
  // reaches the end of the text, `start` falls back to `len(text) - overlap`.
  // The loop below is the evidently intended one: it stops after the
  // window that reaches the end.

  /** Ten characters in windows of 4 overlapping by 1: the start reaches 9
      after three passes and stays there. */
  lemma PositiveOverlapStalls()
    ensures !Terminates(10, 4, 1)
    ensures StartAfter(3, 10, 4, 1) == 9 && StartAfter(4, 10, 4, 1) == 9
  {
    assert StartAfter(1, 10, 4, 1) == 3;
    assert StartAfter(2, 10, 4, 1) == 6;
  }

  /** The number of windows when the loop stops at the one that reaches
      the end of `n` characters. */
  function CoverCount(n: int, size: int, step: int): nat
    requires step > 0
    decreases n - size
  {
    if n <= size then 1 else 1 + CoverCount(n - step, size, step)
  }

  /** Window `k` is not the last exactly when it ends before the text does. */
  lemma {:induction false} CoverCountSpec(n: int, size: int, step: int, k: nat)
    requires 0 < step <= size
    ensures k + 1 < CoverCount(n, size, step) <==> k * step + size < n
    decreases n
  {
    if n > size && k > 0 {
      CoverCountSpec(n - step, size, step, k - 1);
      MulStep(k, step);
    }
  }

  /** The windows of the corrected loop. */
  function CoveringChunks(text: string, chunkSize: int, overlap: int): seq<string>
    requires 0 <= overlap < chunkSize
  {
    if |text| == 0 then []
    else
      var count := CoverCount(|text|, chunkSize, chunkSize - overlap);
      seq(count, k requires 0 <= k < count => ChunkAt(text, chunkSize, overlap, k))
  }

  /** `chunk_document` with the loop left once a window reaches the end. */
  method ChunkDocumentStopping(text: string, chunkSize: int, overlap: int) returns (chunks: seq<string>)
    requires 0 <= overlap < chunkSize
    ensures chunks == CoveringChunks(text, chunkSize, overlap)
  {
    chunks := [];
    var start := 0;
    var step := chunkSize - overlap;
    while start < |text|
      invariant 0 <= start && (|text| > 0 ==> start < |text|)
      invariant |text| == 0 ==> chunks == []
      invariant start == |chunks| * step
      invariant |chunks| > 0 ==> (|chunks| - 1) * step + chunkSize < |text|
      invariant forall k :: 0 <= k < |chunks| ==> chunks[k] == ChunkAt(text, chunkSize, overlap, k)
      decreases |text| - start
    {
      var end := start + chunkSize;
      if end > |text| {
        end := |text|;
      }
      assert PySlice(text, start, end) == ChunkAt(text, chunkSize, overlap, |chunks|);
      if end == |text| {
        LastWindowCount(|text|, chunkSize, step, |chunks|);
        chunks := chunks + [PySlice(text, start, end)];
        CoveringFromWindows(text, chunkSize, overlap, chunks);
        break;
      }
      MulStep(|chunks| + 1, step);
      chunks := chunks + [PySlice(text, start, end)];
      start := end - overlap;
    }
  }

  /** As many windows as `CoverCount`, each the window at its index, are
      the covering windows. */
  lemma CoveringFromWindows(text: string, chunkSize: int, overlap: int, chunks: seq<string>)
    requires 0 <= overlap < chunkSize && |text| > 0
    requires |chunks| == CoverCount(|text|, chunkSize, chunkSize - overlap)
    requires forall k :: 0 <= k < |chunks| ==> chunks[k] == ChunkAt(text, chunkSize, overlap, k)
    ensures chunks == CoveringChunks(text, chunkSize, overlap)
  {
  }

  /** When window `j` is the first to reach the end, there are `j + 1` windows. */
  lemma LastWindowCount(n: int, size: int, step: int, j: nat)
    requires 0 < step <= size
    requires j * step + size >= n && (j > 0 ==> (j - 1) * step + size < n)
    ensures CoverCount(n, size, step) == j + 1
  {
    CoverCountSpec(n, size, step, j);
    if j > 0 {
      CoverCountSpec(n, size, step, j - 1);
    }
  }

  /** With a non-negative size, window `k` starting inside the text is the
      slice from its start, clipped at the end. */
  lemma ChunkAtSlice(text: string, chunkSize: int, overlap: int, k: nat)
    requires chunkSize >= 0 && 0 <= k * (chunkSize - overlap) < |text|
    ensures var start := k * (chunkSize - overlap);
      ChunkAt(text, chunkSize, overlap, k) == text[start..Min(start + chunkSize, |text|)]
  {
  }

  /** Each corrected window is the slice from its start, which lies inside
      the text. */
  lemma CoveringChunksSlice(text: string, chunkSize: int, overlap: int, k: nat)
    requires 0 <= overlap < chunkSize && |text| > 0
    requires k < |CoveringChunks(text, chunkSize, overlap)|
    ensures var start := k * (chunkSize - overlap);
      && 0 <= start < |text|
      && CoveringChunks(text, chunkSize, overlap)[k] == text[start..Min(start + chunkSize, |text|)]
  {
    CoverCountSpec(|text|, chunkSize, chunkSize - overlap, k);
    if k > 0 {
      CoverCountSpec(|text|, chunkSize, chunkSize - overlap, k - 1);
      MulStep(k, chunkSize - overlap);
    }
    ChunkAtSlice(text, chunkSize, overlap, k);
  }

  /** Every corrected window but the last ends before the text does, and the
      last one ends the text. */
  lemma CoveringChunksEnds(text: string, chunkSize: int, overlap: int, k: nat)
    requires 0 <= overlap < chunkSize && |text| > 0
    requires k < |CoveringChunks(text, chunkSize, overlap)|
    ensures var count, start := |CoveringChunks(text, chunkSize, overlap)|, k * (chunkSize - overlap);
      && (k + 1 < count ==> start + chunkSize < |text|)
      && (k + 1 == count ==> start + chunkSize >= |text|)
  {
    CoverCountSpec(|text|, chunkSize, chunkSize - overlap, k);
  }

  /** Each corrected window after the first starts `overlap` characters
      before the previous one ends. */
  lemma CoveringChunksOverlap(text: string, chunkSize: int, overlap: int, k: nat)
    requires 0 <= overlap < chunkSize && |text| > 0
    requires k + 1 < |CoveringChunks(text, chunkSize, overlap)|
    ensures var step := chunkSize - overlap;
      (k + 1) * step == Min(k * step + chunkSize, |text|) - overlap
  {
    CoverCountSpec(|text|, chunkSize, chunkSize - overlap, k);
    MulStep(k + 1, chunkSize - overlap);
  }

  /** Every character of the text lies in some corrected window. */
  lemma CoveringChunksCover(text: string, chunkSize: int, overlap: int, i: nat)
    requires 0 <= overlap < chunkSize && i < |text|
    ensures var cs, step := CoveringChunks(text, chunkSize, overlap), chunkSize - overlap;
      exists k :: 0 <= k < |cs| && k * step <= i < Min(k * step + chunkSize, |text|)
  {
    var step := chunkSize - overlap;
    var count := CoverCount(|text|, chunkSize, step);
    var k := FirstWindowPast(i, step, count);
    CoverCountSpec(|text|, chunkSize, step, k);
    MulStep(k + 1, step);
  }

  /** The last window start at or before `i`, among the first `count`. */
  function FirstWindowPast(i: nat, step: int, count: nat): (k: nat)
    requires step > 0 && count > 0
    ensures k < count && k * step <= i
    ensures k + 1 < count ==> i < (k + 1) * step
    decreases count
  {
    if count == 1 then 0
    else
      var j := FirstWindowPast(i, step, count - 1);
      if (j + 1) * step <= i then j + 1 else j
  }

  /** Without overlap, the corrected loop gives the windows of the original. */
  lemma CoveringAgreesWithoutOverlap(text: string, chunkSize: int)
    requires chunkSize > 0
    ensures CoveringChunks(text, chunkSize, 0) == Chunks(text, chunkSize, 0)
  {
    if |text| > 0 {
      CoverCountIsChunkCount(|text|, chunkSize);
    }
  }

  lemma {:induction false} CoverCountIsChunkCount(n: int, size: int)
    requires size > 0 && n > 0
    ensures CoverCount(n, size, size) == ChunkCount(n, size)
    decreases n
  {
    if n > size {
      CoverCountIsChunkCount(n - size, size);
    } else {
      assert ChunkCount(n - size, size) == 0;
    }
  }
}
