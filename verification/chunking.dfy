/** The overlapping text chunker shared by both YouTube pipelines
    (`_chunk_text`). Consecutive windows of `size` characters start
    `size - overlap` characters apart, so neighbouring chunks share `overlap`
    characters; the loop stops at the first window that reaches the end of the
    text. The loop only advances when `overlap < size`, which is therefore the
    precondition. */
module Chunking {
  import opened PyText

  /** The chunks the loop appends once `start` is its current offset. */
  function ChunksFrom(text: string, size: int, overlap: int, start: nat): (r: seq<string>)
    requires 0 <= overlap < size
    requires start < |text|
    ensures |r| >= 1
    ensures forall i :: 0 <= i < |r| ==> 0 < |r[i]| <= size
    decreases |text| - start
  {
    var end := start + size;
    var chunk := text[start..Min(end, |text|)];
    if end >= |text| then [chunk]
    else [chunk] + ChunksFrom(text, size, overlap, end - overlap)
  }

  /** `_chunk_text(text, size, overlap)`: a text that fits is one chunk;
      otherwise every chunk fits in `size` and none is empty. */
  function ChunkText(text: string, size: int, overlap: int): (r: seq<string>)
    requires 0 <= overlap < size
    ensures |r| >= 1
    ensures |text| <= size ==> r == [text]
    ensures forall i :: 0 <= i < |r| ==> |r[i]| <= size
    ensures |text| > size ==> forall i :: 0 <= i < |r| ==> |r[i]| > 0
  {
    if |text| <= size then [text] else ChunksFrom(text, size, overlap, 0)
  }

  /** Chunk `i` of the run started at `start` is the window that begins
      `i * (size - overlap)` characters later, clipped to the text; it is the
      last chunk exactly when that window reaches the end of the text. */
  lemma {:induction false} ChunksFromWindow(text: string, size: int, overlap: int, start: nat, i: nat)
    requires 0 <= overlap < size
    requires start < |text|
    requires i < |ChunksFrom(text, size, overlap, start)|
    ensures start + i * (size - overlap) < |text|
    ensures ChunksFrom(text, size, overlap, start)[i]
         == text[start + i * (size - overlap)..Min(|text|, start + i * (size - overlap) + size)]
    ensures i == |ChunksFrom(text, size, overlap, start)| - 1
        <==> start + i * (size - overlap) + size >= |text|
    decreases |text| - start
  {
    var end := start + size;
    if i > 0 {
      assert end < |text|;
      var next := end - overlap;
      ChunksFromWindow(text, size, overlap, next, i - 1);
      assert next + (i - 1) * (size - overlap) == start + i * (size - overlap) by {
        assert (i - 1) * (size - overlap) + (size - overlap) == i * (size - overlap);
      }
    }
  }

  /** Chunk `i` of `_chunk_text` on a text longer than `size` is
      `text[i*(size-overlap) : i*(size-overlap)+size]`, and every chunk but the
      last is a full window that stops short of the end of the text. */
  lemma ChunkTextWindow(text: string, size: int, overlap: int, i: nat)
    requires 0 <= overlap < size
    requires |text| > size
    requires i < |ChunkText(text, size, overlap)|
    ensures 0 <= i * (size - overlap) < |text|
    ensures ChunkText(text, size, overlap)[i]
         == text[i * (size - overlap)..Min(|text|, i * (size - overlap) + size)]
    ensures i < |ChunkText(text, size, overlap)| - 1
        <==> i * (size - overlap) + size < |text|
  {
    var w := i * (size - overlap);
    assert 0 <= w by { NonNegativeProduct(i, size - overlap); }
    ChunksFromWindow(text, size, overlap, 0, i);
  }

  lemma NonNegativeProduct(a: nat, b: nat)
    ensures 0 <= a * b
  {
  }

  /** The first chunk is the first window, and the last chunk ends at the end
      of the text. */
  lemma ChunkTextEnds(text: string, size: int, overlap: int)
    requires 0 <= overlap < size
    requires |text| > size
    ensures var r := ChunkText(text, size, overlap);
      && r[0] == text[..size]
      && (|r| - 1) * (size - overlap) + |r[|r| - 1]| == |text|
  {
    var r := ChunkText(text, size, overlap);
    ChunksFromWindow(text, size, overlap, 0, 0);
    ChunksFromWindow(text, size, overlap, 0, |r| - 1);
  }

  /** `s` without its first `k` characters (empty when `s` is shorter). */
  function DropPrefix(s: string, k: nat): string {
    if k <= |s| then s[k..] else ""
  }

  /** Every chunk with its first `k` characters dropped, concatenated. */
  function ConcatDropped(cs: seq<string>, k: nat): string {
    if |cs| == 0 then "" else DropPrefix(cs[0], k) + ConcatDropped(cs[1..], k)
  }

  /** The first chunk followed by each later chunk minus the `overlap`
      characters it shares with its predecessor. */
  function Stitch(cs: seq<string>, overlap: nat): string
    requires |cs| >= 1
  {
    cs[0] + ConcatDropped(cs[1..], overlap)
  }

  lemma {:induction false} ConcatDroppedFrom(text: string, size: int, overlap: int, start: nat)
    requires 0 <= overlap < size
    requires start + overlap < |text|
    ensures ConcatDropped(ChunksFrom(text, size, overlap, start), overlap) == text[start + overlap..]
    decreases |text| - start
  {
    var end := start + size;
    var stop := Min(end, |text|);
    var chunk := text[start..stop];
    DropSlice(text, start, stop, overlap);
    if end >= |text| {
      assert ChunksFrom(text, size, overlap, start) == [chunk];
      ConcatDroppedCons(chunk, [], overlap);
    } else {
      var next := end - overlap;
      var rest := ChunksFrom(text, size, overlap, next);
      assert ChunksFrom(text, size, overlap, start) == [chunk] + rest;
      ConcatDroppedCons(chunk, rest, overlap);
      ConcatDroppedFrom(text, size, overlap, next);
      assert next + overlap == end;
      SliceConcat(text, start + overlap, end);
    }
  }

  lemma ConcatDroppedCons(c: string, rest: seq<string>, k: nat)
    ensures ConcatDropped([c] + rest, k) == DropPrefix(c, k) + ConcatDropped(rest, k)
  {
    assert ([c] + rest)[1..] == rest;
  }

  lemma DropSlice(t: string, a: nat, b: nat, k: nat)
    requires a + k <= b <= |t|
    ensures DropPrefix(t[a..b], k) == t[a + k..b]
  {
  }

  lemma SliceConcat(t: string, a: nat, b: nat)
    requires a <= b <= |t|
    ensures t[a..b] + t[b..] == t[a..]
  {
  }

  /** Stitching the chunks back together, dropping the shared `overlap` of
      every chunk after the first, reproduces the text. */
  lemma {:induction false} ChunkTextReconstructs(text: string, size: int, overlap: int)
    requires 0 <= overlap < size
    ensures Stitch(ChunkText(text, size, overlap), overlap) == text
  {
    var cs := ChunkText(text, size, overlap);
    if |text| <= size {
      assert cs[1..] == [];
    } else {
      var chunk := text[0..size];
      var rest := ChunksFrom(text, size, overlap, size - overlap);
      assert cs == ChunksFrom(text, size, overlap, 0);
      assert cs == [chunk] + rest;
      assert cs[1..] == rest;
      ConcatDroppedFrom(text, size, overlap, size - overlap);
      assert text == chunk + text[size..];
    }
  }
}
