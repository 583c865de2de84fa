/**
 * The character-window chunker and the corpus flattening of ingest.py.
 *
 * A text is cut into windows of at most `size` characters; each window after
 * the first starts `overlap` characters before the end of the previous one.
 * `ChunksFrom` gives the chunk texts the source's loop emits and `ChunkText` is
 * that loop, proved to produce them. `SpansFrom` describes the same windows on
 * the text's length alone (offsets instead of substrings); `ChunksAreSlices`
 * ties the two together, and the window properties are proved on spans.
 */
module Ingest {

  /** Defaults of the source configuration (CHUNK_SIZE and CHUNK_OVERLAP). */
  const ChunkSize: nat := 400
  const ChunkOverlap: nat := 50

  function Min(a: nat, b: nat): nat { if a <= b then a else b }

  // ---------------------------------------------------------------------
  // chunk_text
  // ---------------------------------------------------------------------

  /**
   * The chunks the loop of `chunk_text` emits once its window starts at
   * `start`: the rest of the text when a window of `size` characters would
   * reach its end, otherwise a full window followed by the chunks from
   * `overlap` characters before that window's end.
   */
  function ChunksFrom(text: string, size: nat, overlap: nat, start: nat): seq<string>
    requires overlap < size
    decreases |text| - start
  {
    if start >= |text| then []
    else if start + size >= |text| then [text[start..]]
    else [text[start..start + size]] + ChunksFrom(text, size, overlap, start + size - overlap)
  }

  /** The chunk sequence `chunk_text` returns. */
  function Chunks(text: string, size: nat, overlap: nat): seq<string>
    requires overlap < size
  {
    ChunksFrom(text, size, overlap, 0)
  }

  /** `chunk_text`: the window loop, proved to return `Chunks`. */
  method ChunkText(text: string, size: nat := ChunkSize, overlap: nat := ChunkOverlap)
    returns (chunks: seq<string>)
    requires overlap < size
    ensures chunks == Chunks(text, size, overlap)
  {
    chunks := [];
    var start: nat := 0;
    var length := |text|;
    while start < length
      invariant start <= length
      invariant chunks + ChunksFrom(text, size, overlap, start) == Chunks(text, size, overlap)
      decreases length - start
    {
      var end := Min(start + size, length);
      var chunk := text[start..end];
      ghost var rest := if end == length then [] else ChunksFrom(text, size, overlap, end - overlap);
      assert end == length ==> text[start..] == chunk;
      assert ChunksFrom(text, size, overlap, start) == [chunk] + rest;
      assert chunks + ([chunk] + rest) == (chunks + [chunk]) + rest;
      chunks := chunks + [chunk];
      if end == length {
        break;
      }
      start := end - overlap;
    }
  }

  // ---------------------------------------------------------------------
  // The windows as offset ranges
  // ---------------------------------------------------------------------

  /** The half-open character range [lo, hi) of one chunk. */
  datatype Span = Span(lo: nat, hi: nat)

  /**
   * The windows of a text of length `n` from offset `start` on, following the
   * same steps as `ChunksFrom`: each is non-empty, lies inside the text and ends
   * `size` characters after its start or at the end of the text, whichever is
   * first.
   */
  function SpansFrom(n: nat, size: nat, overlap: nat, start: nat): (r: seq<Span>)
    requires overlap < size
    ensures forall i :: 0 <= i < |r| ==>
      start <= r[i].lo < r[i].hi <= n && r[i].hi == Min(r[i].lo + size, n)
    decreases n - start
  {
    if start >= n then []
    else if start + size >= n then [Span(start, n)]
    else [Span(start, start + size)] + SpansFrom(n, size, overlap, start + size - overlap)
  }

  function Spans(n: nat, size: nat, overlap: nat): seq<Span>
    requires overlap < size
  {
    SpansFrom(n, size, overlap, 0)
  }

  predicate InBounds(spans: seq<Span>, n: nat) {
    forall i :: 0 <= i < |spans| ==> spans[i].lo <= spans[i].hi <= n
  }

  /** The substrings of `text` that `spans` delimit, in order. */
  function Slices(text: string, spans: seq<Span>): (r: seq<string>)
    requires InBounds(spans, |text|)
    ensures |r| == |spans|
  {
    seq(|spans|, i requires 0 <= i < |spans| => text[spans[i].lo..spans[i].hi])
  }

  lemma {:induction false} ChunksFromAreSlices(text: string, size: nat, overlap: nat, start: nat)
    requires overlap < size
    ensures ChunksFrom(text, size, overlap, start) == Slices(text, SpansFrom(|text|, size, overlap, start))
    decreases |text| - start
  {
    var n := |text|;
    if start < n && start + size < n {
      var next := start + size - overlap;
      ChunksFromAreSlices(text, size, overlap, next);
      var l, r := ChunksFrom(text, size, overlap, start), Slices(text, SpansFrom(n, size, overlap, start));
      var spans := SpansFrom(n, size, overlap, start);
      assert spans == [Span(start, start + size)] + SpansFrom(n, size, overlap, next);
      assert l == [text[start..start + size]] + ChunksFrom(text, size, overlap, next);
      forall i | 0 <= i < |l| ensures l[i] == r[i] {
        if i > 0 { assert spans[i] == SpansFrom(n, size, overlap, next)[i - 1]; }
      }
    } else if start < n {
      assert text[start..] == text[start..n];
    }
  }

  /** Every chunk is the contiguous slice of the text that its window delimits. */
  lemma ChunksAreSlices(text: string, size: nat, overlap: nat)
    requires overlap < size
    ensures var cs, r := Chunks(text, size, overlap), Spans(|text|, size, overlap);
      |cs| == |r| && forall i :: 0 <= i < |cs| ==> cs[i] == text[r[i].lo..r[i].hi]
  {
    ChunksFromAreSlices(text, size, overlap, 0);
  }

  // ---------------------------------------------------------------------
  // Properties of the windows
  // ---------------------------------------------------------------------

  /** Distance between the starts of two consecutive windows. */
  function Stride(size: nat, overlap: nat): nat
    requires overlap < size
  {
    size - overlap
  }

  /** From a start inside the text the windows begin at that start and the last one ends the text. */
  lemma {:induction false} SpansFromEnds(n: nat, size: nat, overlap: nat, start: nat)
    requires overlap < size && start < n
    ensures var r := SpansFrom(n, size, overlap, start);
      |r| > 0 && r[0].lo == start && r[|r| - 1].hi == n
    decreases n - start
  {
    var r := SpansFrom(n, size, overlap, start);
    if start + size < n {
      var rest := SpansFrom(n, size, overlap, start + size - overlap);
      assert r == [Span(start, start + size)] + rest;
      SpansFromEnds(n, size, overlap, start + size - overlap);
      assert r[|r| - 1] == rest[|rest| - 1];
    }
  }

  /**
   * Every window but the last is full and ends before the end of the text, and
   * the next one starts `overlap` characters before its end.
   */
  predicate Stepped(r: seq<Span>, n: nat, size: nat, overlap: nat) {
    forall i :: 0 <= i < |r| - 1 ==>
      r[i].hi == r[i].lo + size && r[i].hi < n && r[i + 1].lo == r[i].hi - overlap
  }

  lemma {:induction false} SpansFromStepped(n: nat, size: nat, overlap: nat, start: nat)
    requires overlap < size && start < n
    ensures Stepped(SpansFrom(n, size, overlap, start), n, size, overlap)
    decreases n - start
  {
    var r := SpansFrom(n, size, overlap, start);
    if start + size < n {
      var rest := SpansFrom(n, size, overlap, start + size - overlap);
      assert r == [Span(start, start + size)] + rest;
      SpansFromStepped(n, size, overlap, start + size - overlap);
      SpansFromEnds(n, size, overlap, start + size - overlap);
      forall i | 0 <= i < |r| - 1
        ensures r[i].hi == r[i].lo + size && r[i].hi < n && r[i + 1].lo == r[i].hi - overlap
      {
        if i > 0 { assert r[i] == rest[i - 1] && r[i + 1] == rest[i]; }
      }
    }
  }

  /**
   * The windows of a text of length `n`: none for the empty text; otherwise the
   * first starts at 0 and the last ends at `n`; every window is non-empty and at
   * most `size` long; each one before the last is exactly `size` long, the next
   * starts exactly `size - overlap` later (so starts strictly increase), and the
   * two share exactly `overlap` positions.
   */
  lemma SpansTile(n: nat, size: nat, overlap: nat)
    requires overlap < size
    ensures var r := Spans(n, size, overlap);
      (|r| == 0 <==> n == 0) &&
      (n > 0 ==> r[0].lo == 0 && r[|r| - 1].hi == n) &&
      (forall i :: 0 <= i < |r| ==> 0 < r[i].hi - r[i].lo <= size && r[i].hi == Min(r[i].lo + size, n)) &&
      (forall i :: 0 <= i < |r| - 1 ==>
        r[i].hi - r[i].lo == size && r[i].hi < n &&
        r[i + 1].lo == r[i].lo + Stride(size, overlap) &&
        r[i].lo < r[i + 1].lo &&
        r[i].hi - r[i + 1].lo == overlap)
  {
    if n > 0 {
      SpansFromEnds(n, size, overlap, 0);
      SpansSteps(n, size, overlap);
    }
  }

  /** The stepping of `SpansFromStepped`, restated as strides and shared lengths. */
  lemma SpansSteps(n: nat, size: nat, overlap: nat)
    requires overlap < size && n > 0
    ensures var r := Spans(n, size, overlap);
      forall i :: 0 <= i < |r| - 1 ==>
        r[i].hi - r[i].lo == size && r[i].hi < n &&
        r[i + 1].lo == r[i].lo + Stride(size, overlap) &&
        r[i].lo < r[i + 1].lo &&
        r[i].hi - r[i + 1].lo == overlap
  {
    SpansFromStepped(n, size, overlap, 0);
  }

  /** Window `i` starts at `i * (size - overlap)`: a fixed stride from offset 0. */
  lemma {:induction false} SpanStart(n: nat, size: nat, overlap: nat, i: nat)
    requires overlap < size && i < |Spans(n, size, overlap)|
    ensures Spans(n, size, overlap)[i].lo == i * Stride(size, overlap)
  {
    SpansTile(n, size, overlap);
    if i > 0 {
      SpanStart(n, size, overlap, i - 1);
      assert (i - 1) * Stride(size, overlap) + Stride(size, overlap) == i * Stride(size, overlap);
    }
  }

  /** Position `p` lies inside one of the windows. */
  predicate Covered(spans: seq<Span>, p: nat) {
    exists i :: 0 <= i < |spans| && spans[i].lo <= p < spans[i].hi
  }

  lemma {:induction false} SpansFromCover(n: nat, size: nat, overlap: nat, start: nat, p: nat)
    requires overlap < size && start <= p < n
    ensures Covered(SpansFrom(n, size, overlap, start), p)
    decreases n - start
  {
    var r := SpansFrom(n, size, overlap, start);
    if start + size < n {
      var rest := SpansFrom(n, size, overlap, start + size - overlap);
      assert r == [Span(start, start + size)] + rest;
      if p >= start + size {
        SpansFromCover(n, size, overlap, start + size - overlap, p);
        var j :| 0 <= j < |rest| && rest[j].lo <= p < rest[j].hi;
        assert r[j + 1] == rest[j];
      } else {
        assert r[0] == Span(start, start + size);
      }
    } else {
      assert r[0] == Span(start, n);
    }
  }

  /** Every position of the text lies in some window: the windows leave no gap. */
  lemma SpansCover(n: nat, size: nat, overlap: nat)
    requires overlap < size
    ensures forall p :: 0 <= p < n ==> Covered(Spans(n, size, overlap), p)
  {
    forall p | 0 <= p < n
      ensures Covered(Spans(n, size, overlap), p)
    {
      SpansFromCover(n, size, overlap, 0, p);
    }
  }

  /** The number of windows: none, one, or one plus ceil((n - size) / (size - overlap)). */
  function ChunkCount(n: nat, size: nat, overlap: nat): nat
    requires overlap < size
  {
    if n == 0 then 0
    else if n <= size then 1
    else 1 + (n - size + Stride(size, overlap) - 1) / Stride(size, overlap)
  }

  lemma {:induction false} MulMono(x: nat, y: nat, d: nat)
    requires x <= y
    ensures x * d <= y * d
    decreases y - x
  {
    if x < y {
      MulMono(x, y - 1, d);
      assert (y - 1) * d + d == y * d;
    }
  }

  lemma MulStep(x: nat, y: nat, d: nat)
    ensures x < y ==> x * d + d <= y * d
  {
    if x < y {
      MulMono(x + 1, y, d);
      assert (x + 1) * d == x * d + d;
    }
  }

  /** The quotient is the `q` whose multiple of `d` brackets `a`. */
  lemma DivUnique(a: nat, d: nat, q: nat)
    requires d > 0 && q * d <= a < q * d + d
    ensures a / d == q
  {
    var r := a / d;
    assert a == r * d + a % d && 0 <= a % d < d;
    MulStep(r, q, d);
    MulStep(q, r, d);
  }

  /** Adding a window's worth of text adds exactly one window. */
  lemma CountStep(m: nat, size: nat, overlap: nat)
    requires overlap < size && m > size
    ensures ChunkCount(m, size, overlap) == 1 + ChunkCount(m - Stride(size, overlap), size, overlap)
  {
    var st, x := Stride(size, overlap), m - size;
    if x <= st {
      DivUnique(x + st - 1, st, 1);
    } else {
      var y := x - 1;
      var q := y / st;
      assert y == q * st + y % st;
      DivUnique(y, st, q);
      DivUnique(y + st, st, q + 1);
    }
  }

  lemma {:induction false} SpansFromCount(n: nat, size: nat, overlap: nat, start: nat)
    requires overlap < size && start <= n
    ensures |SpansFrom(n, size, overlap, start)| == ChunkCount(n - start, size, overlap)
    decreases n - start
  {
    if start < n && start + size < n {
      var next := start + size - overlap;
      assert SpansFrom(n, size, overlap, start) == [Span(start, start + size)] + SpansFrom(n, size, overlap, next);
      SpansFromCount(n, size, overlap, next);
      CountStep(n - start, size, overlap);
    }
  }

  /** `chunk_text` returns exactly `ChunkCount(|text|, size, overlap)` chunks. */
  lemma ChunksCount(text: string, size: nat, overlap: nat)
    requires overlap < size
    ensures |Chunks(text, size, overlap)| == ChunkCount(|text|, size, overlap)
  {
    ChunksAreSlices(text, size, overlap);
    SpansFromCount(|text|, size, overlap, 0);
  }

  // ---------------------------------------------------------------------
  // Properties of the chunks
  // ---------------------------------------------------------------------

  /**
   * The empty text yields no chunk at all (not an empty-string chunk); any
   * other text yields only non-empty chunks of at most `size` characters.
   */
  lemma ChunksNonEmpty(text: string, size: nat, overlap: nat)
    requires overlap < size
    ensures var cs := Chunks(text, size, overlap);
      (cs == [] <==> text == []) && forall i :: 0 <= i < |cs| ==> 0 < |cs[i]| <= size
  {
    ChunksAreSlices(text, size, overlap);
    SpansTile(|text|, size, overlap);
  }

  /** A text of at most `size` characters is one chunk: the whole text. */
  lemma ShortTextOneChunk(text: string, size: nat, overlap: nat)
    requires overlap < size && 0 < |text| <= size
    ensures Chunks(text, size, overlap) == [text]
  {
    assert text[0..] == text;
  }

  /** Chunk `i` is full and its last `overlap` characters begin chunk `i + 1`. */
  predicate OverlapsNext(cs: seq<string>, i: nat, size: nat, overlap: nat)
    requires overlap < size && i + 1 < |cs|
  {
    |cs[i]| == size && overlap < |cs[i + 1]| &&
    cs[i][Stride(size, overlap)..] == cs[i + 1][..overlap]
  }

  /**
   * Every chunk before the last has exactly `size` characters and its last
   * `overlap` characters are the first `overlap` characters of the next chunk;
   * the last chunk is the tail of the text.
   */
  lemma ChunksOverlap(text: string, size: nat, overlap: nat)
    requires overlap < size
    ensures var cs := Chunks(text, size, overlap);
      (forall i :: 0 <= i < |cs| - 1 ==> OverlapsNext(cs, i, size, overlap)) &&
      (cs != [] ==> |cs[|cs| - 1]| <= |text| && cs[|cs| - 1] == text[|text| - |cs[|cs| - 1]|..])
  {
    var cs, r := Chunks(text, size, overlap), Spans(|text|, size, overlap);
    ChunksAreSlices(text, size, overlap);
    forall i | 0 <= i < |cs| - 1
      ensures OverlapsNext(cs, i, size, overlap)
    {
      ChunkSharesNext(text, size, overlap, i);
    }
    if cs != [] {
      SpansFromEnds(|text|, size, overlap, 0);
      assert cs[|cs| - 1] == text[r[|r| - 1].lo..];
    }
  }

  /** Chunk `i` and chunk `i + 1` are the two ends of one stretch of `overlap` characters. */
  lemma ChunkSharesNext(text: string, size: nat, overlap: nat, i: nat)
    requires overlap < size && i + 1 < |Chunks(text, size, overlap)|
    ensures OverlapsNext(Chunks(text, size, overlap), i, size, overlap)
  {
    var cs, r := Chunks(text, size, overlap), Spans(|text|, size, overlap);
    ChunksAreSlices(text, size, overlap);
    SpansSteps(|text|, size, overlap);
    assert cs[i] == text[r[i].lo..r[i].hi] && cs[i + 1] == text[r[i + 1].lo..r[i + 1].hi];
    assert cs[i][Stride(size, overlap)..] == text[r[i + 1].lo..r[i].hi];
    assert cs[i + 1][..overlap] == text[r[i + 1].lo..r[i].hi];
  }

  /**
   * Glues chunks back into a text: every chunk but the last gives up its last
   * `overlap` characters, which the next chunk repeats.
   */
  function Reassemble(cs: seq<string>, overlap: nat): string
    requires forall i :: 0 <= i < |cs| - 1 ==> overlap <= |cs[i]|
  {
    if |cs| == 0 then []
    else if |cs| == 1 then cs[0]
    else cs[0][..|cs[0]| - overlap] + Reassemble(cs[1..], overlap)
  }

  lemma {:induction false} ReassembleFrom(text: string, size: nat, overlap: nat, start: nat)
    requires overlap < size && start <= |text|
    ensures var cs := ChunksFrom(text, size, overlap, start);
      (forall i :: 0 <= i < |cs| - 1 ==> |cs[i]| == size) &&
      Reassemble(cs, overlap) == text[start..]
    decreases |text| - start
  {
    var cs := ChunksFrom(text, size, overlap, start);
    if start + size < |text| {
      var next := start + size - overlap;
      var rest := ChunksFrom(text, size, overlap, next);
      assert cs == [text[start..start + size]] + rest;
      ReassembleFrom(text, size, overlap, next);
      assert |rest| > 0;
      assert cs[1..] == rest;
      forall i | 0 <= i < |cs| - 1 ensures |cs[i]| == size {
        if i > 0 { assert cs[i] == rest[i - 1]; }
      }
      assert text[start..] == text[start..next] + text[next..];
    } else if start == |text| {
      assert text[start..] == [];
    }
  }

  /** Removing the repeated overlaps gives the text back: the chunks lose nothing. */
  lemma ReassembleChunks(text: string, size: nat, overlap: nat)
    requires overlap < size
    ensures var cs := Chunks(text, size, overlap);
      (forall i :: 0 <= i < |cs| - 1 ==> overlap <= |cs[i]|) &&
      Reassemble(cs, overlap) == text
  {
    ReassembleFrom(text, size, overlap, 0);
    assert text[0..] == text;
  }

  // ---------------------------------------------------------------------
  // build_corpus_chunks
  // ---------------------------------------------------------------------

  /** The chunks of every document, document after document, in order. */
  function CorpusChunks(docs: seq<string>, size: nat, overlap: nat): seq<string>
    requires overlap < size
  {
    if docs == [] then []
    else CorpusChunks(docs[..|docs| - 1], size, overlap) + Chunks(docs[|docs| - 1], size, overlap)
  }

  /**
   * `build_corpus_chunks`, with the documents that `load_sanskrit_files` reads
   * given as a parameter: extends the result with each document's chunks.
   */
  method BuildCorpusChunks(docs: seq<string>, size: nat := ChunkSize, overlap: nat := ChunkOverlap)
    returns (allChunks: seq<string>)
    requires overlap < size
    ensures allChunks == CorpusChunks(docs, size, overlap)
  {
    allChunks := [];
    for i := 0 to |docs|
      invariant allChunks == CorpusChunks(docs[..i], size, overlap)
    {
      var chunks := ChunkText(docs[i], size, overlap);
      assert docs[..i + 1][..i] == docs[..i];
      allChunks := allChunks + chunks;
    }
    assert docs[..|docs|] == docs;
  }

  /** Flattening is compositional: the corpus of `a + b` is that of `a`, then that of `b`. */
  lemma {:induction false} CorpusAppend(a: seq<string>, b: seq<string>, size: nat, overlap: nat)
    requires overlap < size
    ensures CorpusChunks(a + b, size, overlap) == CorpusChunks(a, size, overlap) + CorpusChunks(b, size, overlap)
    decreases |b|
  {
    if b == [] {
      assert a + b == a;
    } else {
      var b' := b[..|b| - 1];
      CorpusAppend(a, b', size, overlap);
      assert (a + b)[..|a + b| - 1] == a + b';
      assert (a + b)[|a + b| - 1] == b[|b| - 1];
    }
  }

  /** The corpus has no chunk exactly when every document is empty. */
  lemma {:induction false} CorpusEmpty(docs: seq<string>, size: nat, overlap: nat)
    requires overlap < size
    ensures CorpusChunks(docs, size, overlap) == [] <==> forall i :: 0 <= i < |docs| ==> docs[i] == []
  {
    if docs != [] {
      var init := docs[..|docs| - 1];
      CorpusEmpty(init, size, overlap);
      ChunksNonEmpty(docs[|docs| - 1], size, overlap);
      if CorpusChunks(docs, size, overlap) == [] {
        forall i | 0 <= i < |docs| ensures docs[i] == [] {
          if i < |docs| - 1 { assert docs[i] == init[i]; }
        }
      }
    }
  }

  /** The total number of chunks of the documents, by the closed form of `ChunkCount`. */
  function TotalCount(docs: seq<string>, size: nat, overlap: nat): nat
    requires overlap < size
  {
    if docs == [] then 0
    else TotalCount(docs[..|docs| - 1], size, overlap) + ChunkCount(|docs[|docs| - 1]|, size, overlap)
  }

  /** The corpus holds as many chunks as the documents' chunk counts add up to. */
  lemma {:induction false} CorpusSize(docs: seq<string>, size: nat, overlap: nat)
    requires overlap < size
    ensures |CorpusChunks(docs, size, overlap)| == TotalCount(docs, size, overlap)
  {
    if docs != [] {
      CorpusSize(docs[..|docs| - 1], size, overlap);
      ChunksCount(docs[|docs| - 1], size, overlap);
    }
  }

  /**
   * Chunk `j` of document `i` sits in the corpus right after the chunks of the
   * documents before it: the corpus position is the join key of the vector store.
   */
  lemma CorpusPosition(docs: seq<string>, i: nat, j: nat, size: nat, overlap: nat)
    requires overlap < size && i < |docs| && j < |Chunks(docs[i], size, overlap)|
    ensures var k := |CorpusChunks(docs[..i], size, overlap)| + j;
      k < |CorpusChunks(docs, size, overlap)| &&
      CorpusChunks(docs, size, overlap)[k] == Chunks(docs[i], size, overlap)[j]
  {
    var before, doc, after := docs[..i], docs[i], docs[i + 1..];
    assert docs == (before + [doc]) + after;
    CorpusAppend(before + [doc], after, size, overlap);
    assert (before + [doc])[..|before + [doc]| - 1] == before;
    assert CorpusChunks([], size, overlap) == [];
  }
}
