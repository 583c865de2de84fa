/**
 * The `VectorStore` of vectorstore.py: the chunk texts and the flat L2 index
 * over their embeddings, built in memory, written to and read back from the
 * index directory, and searched.
 */
module Store {
  import opened Wrappers
  import opened FlatL2

  /** The exceptions the retrieval core raises, by their Python class. */
  datatype Error =
    | ValueError         // search before the index is built or loaded
    | FileNotFoundError  // load while an artifact is missing
    | IndexError         // an empty embedding batch, or a position outside the chunk list
    | AssertionError     // query embedding of another dimension than the index, or `top_k <= 0`
    | RuntimeError       // no chunk in the corpus

  /**
   * The sentence-embedding model: a deterministic map from a text to a vector,
   * every vector of the same dimension.
   */
  datatype Encoder = Encoder(dim: nat, embed: string -> Vector)

  type SentenceEncoder = e: Encoder | forall t :: |e.embed(t)| == e.dim
    witness Encoder(0, (t: string) => [])

  /** The embeddings of a batch of texts, one per text, in order. */
  function Embed(enc: SentenceEncoder, texts: seq<string>): seq<Vector> {
    seq(|texts|, i requires 0 <= i < |texts| => enc.embed(texts[i]))
  }

  /** The flat index that `build` creates over the embeddings of `chunks`. */
  function IndexOf(enc: SentenceEncoder, chunks: seq<string>): L2Index {
    FlatIndex(enc.dim, Embed(enc, chunks))
  }

  /** The index directory: the `faiss.index` and `chunks.npy` artifacts, each present or not. */
  class Disk {
    var indexFile: Option<L2Index>
    var chunksFile: Option<seq<string>>

    constructor (indexFile: Option<L2Index>, chunksFile: Option<seq<string>>)
      ensures this.indexFile == indexFile && this.chunksFile == chunksFile
    {
      this.indexFile := indexFile;
      this.chunksFile := chunksFile;
    }
  }

  /** One search result: a chunk text and its distance to the query. */
  datatype Scored = Scored(text: string, distance: nat)

  /** Python's `xs[i]`: a negative position counts from the end; anything else raises. */
  function PyIndex<T>(xs: seq<T>, i: int): Option<T> {
    if 0 <= i < |xs| then Some(xs[i])
    else if -|xs| <= i < 0 then Some(xs[|xs| + i])
    else None
  }

  /** Every position of `hits` can be looked up in `chunks`. */
  predicate Resolvable(chunks: seq<string>, hits: seq<Hit>) {
    forall j :: 0 <= j < |hits| ==> PyIndex(chunks, hits[j].pos).Some?
  }

  /** The chunk texts of `hits`, each with its distance, in the order of `hits`. */
  function Resolve(chunks: seq<string>, hits: seq<Hit>): seq<Scored>
    requires Resolvable(chunks, hits)
  {
    seq(|hits|, j requires 0 <= j < |hits| => Scored(PyIndex(chunks, hits[j].pos).value, hits[j].distance))
  }

  lemma ResolveStep(chunks: seq<string>, hits: seq<Hit>, j: nat)
    requires j < |hits| && Resolvable(chunks, hits[..j])
    ensures PyIndex(chunks, hits[j].pos).None? ==> !Resolvable(chunks, hits)
    ensures PyIndex(chunks, hits[j].pos).Some? ==>
      Resolvable(chunks, hits[..j + 1]) &&
      Resolve(chunks, hits[..j + 1])
        == Resolve(chunks, hits[..j]) + [Scored(PyIndex(chunks, hits[j].pos).value, hits[j].distance)]
  {
    var l := hits[..j + 1];
    assert forall i :: 0 <= i < j ==> l[i] == hits[..j][i];
  }

  /**
   * What `search` returns or raises, for a store holding `index` and `chunks`
   * and a query whose embedding is `q`. The index's search asserts, in this
   * order, that the query has the index's dimension and that `k` is positive.
   */
  function SearchOutcome(index: Option<L2Index>, chunks: seq<string>, q: Vector, k: int)
    : Result<seq<Scored>, Error>
  {
    if index.None? then Failure(ValueError)
    else if |q| != index.value.dim then Failure(AssertionError)
    else if k <= 0 then Failure(AssertionError)
    else
      var hits := Search(index.value, q, k);
      if Resolvable(chunks, hits) then Success(Resolve(chunks, hits)) else Failure(IndexError)
  }

  class VectorStore {
    const encoder: SentenceEncoder
    const disk: Disk
    var index: Option<L2Index>
    var textChunks: seq<string>

    /** A new store has no index and no chunks. */
    constructor (encoder: SentenceEncoder, disk: Disk)
      ensures this.encoder == encoder && this.disk == disk
      ensures index == None && textChunks == []
    {
      this.encoder := encoder;
      this.disk := disk;
      index := None;
      textChunks := [];
    }

    /** Stored vector `i` is the embedding of chunk `i`, for every `i`. */
    ghost predicate Indexed()
      reads this
    {
      index == Some(IndexOf(encoder, textChunks))
    }

    /**
     * `build`: keeps `chunks` as the chunk list, replacing the old one, adds
     * one embedding per chunk, in order, to a new index, and writes both
     * artifacts. An empty batch makes the embedding model return no matrix, so
     * it raises after the chunk list was replaced and before anything else.
     */
    method Build(chunks: seq<string>) returns (r: Outcome<Error>)
      modifies this, disk
      ensures textChunks == chunks
      ensures chunks == [] ==> r == Fail(IndexError) && index == old(index) && unchanged(disk)
      ensures chunks != [] ==>
        r == Pass && Indexed() && disk.indexFile == index && disk.chunksFile == Some(chunks)
    {
      textChunks := chunks;
      if |chunks| == 0 {
        return Fail(IndexError);
      }
      var built := IndexOf(encoder, chunks);
      index := Some(built);
      disk.indexFile := Some(built);
      disk.chunksFile := Some(textChunks);
      r := Pass;
    }

    /**
     * `load`: restores the index and the chunk list from the two artifacts;
     * raises and changes nothing if either of them is missing.
     */
    method Load() returns (r: Outcome<Error>)
      modifies this
      ensures disk.indexFile.None? || disk.chunksFile.None? ==>
        r == Fail(FileNotFoundError) && index == old(index) && textChunks == old(textChunks)
      ensures disk.indexFile.Some? && disk.chunksFile.Some? ==>
        r == Pass && index == disk.indexFile && textChunks == disk.chunksFile.value
    {
      if disk.indexFile.None? || disk.chunksFile.None? {
        return Fail(FileNotFoundError);
      }
      index := disk.indexFile;
      textChunks := disk.chunksFile.value;
      r := Pass;
    }

    /**
     * `search`: embeds the query, asks the index for `topK` rows and pairs each
     * returned position with its chunk text, in the order the index returned
     * them. Reads the store and changes nothing.
     */
    method Search(query: string, topK: int) returns (r: Result<seq<Scored>, Error>)
      ensures r == SearchOutcome(index, textChunks, encoder.embed(query), topK)
    {
      if index.None? {
        return Failure(ValueError);
      }
      var queryEmb := encoder.embed(query);
      if |queryEmb| != index.value.dim || topK <= 0 {
        return Failure(AssertionError);
      }
      var hits := FlatL2.Search(index.value, queryEmb, topK);
      var results: seq<Scored> := [];
      for j := 0 to |hits|
        invariant Resolvable(textChunks, hits[..j])
        invariant results == Resolve(textChunks, hits[..j])
      {
        var chunk := PyIndex(textChunks, hits[j].pos);
        ResolveStep(textChunks, hits, j);
        if chunk.None? {
          return Failure(IndexError);
        }
        results := results + [Scored(chunk.value, hits[j].distance)];
      }
      assert hits[..|hits|] == hits;
      r := Success(results);
    }
  }

  // ---------------------------------------------------------------------
  // What a search answers
  // ---------------------------------------------------------------------

  /**
   * Searching an index that holds one vector per chunk: result `j` is the
   * chunk at the position the index returned in row `j`, with that row's
   * distance, in the index's order and one result per row. When more rows are
   * asked for than chunks are stored, the index pads with position -1, which
   * Python reads as the last chunk: the answer still has `k` rows, the extra
   * ones repeating the last chunk with the padding distance. With no chunk at
   * all, any row raises; asking for no row at all raises too.
   */
  lemma AlignedSearch(index: L2Index, chunks: seq<string>, q: Vector, k: nat)
    requires |q| == index.dim && index.Count() == |chunks|
    ensures var out, hits, n := SearchOutcome(Some(index), chunks, q, k), Search(index, q, k), |chunks|;
      (k == 0 ==> out == Failure(AssertionError)) &&
      (n == 0 && k > 0 ==> out == Failure(IndexError)) &&
      (n > 0 && k > 0 ==>
        out.Success? && |out.value| == k &&
        (forall j :: 0 <= j < Found(index, k) ==>
          out.value[j] == Scored(chunks[hits[j].pos], hits[j].distance)) &&
        (forall j :: n <= j < k ==> out.value[j] == Scored(chunks[n - 1], PadDistance)))
  {
    var hits, n := Search(index, q, k), |chunks|;
    if n == 0 && k > 0 {
      assert PyIndex(chunks, hits[0].pos).None?;
    }
  }

  /**
   * Searching a store built from `chunks` for at most as many rows as it holds:
   * `k` results, in ascending distance, each distance that between the query's
   * embedding and its chunk's embedding, and no chunk left out closer to the
   * query than any chunk returned.
   */
  lemma BuiltSearch(enc: SentenceEncoder, chunks: seq<string>, query: string, k: nat)
    requires 0 < k <= |chunks|
    ensures var q, index := enc.embed(query), IndexOf(enc, chunks);
      var out, hits := SearchOutcome(Some(index), chunks, q, k), Search(index, q, k);
      out.Success? && |out.value| == k &&
      (forall j :: 0 <= j < k ==> out.value[j].distance == SqDist(q, enc.embed(out.value[j].text))) &&
      (forall i, j :: 0 <= i < j < k ==> out.value[i].distance <= out.value[j].distance) &&
      (forall p :: 0 <= p < |chunks| && !Returned(hits, k, p) ==>
        forall j :: 0 <= j < k ==> out.value[j].distance <= SqDist(q, enc.embed(chunks[p])))
  {
    var q, index := enc.embed(query), IndexOf(enc, chunks);
    var out, hits := SearchOutcome(Some(index), chunks, q, k), Search(index, q, k);
    AlignedSearch(index, chunks, q, k);
    SearchAscending(index, q, k);
    assert Found(index, k) == k;
    forall p | 0 <= p < |chunks| && !Returned(hits, k, p)
      ensures forall j :: 0 <= j < k ==> out.value[j].distance <= SqDist(q, enc.embed(chunks[p]))
    {
      SearchNearest(index, q, k, p);
    }
  }

  /**
   * Persistence round trip: a store loaded from the artifacts that `build`
   * wrote answers every query exactly as the store that built them.
   */
  method BuildThenLoad(enc: SentenceEncoder, disk: Disk, chunks: seq<string>, query: string, k: nat)
    returns (built: Result<seq<Scored>, Error>, loaded: Result<seq<Scored>, Error>)
    requires chunks != []
    modifies disk
    ensures built == loaded
  {
    var original := new VectorStore(enc, disk);
    var _ := original.Build(chunks);
    built := original.Search(query, k);
    var restored := new VectorStore(enc, disk);
    var _ := restored.Load();
    loaded := restored.Search(query, k);
  }
}
