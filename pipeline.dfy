/**
 * The glue of pipeline.py: building the store over the corpus, and answering
 * one query from the retrieved contexts with the text generator.
 */
module Pipeline {
  import opened Wrappers
  import opened Ingest
  import opened FlatL2
  import opened Store

  /** Default number of contexts retrieved per query (TOP_K). */
  const TopK: nat := 5

  /** The answer given, without generation, when retrieval finds no context. */
  const NoContextAnswer: string := "No relevant context found in the documents."

  /**
   * The text generator. Its answers are sampled, so one call may answer the
   * same prompt differently from another: `sample` gives the answer of the
   * `n`-th draw, and every call draws once. `prompts` records every call.
   */
  class Generator {
    const sample: (string, seq<string>, nat) -> string
    var draws: nat
    ghost var prompts: seq<(string, seq<string>)>

    constructor (sample: (string, seq<string>, nat) -> string)
      ensures this.sample == sample && draws == 0 && prompts == []
    {
      this.sample := sample;
      draws := 0;
      prompts := [];
    }

    method GenerateAnswer(query: string, contexts: seq<string>) returns (answer: string)
      modifies this
      ensures answer == sample(query, contexts, old(draws))
      ensures draws == old(draws) + 1 && prompts == old(prompts) + [(query, contexts)]
    {
      answer := sample(query, contexts, draws);
      draws := draws + 1;
      prompts := prompts + [(query, contexts)];
    }
  }

  /**
   * `build_or_load_index`, with the documents of the data folder given as a
   * parameter: chunks the corpus, refuses an empty one, and otherwise builds a
   * new store over the chunks and returns it with the number of chunks.
   */
  method BuildOrLoadIndex(docs: seq<string>, enc: SentenceEncoder, disk: Disk,
                          size: nat := ChunkSize, overlap: nat := ChunkOverlap)
    returns (r: Result<(VectorStore, nat), Error>)
    requires overlap < size
    modifies disk
    ensures r.Failure? <==> CorpusChunks(docs, size, overlap) == []
    ensures r.Failure? <==> forall i :: 0 <= i < |docs| ==> docs[i] == []
    ensures r.Failure? ==> r.error == RuntimeError && unchanged(disk)
    ensures r.Success? ==>
      var (vs, count) := r.value;
      var chunks := CorpusChunks(docs, size, overlap);
      fresh(vs) && vs.encoder == enc && vs.disk == disk &&
      vs.textChunks == chunks && vs.Indexed() && count == |chunks| && count > 0 &&
      disk.indexFile == vs.index && disk.chunksFile == Some(chunks)
  {
    var chunks := BuildCorpusChunks(docs, size, overlap);
    CorpusEmpty(docs, size, overlap);
    if |chunks| == 0 {
      return Failure(RuntimeError);
    }
    var vs := new VectorStore(enc, disk);
    var _ := vs.Build(chunks);
    r := Success((vs, |chunks|));
  }

  /** The texts of the search results, in ranked order. */
  function Contexts(results: seq<Scored>): (texts: seq<string>)
    ensures |texts| == |results|
    ensures forall i :: 0 <= i < |results| ==> texts[i] == results[i].text
  {
    if results == [] then [] else [results[0].text] + Contexts(results[1..])
  }

  /**
   * `answer_query`: searches the store with `topK` passed on unchanged and
   * takes the texts of the results as contexts. Without contexts it answers
   * the fixed message and does not call the generator; otherwise it calls the
   * generator once and returns its answer unchanged with the contexts. A search
   * that raises propagates.
   */
  method AnswerQuery(vs: VectorStore, gen: Generator, query: string, topK: int := TopK)
    returns (r: Result<(string, seq<string>), Error>)
    modifies gen
    ensures var out := SearchOutcome(vs.index, vs.textChunks, vs.encoder.embed(query), topK);
      (out.Failure? ==> r == Failure(out.error) && unchanged(gen)) &&
      (out.Success? && Contexts(out.value) == [] ==>
        r == Success((NoContextAnswer, [])) && unchanged(gen)) &&
      (out.Success? && Contexts(out.value) != [] ==>
        var contexts := Contexts(out.value);
        r == Success((gen.sample(query, contexts, old(gen.draws)), contexts)) &&
        gen.draws == old(gen.draws) + 1 && gen.prompts == old(gen.prompts) + [(query, contexts)])
  {
    var results := vs.Search(query, topK);
    if results.Failure? {
      return Failure(results.error);
    }
    var contexts := Contexts(results.value);
    if |contexts| == 0 {
      return Success((NoContextAnswer, []));
    }
    var answer := gen.GenerateAnswer(query, contexts);
    r := Success((answer, contexts));
  }

  /**
   * On a store holding one vector per chunk the no-context answer is never
   * reached: a search succeeds exactly when `topK` is positive and the store
   * holds a chunk, and then yields `topK` contexts. Otherwise it raises
   * (`AssertionError` for `topK <= 0`, `IndexError` for an empty store).
   */
  lemma NoContextUnreachable(index: L2Index, chunks: seq<string>, q: Vector, k: int)
    requires |q| == index.dim && index.Count() == |chunks|
    ensures var out := SearchOutcome(Some(index), chunks, q, k);
      (out.Success? <==> k > 0 && chunks != []) &&
      (out.Success? ==> |Contexts(out.value)| == k) &&
      (k <= 0 ==> out == Failure(AssertionError)) &&
      (k > 0 && chunks == [] ==> out == Failure(IndexError))
  {
    if k >= 0 {
      AlignedSearch(index, chunks, q, k);
    }
  }
}
