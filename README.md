# Retrieval core of the Sanskrit RAG demo, in Dafny

This project models the retrieval half of a small retrieval-augmented
generation demo over Sanskrit text files:

- **Chunking** (`ingest.py`): `chunk_text` cuts a text into overlapping
  character windows (400 characters, 50 shared with the next window, by
  default). `build_corpus_chunks` joins the chunks of every document in
  document order. `Ingest.ChunkText` and `Ingest.BuildCorpusChunks` are the
  two loops. Each is proved to return a recursive specification function
  (`Chunks`, `CorpusChunks`). The window properties are proved about those
  functions, partly through the offsets of the windows (`Spans`).
- **The vector store** (`vectorstore.py`): `Store.VectorStore` is a class with
  the fields `index` (absent, or a flat L2 index) and `textChunks`. `Build`,
  `Load` and `Search` update or read them. The sentence-embedding model is a
  deterministic function from text to a vector of fixed dimension
  (`Store.SentenceEncoder`). The faiss `IndexFlatL2` is `FlatL2`, an exact
  index over integer vectors with squared Euclidean distance. The index
  directory is `Store.Disk`, with one slot per artifact.
- **The pipeline** (`pipeline.py`): `Pipeline.BuildOrLoadIndex` builds a store
  over the corpus and refuses an empty one. `Pipeline.AnswerQuery` retrieves
  contexts and either answers a fixed message or passes the generator's answer
  through. The generator is `Pipeline.Generator`, a sampled answer function
  with a counter of draws and a ghost log of prompts. The log shows when it was
  called and with what.

Python exceptions are the `Failure`/`Fail` cases of `Result`/`Outcome`
(`wrappers.dfy`), with `Store.Error` naming the exception class.

Files: `wrappers.dfy`, `ingest.dfy`, `flat_l2.dfy`, `vectorstore.dfy`,
`pipeline.dfy`.

### Edge cases of the code that the model follows

- When `top_k` exceeds the number of stored chunks, faiss fills the missing
  rows with position -1 and the largest float32 value as distance. Python then reads
  `text_chunks[-1]`, the last chunk. So the code returns exactly `top_k` rows,
  and the extra rows repeat the last chunk. `FlatL2.Search` and
  `Store.AlignedSearch` model this.
- For the same reason, a search on a store that holds no chunk, asked for at
  least one result, raises `IndexError`. It does not come back empty. A
  `top_k` that is not positive makes the faiss search raise `AssertionError`.
  So on a store with one vector per chunk a search never succeeds with no
  result, and the fixed no-context answer of `answer_query` is never reached
  (`Pipeline.NoContextUnreachable`). `Pipeline.AnswerQuery` still models that
  branch as the code writes it.
- `build([])` replaces `text_chunks` first. It then raises, because the
  embedding model returns no two-dimensional matrix for an empty batch. The
  index and the directory are left as they were.

## Model

| member | source | states |
|---|---|---|
| Ingest.ChunkText | ingest.py:24-40 | the window loop returns exactly `Chunks(text, size, overlap)`; its invariant is that the chunks emitted so far followed by the chunks from `start` on are the whole answer, and it terminates because `start` advances while `overlap < size` |
| Ingest.SpansFrom | ingest.py:33-39 | every window from a start on lies inside the text, is non-empty, begins at or after that start and ends at `min(lo + size, len)` |
| Ingest.ChunksAreSlices | ingest.py:34-35 | chunk `i` is the contiguous slice `text[lo:hi]` of window `i`, and there are as many chunks as windows |
| Ingest.SpansFromEnds | ingest.py:33-38 | from a start inside the text, the first window begins at that start and the last ends at the text's length |
| Ingest.SpansFromStepped | ingest.py:34-39 | every window before the last is full, ends before the text does, and the next begins `overlap` before its end |
| Ingest.SpansSteps | ingest.py:37-39 | every window before the last is exactly `size` long and ends before the text does; the next starts `size - overlap` later, so starts strictly increase, and the two share exactly `overlap` positions |
| Ingest.SpansTile | ingest.py:30-39 | no window for the empty text; otherwise the first starts at 0 and the last ends at the length; every window is non-empty and at most `size` long; each before the last is exactly `size` long, the next starts `size - overlap` later (starts strictly increase), and the two share exactly `overlap` positions |
| Ingest.SpanStart | ingest.py:30-39 | window `i` starts at `i * (size - overlap)` |
| Ingest.SpansFromCover | ingest.py:33-39 | every position from a start to the text's end lies inside some window from that start on |
| Ingest.SpansCover | ingest.py:30-39 | the windows cover every position of the text: no gaps |
| Ingest.CountStep | ingest.py:37-39 | the closed-form chunk count of a text longer than `size` is one more than that of the text shortened by one stride, the step the loop takes |
| Ingest.SpansFromCount | ingest.py:33-39 | the number of windows from a start is the closed-form count for the rest of the text |
| Ingest.ChunksCount | ingest.py:29-40 | `chunk_text` returns 0 chunks for the empty text, 1 for a text of at most `size` characters, and `1 + ceil((len - size) / (size - overlap))` otherwise |
| Ingest.ChunksNonEmpty | ingest.py:29-35 | the result is empty exactly when the text is (never an empty-string chunk), and every chunk has between 1 and `size` characters |
| Ingest.ShortTextOneChunk | ingest.py:33-38 | a non-empty text of at most `size` characters yields exactly one chunk, the whole text |
| Ingest.ChunkSharesNext | ingest.py:34-39 | for one `i`: chunk `i` is exactly `size` long and its last `overlap` characters are the first `overlap` characters of chunk `i + 1` |
| Ingest.ChunksOverlap | ingest.py:34-39 | every chunk before the last has exactly `size` characters and its last `overlap` characters begin the next chunk; the last chunk is a suffix of the text, so it ends at `len(text)` |
| Ingest.ReassembleFrom | ingest.py:33-39 | dropping the shared tail of every chunk but the last and joining the chunks from a start gives back the text from that start |
| Ingest.ReassembleChunks | ingest.py:24-40 | the chunks lose nothing: joined with their overlaps removed they are the original text |
| Ingest.BuildCorpusChunks | ingest.py:43-51 | the extend loop returns `CorpusChunks(docs)`, the chunks of every document in document order |
| Ingest.CorpusAppend | ingest.py:49-50 | the corpus of `a + b` is the corpus of `a` followed by that of `b` |
| Ingest.CorpusEmpty | ingest.py:47-51 | the corpus has no chunk exactly when every document is empty |
| Ingest.CorpusSize | ingest.py:47-51 | the corpus has as many chunks as the per-document chunk counts add up to |
| Ingest.CorpusPosition | ingest.py:47-51 | chunk `j` of document `i` sits in the corpus at the number of chunks of the documents before `i`, plus `j` |
| FlatL2.SqDist | vectorstore.py:31 | the squared L2 distance is zero exactly for equal vectors |
| FlatL2.Insert | vectorstore.py:63 | inserting a position into a ranked list keeps it ranked and adds exactly that position |
| FlatL2.Ranking | vectorstore.py:63 | the positions below `m` listed once each, in (distance, position) order |
| FlatL2.Search | vectorstore.py:63 | a search for `k` rows returns `k` rows; a row naming a stored vector carries that vector's distance to the query; rows past the stored count are padding (-1, largest float32) |
| FlatL2.SearchAscending | vectorstore.py:63 | the real rows come in ascending distance, ties by ascending position, with no position twice |
| FlatL2.SearchNearest | vectorstore.py:63 | no stored vector left out of the answer is closer to the query than any returned one |
| FlatL2.SearchReturnsAll | vectorstore.py:63 | asked for at least as many rows as were stored, the search returns every stored position |
| FlatL2.ClosestComesFirst | vectorstore.py:63 | a vector strictly closest to the query is the first row |
| Store.ResolveStep | vectorstore.py:65-66 | looking up one more row either extends the results by that row's chunk and distance, or makes the whole answer fail |
| Store.VectorStore.constructor | vectorstore.py:19-22 | a new store has no index and no chunks, so searching it raises `ValueError` |
| Store.VectorStore.Build | vectorstore.py:24-36 | `textChunks` becomes `chunks`, replacing the old list; with chunks, the index holds one embedding per chunk in order (`Indexed`) and both artifacts hold what was built; an empty list raises `IndexError` and leaves the index and the directory unchanged |
| Store.VectorStore.Load | vectorstore.py:38-47 | with either artifact missing it raises `FileNotFoundError` and changes neither field; otherwise the fields become the two artifacts |
| Store.VectorStore.Search | vectorstore.py:56-67 | returns `SearchOutcome`: `ValueError` without an index; `AssertionError` for a query of another dimension or a `top_k` that is not positive; otherwise one result per row the index returned, in that order, pairing `text_chunks[i]` (negative `i` counted from the end) with the row's distance, or `IndexError` when a position cannot be looked up; changes nothing |
| Store.AlignedSearch | vectorstore.py:63-67 | with one vector per chunk and `k > 0` rows asked for, result `j` is the chunk at row `j`'s position with row `j`'s distance, and rows past the chunk count repeat the last chunk with the padding distance; with no chunk, asking for a row raises `IndexError`; asking for no row raises `AssertionError` |
| Store.BuiltSearch | vectorstore.py:29-32 | searching a store built from `chunks` for `0 < k <= len(chunks)` rows gives `k` results in ascending distance, each the distance between the embeddings of the query and of its chunk, and no chunk left out is closer |
| Store.BuildThenLoad | vectorstore.py:34-47 | a store loaded from the artifacts that `build` wrote answers a query exactly as the store that built them |
| Pipeline.Generator.constructor | generator.py:18-22 | a generator starts with no draw and no prompt |
| Pipeline.Generator.GenerateAnswer | generator.py:25-54 | the answer is the next sampled draw for the query and contexts; the call is recorded |
| Pipeline.BuildOrLoadIndex | pipeline.py:7-18 | fails with `RuntimeError` and writes nothing exactly when the corpus has no chunk, which is exactly when every document is empty; otherwise returns a new store built over the corpus chunks together with their number, which is positive |
| Pipeline.Contexts | pipeline.py:32 | the contexts are the texts of the results, same length, same order |
| Pipeline.AnswerQuery | pipeline.py:21-36 | searches with `top_k` unchanged (default 5); a search error propagates; without contexts it returns the fixed message with no contexts and does not call the generator; otherwise it calls the generator once and returns its answer unchanged with those contexts |
| Pipeline.NoContextUnreachable | pipeline.py:31-34 | on a store with one vector per chunk a search succeeds exactly when `top_k > 0` and the store holds a chunk, and then gives `top_k` contexts, so the no-context branch is never taken; `top_k <= 0` raises `AssertionError` and an empty store raises `IndexError` |

## Left out

- `load_sanskrit_files` (ingest.py:6-21): globbing the data folder and decoding files is I/O; the documents are a parameter of `BuildCorpusChunks` and `BuildOrLoadIndex`.
- `run_rag_app` (pipeline.py:38-64), app.py and main.py: console and web front ends.
- generator.py: the seq2seq model, its tokenizer truncation and its sampling are not part of this model; the generator is an arbitrary function of the query, the contexts and the draw number.
- The sentence-embedding model: any deterministic map to vectors of one dimension; encoding a batch is encoding each text.
- faiss float32 arithmetic: distances are exact squared distances over integer vectors, and equal distances rank by ascending position. The order faiss gives to ties is not modelled.
- The file formats of `faiss.write_index` and `np.save`, and the failures of writing or reading them: a slot of `Disk` holds the saved value or nothing. The two writes are not atomic in the source; the model makes both together.
- Ingest.ChunkText: requires `overlap < size`. With `overlap >= size` the source loops forever on any text longer than `size`, and returns `[text]` (or `[]` for the empty text) on shorter ones; the model does not cover those values. A negative overlap is excluded by the `nat` type. The configured values (400 and 50) meet the requirement.
- The check that `top_k` is positive belongs to the faiss search wrapper, whose source is not part of this model; `SearchOutcome` states it as an `AssertionError` after the dimension check.
- Pipeline.BuildOrLoadIndex: the store it returns is built from the corpus; loading a saved index (the name's "or load") is never done by the source function, and `Load` is modelled on its own.
