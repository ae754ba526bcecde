# Retrieval core of a small RAG assistant, in Dafny

This project models the retrieval path of a retrieval-augmented chat
assistant. It has three parts, each proved against its own specification:

- **The paragraph chunker**, `chunk_text`. The corpus is split at every
  `"\n\n"`, each piece is stripped of Python whitespace, and blank pieces
  are dropped.
- **The in-memory vector store**, `VectorStore`. It holds two parallel
  collections: the stored documents and the rows of a NumPy embedding
  matrix.
  - `add_documents` appends documents, then builds and stacks the new rows.
    NumPy can raise while doing that, and it does so after the documents
    were already appended.
  - `search` ranks the rows against a query by a similarity score and
    returns the documents of the best `top_k` rows.
- **The output of the `retrieve` tool.** It gives either a sentinel
  sentence, or a header followed by the results joined with a
  horizontal-rule separator. It is paired with a parser that reads the
  results back.

Python's string operations are modelled in module `Text`:
- `str.isspace` is the fixed set of code points CPython treats as
  whitespace.
- `strip`, `split(sep)` (leftmost, non-overlapping), `sep.join` and
  `str.count` follow their Python behaviour.

NumPy is modelled in module `Store` by array shapes:
- `np.array` of an empty batch is one-dimensional.
- `np.array` of a ragged batch raises.
- `np.vstack` lifts a one-dimensional array to one row of width zero, then
  insists on equal widths.

The cosine similarity is an abstract function `score(row, query)` into the
reals. The ranking `np.argsort(s)[::-1][:top_k]` is specified by
`Ranking.IsTopSelection`. It describes any list of `top_k` distinct indices
that meets three conditions:
- it is best first;
- it honours Python's slice semantics, including a negative `top_k`;
- no index left out scores above one that is kept.

`np.argsort` uses an unstable sort by default, and `[::-1]` reverses its
result, so the code does not fix the order of equal scores. The contracts
about `search` leave that order open. The body of `Ranking.Rank` picks one
order, lower index first, as a refinement, and no contract depends on it.
`Ranking.SelectionsAgree` proves that every admissible list has the same
scores, rank by rank, so tie order is the only freedom `search` has.

The store's documents and rows correspond only when `Store.InStep` holds.
The source never checks it, and the model shows three ways to break it:
- a failed add that carries documents (`Store.FailedAddDesyncs`);
- an empty first batch, which leaves a one-dimensional array that refuses
  every later real batch (`Store.FlatStoreRejectsEmbeddings`);
- empty batches that stack phantom rows of width zero
  (`Store.EmptyAddsLeavePhantomRows`, `Store.AddKeepsStep`).

`search` on a store out of step may raise, and the model says when.

The results are formatted with the separator `"\n\n---\n\n"`. A result
that merely does not contain the separator can still run into the
separator after it: `RetrievalTool.SeparatorFreeNotEnough` shows this with
`["A\n\n---", "B"]`. The round trip therefore needs the stronger condition
`Text.OverlapFree`. The separator count needs it too:
`RetrievalTool.SeparatorFreeMiscounts` shows that `["\n\n---", "---\n\n"]`
gives a context with two separators for two results. Chunks meet the
condition because they hold no paragraph break, which
`RetrievalTool.ChunksRoundTrip` and `RetrievalTool.RetrieveChunks` prove.

## Model

| member | source | states |
|---|---|---|
| `Text.IsSpace` | rag/data_loader.py:62 | space, tab, newline and carriage return are whitespace; digits, letters and `-` are not |
| `Text.Strip` | rag/data_loader.py:62 | the stripped text begins and ends with a non-whitespace character, and is empty exactly when the text is all whitespace |
| `Text.StripIsSlice` | rag/data_loader.py:62 | the strip is the slice between a whitespace-only head and a whitespace-only tail |
| `Text.StripIdempotent` | rag/data_loader.py:62 | stripping twice equals stripping once |
| `Text.FindFrom` | rag/data_loader.py:59 | finds the leftmost occurrence at or after a position, or reports that there is none |
| `Text.Split` | rag/data_loader.py:59 | `str.split(sep)` returns at least one piece |
| `Text.SplitJoin` | rag/data_loader.py:59 | joining the pieces of a split with the separator restores the text |
| `Text.SplitPiecesFree` | rag/data_loader.py:59 | no piece of a split contains the separator |
| `Text.SplitLength` | rag/data_loader.py:59 | a split has one piece more than `str.count` counts separators |
| `Text.Count` | rag/data_loader.py:59 | the count is zero exactly when the separator does not occur |
| `Text.SplitAllSpace` | rag/data_loader.py:59 | every piece of an all-whitespace text is all whitespace |
| `Text.Join` | rag/agent.py:44 | no pieces join to the empty string; otherwise the first piece opens the result, followed by the separator when there is a second piece |
| `Text.JoinAllSpace` | rag/agent.py:44 | joining all-whitespace pieces with a whitespace separator gives all-whitespace text |
| `Text.JoinSplit` | rag/agent.py:44 | splitting joined pieces gives the pieces back when each piece is overlap-free for the separator |
| `Text.OverlapFreeExcludes` | rag/agent.py:44 | an overlap-free piece does not contain the separator |
| `Chunker.Clean` | rag/data_loader.py:62 | the comprehension keeps at most as many pieces as it is given |
| `Chunker.CleanElement` | rag/data_loader.py:62 | every kept piece is non-empty, is its own strip, and is the strip of one of the segments |
| `Chunker.CleanAppend` | rag/data_loader.py:62 | cleaning distributes over concatenation, so the order of the segments is kept |
| `Chunker.CleanOne` | rag/data_loader.py:62 | one segment yields its strip, or nothing when it is blank |
| `Chunker.CleanBlank` | rag/data_loader.py:62 | blank segments are all dropped |
| `Chunker.CleanEmptyBlank` | rag/data_loader.py:62 | if nothing is kept, every segment was blank |
| `Chunker.ChunkText` | rag/data_loader.py:55-56 | empty text gives no chunks; never more chunks than split pieces |
| `Chunker.ChunksAreChunks` | rag/data_loader.py:59-62 | every chunk is non-empty, equal to its own strip, and free of `"\n\n"` |
| `Chunker.StripKeepsFree` | rag/data_loader.py:62 | stripping cannot create an occurrence of a string |
| `Chunker.ChunkTextEmptyIff` | rag/data_loader.py:55-62 | the chunker returns nothing exactly when the text is all whitespace |
| `Chunker.BlankTextNoChunks` | rag/data_loader.py:62 | whitespace-only text gives no chunks |
| `Chunker.TextWithContentHasChunks` | rag/data_loader.py:59-62 | text with a non-whitespace character gives at least one chunk |
| `Chunker.SingleParagraph` | rag/data_loader.py:59-62 | text without a paragraph break that is not blank gives exactly one chunk, its strip |
| `Chunker.Rechunk` | rag/data_loader.py:59-62 | chunking any chunk gives back exactly that chunk |
| `Chunker.ChunkCount` | rag/data_loader.py:59-62 | there are at most `text.count("\n\n") + 1` chunks |
| `Chunker.StripVisible` | rag/data_loader.py:62 | a single non-whitespace character is its own strip |
| `Chunker.ThreeSegments` | rag/data_loader.py:59 | `"A\n\nB\n\nC"` splits into `["A", "B", "C"]` |
| `Chunker.ThreeParagraphs` | rag/data_loader.py:59-62 | `"A\n\nB\n\nC"` chunks to `["A", "B", "C"]`, in order |
| `Ranking.SliceLength` | rag/vector_store.py:41 | `[:k]` keeps `min(k, n)` entries for `k >= 0`, and drops `min(-k, n)` from the end for `k < 0` |
| `Ranking.InsertPos` | rag/vector_store.py:41 | the insertion point follows every entry scoring at least as high and precedes the first one scoring lower |
| `Ranking.Insert` | rag/vector_store.py:41 | insertion adds one entry |
| `Ranking.InsertShape` | rag/vector_store.py:41 | insertion places the new index at its point and shifts the rest by one |
| `Ranking.InsertMembers` | rag/vector_store.py:41 | insertion adds exactly the new index |
| `Ranking.InsertDescending` | rag/vector_store.py:41 | insertion keeps a best-first list best first |
| `Ranking.InsertDistinct` | rag/vector_store.py:41 | inserting a new index keeps the indices distinct |
| `Ranking.Rank` | rag/vector_store.py:41 | `argsort(...)[::-1]` lists `n` indices below `n` |
| `Ranking.RankSorted` | rag/vector_store.py:41 | the ranking lists every index exactly once, best first |
| `Ranking.TopIndices` | rag/vector_store.py:41 | the top indices are as many as the slice keeps, each below the number of scores |
| `Ranking.TopIndicesSelect` | rag/vector_store.py:38-41 | the model's top indices form a top selection: the slice's length, distinct, best first, and nothing left out scores higher |
| `Ranking.AboveIsBefore` | rag/vector_store.py:41 | an index scoring above rank `t` of a selection is ranked before `t` |
| `Ranking.AllAboveBefore` | rag/vector_store.py:41 | indices all scoring above rank `t` are among the selection's first `t` |
| `Ranking.AboveMeansInside` | rag/vector_store.py:41 | if one selection scores above another at rank `t`, its first `t + 1` indices lie among the other's first `t` |
| `Ranking.SelectionScoreAtMost` | rag/vector_store.py:41 | no selection scores above another at any rank |
| `Ranking.SelectionsAgree` | rag/vector_store.py:41 | any two selections have the same length and the same score at every rank, so they differ only in tie order |
| `Ranking.TopIsMaximum` | rag/vector_store.py:41 | the first selected index scores at least as high as every index |
| `Store.FromList` | rag/vector_store.py:17 | `np.array`: an empty batch gives the flat array, a ragged batch raises, a rectangular batch gives its rows |
| `Store.AtLeast2D` | rag/vector_store.py:22 | a flat array becomes exactly one row of width zero; a matrix is unchanged |
| `Store.VStack` | rag/vector_store.py:22 | stacking succeeds exactly on equal widths and puts the new rows below the old |
| `Store.Stacked` | rag/vector_store.py:17-22 | a ragged batch raises; the first batch is stored as built; a later batch is stacked below the rows held when the widths agree, and raises otherwise |
| `Store.Scores` | rag/vector_store.py:38 | one score per stored row, the row's similarity to the query |
| `Store.Pick` | rag/vector_store.py:43 | the result at each position is the document at the chosen index |
| `Store.VectorStore.constructor` | rag/vector_store.py:8-10 | a new store has no documents and no matrix, and is in step |
| `Store.VectorStore.AddDocuments` | rag/vector_store.py:12-22 | documents become the old ones followed by the new; the matrix is the stacked one on success and is unchanged when NumPy raises |
| `Store.VectorStore.Fits` | rag/vector_store.py:38 | on a rectangular matrix, the product with the query is defined exactly when the query is as long as a stored row |
| `Store.VectorStore.Search` | rag/vector_store.py:24-43 | returns `[]` on an empty store; raises on a flat matrix or a query of the wrong width; otherwise returns the documents of a top selection; in step, exactly the slice length of results |
| `Store.AddKeepsStep` | rag/vector_store.py:16-22 | a successful add of equally many documents and rows keeps the store in step exactly when no phantom row is stacked |
| `Store.AddAppendsRows` | rag/vector_store.py:19-22 | a successful non-empty add appends its rows below the earlier ones, unchanged |
| `Store.FailedAddDesyncs` | rag/vector_store.py:16-22 | a raising add that carries documents leaves the store out of step |
| `Store.WidthMismatchRaises` | rag/vector_store.py:22 | a batch of another width, or an empty batch on a store of non-zero width, raises |
| `Store.FlatStoreRejectsEmbeddings` | rag/vector_store.py:17-22 | after an empty first batch, a batch of non-empty rows raises |
| `Store.EmptyAddsLeavePhantomRows` | rag/vector_store.py:17-22 | two empty adds leave two rows of width zero and no document |
| `Store.SearchSelects` | rag/vector_store.py:24-43 | on a store in step, search finds stored documents, and the first belongs to a best-scoring row |
| `Store.SelfMatchRanksFirst` | rag/vector_store.py:38-43 | a query equal to a stored row that scores strictly highest returns that row's document first |
| `RetrievalTool.FormatResults` | rag/agent.py:41-45 | the sentinel appears exactly for no results; otherwise the answer begins with the header |
| `RetrievalTool.ParseContext` | rag/agent.py:41-45 | an answer parses to no results exactly when it is the sentinel |
| `RetrievalTool.NoBreakOverlapFree` | rag/agent.py:44 | text without `"\n\n"` is overlap-free for the result separator |
| `RetrievalTool.FormatRoundTrip` | rag/agent.py:41-45 | parsing the answer gives back the results, in order, when each is overlap-free |
| `RetrievalTool.ChunksRoundTrip` | rag/agent.py:41-45 | an answer made of chunks parses back to those chunks |
| `RetrievalTool.SeparatorCount` | rag/agent.py:44 | the context holds exactly one separator fewer than there are results |
| `RetrievalTool.SingleResult` | rag/agent.py:44-45 | one result gives the header followed by that result |
| `RetrievalTool.SeparatorFreeNotEnough` | rag/agent.py:44 | results free of the separator can still fail the round trip |
| `RetrievalTool.SeparatorFreeMiscounts` | rag/agent.py:44 | results free of the separator can still give a context with more separators than gaps between results |
| `RetrievalTool.Retrieve` | rag/agent.py:39-45 | the tool answers exactly when search does not raise, and says "No relevant context found." for an empty store |
| `RetrievalTool.RetrieveChunks` | rag/agent.py:39-45 | on a store in step holding chunks, the answer parses back to the search results: at most five stored chunks (`top_k` default at config.py:19) |

## Left out

- Loading the corpus from S3 or a local directory, and line-ending normalisation: file and network I/O.
- The embeddings API: embedding vectors are parameters.
- The numerics of `search`: norms, division, the matrix product and `float32` rounding. The score is an abstract real-valued function of row and query.
- Zero-norm vectors are left out. In the source they divide by zero and make NaN scores, which the abstract score cannot express.
- Exceptions are modelled only as a missing result (`None`, or `ok` false). Their type and message are not modelled.
- `search` on a store whose `documents` or rows were left out of step is modelled only up to whether the chosen indices fall within `documents`. The order NumPy gives to NaN or tied scores is not modelled.
- `Store.VectorStore.Search`: the contract leaves tie order open. NumPy's sort fixes some order that depends on its implementation. The body picks the lower index first, as a refinement.
- The agent itself: the language model, its system prompt, and the chat session and authentication of the web front end.
- `settings` loaded from the environment. Only the default `top_k` of 5 is used.
- Concurrency and async scheduling.
