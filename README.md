# Retrieval core of the agricultural RAG assistant, in Dafny

This project models the document-indexing and retrieval engine of the
assistant (`llm/rag_pipeline.py`):

- **Chunker** (`Chunker`): `split_text`, a sliding window of `chunk_size`
  characters advancing by `chunk_size - chunk_overlap`, and `split_documents`,
  which flattens the chunks of every document in document order and tags each
  with its file name.
- **Corpus fingerprint** (`DocHash`): `hash_docs` feeds the bytes of every PDF,
  in sorted path order, into one MD5 state and returns its hex digest. MD5 is a
  parameter of the model. Python's `sorted` on paths is modelled by an insertion
  sort; any sort gives the same list, because a sorted permutation of strings
  is unique (`DocHash.SortedUnique`).
- **Chunk file** (`ChunkFile`): `chunks.txt` is written one chunk per line and
  read back with universal-newline decoding, line iteration and `strip()`.
- **Freshness and rebuild** (`VectorStore`): `build_or_load_vectorstore` reuses
  the persisted index when the stored hash matches, and otherwise loads the PDF
  texts, chunks them, embeds every chunk and keeps only chunks whose embedding
  is truthy. Vectors and texts are appended in lockstep. The three files are
  written only if something was kept. The index directory is a value
  (`IndexDir`), and `BuildOrLoad` returns the new one.
- **Retrieval** (`Retrieval`): `retrieve_context` returns the no-knowledge
  sentinel, the embed-error message, or the blank-line join of
  `chunks[i]` for every search label `i < len(chunks)`. Python's negative
  indexing is modelled explicitly.

Inputs that come from outside the program are parameters:
- the directory listing, file bytes and extracted PDF texts;
- MD5;
- the embedding service's answer to each call (`embed: nat -> Option<Vector>`);
- the query embedding;
- the labels `index.search` returns.

Exceptions are outcomes (`Outcome.Raised`, `Option.None`).

Three things the code does not do, kept as they are in the model:
- The code never rejects `chunk_overlap >= chunk_size`. The model makes a
  positive stride a precondition of `SplitText`, because otherwise the loop
  does not end.
- Loading does not check that the text list is as long as the vector list.
- The three files are written one after another, with no atomic replace.

## Model

| member | source | states |
|---|---|---|
| `PyStr.Strip` | llm/rag_pipeline.py:84 | `strip()` leaves no whitespace at either end and adds no character (`StripIsTrim` gives the rest) |
| `PyStr.StripIsTrim` | llm/rag_pipeline.py:84 | `strip()` returns a slice `s[i..j]` of its input with only whitespace before `i` and after `j`; with the contract of `Strip`, exactly the leading and trailing whitespace is cut |
| `PyStr.Join` | llm/rag_pipeline.py:145 | `sep.join(parts)` is empty for no part, and otherwise starts with the first part and ends with the last |
| `PyStr.StripIdentity` | llm/rag_pipeline.py:77 | stripping leaves a string unchanged if and only if it has no surrounding whitespace |
| `Chunker.SplitText` | llm/rag_pipeline.py:42-50 | the while loop returns exactly the window list `Windows(text, size, overlap)` |
| `Chunker.WindowsFrom` | llm/rag_pipeline.py:46-49 | every window is at most `chunk_size` characters long |
| `Chunker.ChunkAt` | llm/rag_pipeline.py:46-49 | chunk `j` is `text[j*step : min(j*step + size, len)]`, starts below `len`, so starts increase with `j` |
| `Chunker.SplitEmpty` | llm/rag_pipeline.py:46 | the empty text gives no chunk |
| `Chunker.SplitShort` | llm/rag_pipeline.py:46-49 | a non-empty text no longer than one stride gives one chunk, the whole text |
| `Chunker.SplitLong` | llm/rag_pipeline.py:46-49 | a text longer than one stride gives at least two chunks, the last ending exactly at the end of the text |
| `Chunker.Coverage` | llm/rag_pipeline.py:46-49 | every character `i` lies in chunk `i / step`, at offset `i - (i / step) * step` |
| `Chunker.DefaultsTwoChunks` | llm/rag_pipeline.py:42 | with the defaults 500/100, a text of 401 to 500 characters gives two chunks |
| `Chunker.SplitDocuments` | llm/rag_pipeline.py:52-58 | the nested loops return `AllChunks(docs)`, the tagged chunks of every document in order |
| `Chunker.AllChunksAppend` | llm/rag_pipeline.py:54-57 | chunking two lists of documents in turn equals chunking their concatenation |
| `Chunker.ChunkOfDocument` | llm/rag_pipeline.py:52-58 | window `k` of document `d` sits at position `|AllChunks(docs[..d])| + k`, tagged with that document's file name; nothing is reordered or dropped |
| `Chunker.AllChunksAround` | llm/rag_pipeline.py:52-58 | the chunk list of a document list is the chunks before document `d`, then `d`'s tagged chunks, then the chunks after it |
| `DocHash.Sort` | llm/rag_pipeline.py:19 | `sorted(paths)` is sorted in Python's string order and is a permutation of `paths` |
| `DocHash.SortedUnique` | llm/rag_pipeline.py:19 | two sorted lists with the same paths are equal |
| `DocHash.HexDigest` | llm/rag_pipeline.py:22 | the digest has two lower-case hex digits per byte |
| `DocHash.HashDocs` | llm/rag_pipeline.py:17-22 | the loop returns the hex MD5 of the file contents concatenated in sorted path order, or `None` when a path cannot be opened |
| `DocHash.FingerprintPermutationInvariant` | llm/rag_pipeline.py:17-22 | the fingerprint is the same for any order of the input path list |
| `DocHash.EditChangesHashInput` | llm/rag_pipeline.py:19-21 | overwriting one file with different bytes of the same length changes the bytes MD5 hashes |
| `DocHash.FileBoundariesInvisible` | llm/rag_pipeline.py:19-21 | moving bytes across the boundary between two neighbouring files leaves the fingerprint unchanged |
| `ChunkFile.WriteChunks` | llm/rag_pipeline.py:118-120 | the written file is empty exactly when there is no chunk, and otherwise ends in a line feed |
| `ChunkFile.Universal` | llm/rag_pipeline.py:83-84 | universal-newline decoding leaves no carriage return |
| `ChunkFile.ReadChunks` | llm/rag_pipeline.py:83-84 | every text read back has no line break and no surrounding whitespace |
| `ChunkFile.ReadWrittenClean` | llm/rag_pipeline.py:118-120 | chunks without line breaks come back stripped, one per line, in order |
| `ChunkFile.RoundTrip` | llm/rag_pipeline.py:118-120 | reading `chunks.txt` back gives exactly the written list if and only if no chunk holds a line break or surrounding whitespace |
| `ChunkFile.MultilineChunkSplits` | llm/rag_pipeline.py:118-120 | a chunk `x + "\n" + y` comes back as two texts `x` and `y` |
| `ChunkFile.Escape` | llm/rag_pipeline.py:118-120 | (corrected format) an escaped chunk holds no line break |
| `ChunkFile.UnescapeEscape` | llm/rag_pipeline.py:118-120 | (corrected format) unescaping undoes escaping for every text |
| `ChunkFile.FixedRoundTrip` | llm/rag_pipeline.py:118-120 | (corrected format) every list of chunks reads back unchanged, so line `i` still belongs to vector `i` |
| `VectorStore.PdfPaths` | llm/rag_pipeline.py:72 | computes the joined paths of the listed names ending in ".pdf", in listing order; `LoadedDocsAreHashed` relates it to the loaded documents |
| `VectorStore.LoadedDocs` | llm/rag_pipeline.py:24-40 | computes the documents `load_documents` returns; `NoDocumentsIff` and `LoadedDocsAreHashed` state their properties |
| `VectorStore.LoadedDocsAreHashed` | llm/rag_pipeline.py:24-40 | every loaded document is a listed ".pdf" file whose extracted text is its content, and its path is among the paths the fingerprint hashed |
| `VectorStore.Decide` | llm/rag_pipeline.py:75-79 | computes the freshness decision: reuse only with a hash file whose stripped content is the current hash, an existing `index.faiss` and a load that does not raise |
| `VectorStore.HashFileNewlineTolerated` | llm/rag_pipeline.py:76-79 | a hash file holding the fingerprint plus a trailing newline still leads to reuse |
| `VectorStore.LoadStore` | llm/rag_pipeline.py:81-85 | computes the loaded pair: the vectors of a readable `index.faiss` and the stripped lines of `chunks.txt`, or `None` when either raises |
| `VectorStore.LoadedTextsStorable` | llm/rag_pipeline.py:83-84 | every text of a loaded store is one line with no surrounding whitespace |
| `VectorStore.NoDocumentsIff` | llm/rag_pipeline.py:24-40 | `load_documents` returns nothing if and only if no listed ".pdf" file yields text |
| `VectorStore.LoadDocuments` | llm/rag_pipeline.py:24-40 | the loop returns one document per listed ".pdf" name whose extraction succeeds, in listing order |
| `VectorStore.Kept` | llm/rag_pipeline.py:102-110 | the kept vectors and texts have equal length, at most the number of chunks |
| `VectorStore.PositionsExact` | llm/rag_pipeline.py:106-108 | the kept positions are exactly those whose embedding is truthy, in increasing order |
| `VectorStore.KeptPairing` | llm/rag_pipeline.py:102-110 | kept text `m` is the content of the chunk at the `m`-th successful position, and vector `m` is that chunk's embedding |
| `VectorStore.NothingKeptIff` | llm/rag_pipeline.py:108-112 | nothing is kept if and only if every embedding call failed |
| `VectorStore.EmbedChunks` | llm/rag_pipeline.py:102-110 | the lockstep loop returns exactly `Kept(chunks, embed)` |
| `VectorStore.BuildOrLoad` | llm/rag_pipeline.py:70-127 | the outcome and new index directory are `BuildOrLoadSpec` of the inputs |
| `VectorStore.ReuseIff` | llm/rag_pipeline.py:75-89 | reuse happens if and only if the stripped stored hash equals the current one, `index.faiss` exists and both files load; reuse writes nothing |
| `VectorStore.EmptyCorpusWritesNothing` | llm/rag_pipeline.py:91-94 | with no readable PDF and no reuse, the result is `(None, None)` and the directory is untouched |
| `VectorStore.WritesOnlyAfterEmbedding` | llm/rag_pipeline.py:112-122 | the files change only if some embedding succeeded, and then they hold the current hash, the kept vectors and the kept texts |
| `VectorStore.ReloadIff` | llm/rag_pipeline.py:82-84 | loading a saved store gives it back if and only if every kept text is storable in `chunks.txt` |
| `VectorStore.SavedIsReused` | llm/rag_pipeline.py:75-122 | a directory saved under a fingerprint without surrounding whitespace is reused by the next call with that fingerprint, with the texts as `chunks.txt` returns them |
| `VectorStore.ReloadMisaligned` | llm/rag_pipeline.py:83-84 | a saved chunk `x + "\n" + y` reloads as two texts beside one vector |
| `VectorStore.SecondCallReuses` | llm/rag_pipeline.py:75-122 | after a call that saved the index, a second call on the same documents reuses it without embedding anything |
| `Retrieval.PyIndex` | llm/rag_pipeline.py:143 | `xs[i]` succeeds exactly for `-len(xs) <= i < len(xs)`, counting negative `i` from the end |
| `Retrieval.Answer` | llm/rag_pipeline.py:137-148 | computes the answer from a store: the embed-error text for a falsy query embedding, the no-knowledge sentinel when the search or the comprehension raises, otherwise the blank-line join of the hits |
| `Retrieval.ContextFor` | llm/rag_pipeline.py:132-148 | computes what `retrieve_context` returns after the build: `Answer` for a store, the no-knowledge sentinel for `(None, None)` or an exception |
| `Retrieval.RelevantChunks` | llm/rag_pipeline.py:143 | the comprehension raises if and only if some label is below `-len(chunks)`; otherwise it yields one chunk per label `< len(chunks)`, each taken from `chunks` |
| `Retrieval.RelevantChunksFiltered` | llm/rag_pipeline.py:143 | whenever the comprehension does not raise, it returns `chunks[i]` for exactly the labels `i < len(chunks)`, in rank order, negative ones read from the end |
| `Retrieval.FilterDropsNothing` | llm/rag_pipeline.py:142-143 | with at least as many texts as vectors, `i < len(chunks)` drops no label the search returns, the `-1` padding included |
| `Retrieval.RelevantChunksInRange` | llm/rag_pipeline.py:143 | with every label in Python's range, each label is read, negative ones from the end |
| `Retrieval.RetrieveContext` | llm/rag_pipeline.py:129-148 | the context is `ContextFor` of the build outcome, and the directory is the one the build leaves |
| `Retrieval.PaddedSearchRepeatsLastChunk` | llm/rag_pipeline.py:142-143 | with fewer chunks than `k`, the `-1` padding labels each add the last chunk again |
| `Retrieval.EmptyStoreAnswersSentinel` | llm/rag_pipeline.py:143-148 | a store emptied by failed embeddings answers a valid query with the no-knowledge sentinel, through the `IndexError` |
| `Retrieval.FixedKeepsOnlyRealNeighbours` | llm/rag_pipeline.py:143 | with the filter `0 <= i < len(chunks)`, the hits are exactly the `min(k, n)` real neighbours in rank order |
| `Retrieval.SingleChunkScenario` | llm/rag_pipeline.py:142-145 | a one-chunk store searched for one neighbour answers with that chunk |
| `Retrieval.DefaultKScenario` | llm/rag_pipeline.py:129-145 | a one-chunk store searched with `k = 10` yields the chunk ten times as written, and once with the intended filter |

## Findings

| source | as written | input that shows it | evidently intended | confidence | as-written member | corrected member |
|---|---|---|---|---|---|---|
| llm/rag_pipeline.py:118-120 | each chunk is written as `f"{chunk}\n"` and read back one `strip()`ped line at a time, so a chunk holding a line feed comes back as several texts | a stored chunk `"a\nb"` (PDF text nearly always has line feeds): after a restart the store has one vector beside the texts `"a"` and `"b"`, and text `i` no longer belongs to vector `i` | line `i` of `chunks.txt` reads back as chunk `i`, for example by escaping line breaks | medium, not executed | `VectorStore.ReloadMisaligned` | `ChunkFile.FixedRoundTrip` |
| llm/rag_pipeline.py:143 | `i < len(chunks)` keeps the `-1` labels FAISS pads with, and Python reads `chunks[-1]` as the last chunk | a store of one chunk `c` searched with the default `k = 10`: labels `[0, -1, ..., -1]` give `c` ten times, joined by blank lines; an empty store gives an `IndexError` | keep only labels with `0 <= i < len(chunks)` | medium, not executed | `Retrieval.PaddedSearchRepeatsLastChunk` | `Retrieval.FixedKeepsOnlyRealNeighbours` |

`Retrieval.AnswerFixed` is the answer built with the corrected filter.
`Retrieval.DefaultKScenario` compares the two on the one-chunk store.
`ChunkFile.WriteChunksFixed` and `ChunkFile.ReadChunksFixed` are the corrected
file format: backslash, line feed and carriage return are escaped, and lines are
read back without `strip()`. The build in `VectorStore` keeps the format as
written.

## Left out

- PDF text extraction (`PdfReader`, page concatenation): a foreign library. The model takes the extracted text per path as given; a missing entry means `PdfReader` raised, and the file is skipped.
- The HTTP embedding call (`get_embedding`): network I/O. The answer to each call is an oracle (`embed`, and the query embedding). Float32 conversion is not modelled.
- FAISS internals and L2 distances: float numerics in a foreign library. The search is an oracle returning labels. `FaissLabels` describes what an exhaustive search returns. Distances are not modelled.
- MD5 itself: a parameter of the model. The streaming `update` calls are modelled as hashing the concatenated bytes.
- Filesystem details are not modelled:
  - `os.makedirs`;
  - a missing docs directory making `os.listdir` raise;
  - a hash file that exists but cannot be read.
- The two `os.listdir` calls are assumed to return the same list.
- Failed or partial writes while saving (the re-raise in the save block) are not modelled. `VectorStore.BuildOrLoad` assumes every write succeeds.
- Text-file encoding is not modelled: files are sequences of characters, and writing uses "\n" as line separator, as on POSIX systems.
- A loaded `index.faiss` is assumed to have dimension 768, like every index this code writes.
- `Chunker.SplitText`: `chunk_size` is a natural number. A negative window size would give Python's negative-slice behaviour, which is not modelled. A positive stride is required, because the source loops forever without one.
- Logging and the progress bar: no effect on results.
- `llm/ollama_llm.py`, `llm/check_dimension.py`, `app.py`, `main.py`, `template.py` and `logger.py` are not part of this model. They hold prompt formatting around a network call, float parsing for trends, UI, a CLI loop, scaffolding and logging configuration.
- Concurrency: the source runs single-threaded.
