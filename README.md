# Retrieval pipeline of the document-query assistant, in Dafny

This project models the retrieval core of `without_langchain/lgout.py`, the
assistant that answers questions about extracted document text:

- **`chunk_text`** splits a text on whitespace into words and emits windows
  of `chunk_size` words (default 300) whose starts advance by
  `chunk_size - overlap` words (default 50 overlap), each window joined back
  with single spaces (module `Chunking`, file `chunking.dfy`).
- **`FAISSVectorStore`** keeps the chunk texts in `documents` beside a FAISS
  `IndexFlatL2` of their embeddings. The index is created on the first
  `add_documents` with that batch's dimension; `search` maps the ids the
  index returns back to documents (module `VectorStore`, class
  `FaissVectorStore`, file `vector_store.dfy`).
- **`IndexFlatL2.search`**, the exhaustive scan the store's index performs,
  has a reference definition: the `min(k, n)` rows nearest to the query in
  squared Euclidean distance, nearest first, padded with `-1` up to `k`
  (module `FlatL2`, file `flat_l2.dfy`).
- **`generate_answer`** searches for five hits, builds a prompt from the
  first 600 characters of the hits, the last five entries of
  `conversation_history` and the query, calls the language model and records
  `"User: …"` and `"AI: …"` in the history (module `Answering`, class
  `Assistant`, file `answering.dfy`).

The Python built-ins these functions depend on are modelled with CPython's
semantics in module `Py` (`python.dfy`): `str.split()` with its whitespace
set, `sep.join`, slicing with negative and out-of-range bounds, indexing with
negative indices, and `range(start, stop, step)`. `wrappers.dfy` holds the
`Option` and `Result` types.

Foreign code is a parameter of the model:

- the SentenceTransformer embedding is `embed: string -> Vector`, given to
  the store's constructor with its fixed dimension;
- the FAISS nearest-neighbour search is `knn(rows, queryVector, k)`, given
  to `Search`; it returns the ids FAISS would return, and `FlatL2.Search`
  is the exhaustive scan an `IndexFlatL2` does, proved to be one such `knn`;
- `run_llama` is `llm: string -> LlamaResult`: the model's stripped output,
  `None` for a non-zero exit status, or `Raised` when `subprocess.run` raises.

The model follows the code as written: chunking parameters are not
validated (a zero step raises `ValueError` from `range`, a negative step
yields no chunks), history is never evicted, there is no dimension check and no empty-query check, a
failed model call still records `"AI: None"`, and a store with fewer than
`k` chunks returns the last chunk repeated instead of a shorter list.

## Model

| member | source | states |
|---|---|---|
| `Py.SplitWords` | without_langchain/lgout.py:56 | every word `text.split()` yields is non-empty and free of whitespace |
| `Py.SplitEmptyIffBlank` | without_langchain/lgout.py:56 | `text.split()` is empty exactly when the text is empty or all whitespace |
| `Py.SplitJoin` | without_langchain/lgout.py:56-60 | splitting words joined by single spaces gives the same words back |
| `Py.SliceNonNegative` | without_langchain/lgout.py:60 | `words[i:i + size]` with `i >= 0` is the words from `i` to `i + size`, both capped at the length |
| `Py.SlicePrefix` | without_langchain/lgout.py:79 | `s[:600]` is the prefix of length `min(600, len(s))` |
| `Py.SliceLast` | without_langchain/lgout.py:94 | `h[-5:]` is the last `min(5, len(h))` entries of `h` |
| `Py.RangeAscending` | without_langchain/lgout.py:59 | with a positive step, `range(0, n, s)` yields exactly `0, s, 2s, …` below `n` and stops at the first multiple reaching `n` |
| `Py.RangeLength` | without_langchain/lgout.py:59 | with a positive step, `range(0, n, s)` has `ceil(n / s)` elements |
| `Py.RangeDescendingEmpty` | without_langchain/lgout.py:59 | with a negative step, `range(0, n, s)` is empty |
| `Chunking.Chunks` | without_langchain/lgout.py:54-63 | `chunk_text` raises exactly when `chunk_size == overlap` (zero step) |
| `Chunking.ChunkText` | without_langchain/lgout.py:54-63 | the loop that appends one joined window per range element returns exactly `Chunks` |
| `Chunking.ChunkCount` | without_langchain/lgout.py:59 | for `0 <= overlap < chunk_size` there are `ceil(len(words) / (chunk_size - overlap))` chunks |
| `Chunking.WindowStart` | without_langchain/lgout.py:59-60 | window `j` starts at `j * step`, inside the words, and is `words[j*step : min(j*step + size, len)]` |
| `Chunking.ChunkAt` | without_langchain/lgout.py:59-61 | chunk `j` is the join of `words[j*step : min(j*step + size, len)]`, holds 1 to `chunk_size` words, and re-splits to exactly those words |
| `Chunking.Coverage` | without_langchain/lgout.py:56-61 | for `0 <= overlap < chunk_size` every word index lies in some chunk, at the matching position |
| `Chunking.NoOverlapPartition` | without_langchain/lgout.py:56-61 | with `overlap == 0` the chunks' words concatenate to the text's words: the chunks partition the text |
| `Chunking.BlankText` | without_langchain/lgout.py:56-63 | empty or all-whitespace text gives no chunks; with a positive step only such text does; a negative step gives none |
| `VectorStore.ChunkTexts` | without_langchain/lgout.py:30-32 | the loop of `add_documents` gathers the default chunks of every text, in input order |
| `VectorStore.KeptFilters` | without_langchain/lgout.py:48 | the filter keeps exactly the ids below `len(documents)`, all of them when all are below |
| `VectorStore.HitsShape` | without_langchain/lgout.py:48 | the lookup raises exactly when an id is below `-len(documents)`; otherwise it yields one stored document per kept id, in the index's order |
| `VectorStore.FaissIdsAllKept` | without_langchain/lgout.py:46-48 | ids shaped as `IndexFlatL2.search` returns them (row numbers, then `-1` padding) all pass the filter |
| `VectorStore.PaddingRepeatsLast` | without_langchain/lgout.py:46-48 | with fewer than `k` chunks, search yields `k` hits: the chosen chunks, then the last chunk repeated for each `-1` |
| `VectorStore.FaissVectorStore.constructor` | without_langchain/lgout.py:25-27 | a new store has no index and no documents |
| `VectorStore.FaissVectorStore.AddDocuments` | without_langchain/lgout.py:29-38 | `documents` becomes the old documents followed by the chunks of each text; index rows stay one per document and equal to its embedding; the index and its dimension are created only when there was none; an empty batch changes nothing |
| `VectorStore.FaissVectorStore.Retrieve` | without_langchain/lgout.py:40-48 | an empty store yields no hits; every hit is a stored document |
| `VectorStore.FaissVectorStore.Search` | without_langchain/lgout.py:40-48 | `search` returns what `Retrieve` specifies, checking for an empty store before embedding the query |
| `FlatL2.SqDistZero` | without_langchain/lgout.py:36 | the L2 distance between vectors of one dimension is 0 exactly when they are equal |
| `FlatL2.Search` | without_langchain/lgout.py:46 | the scan returns `k` ids: row numbers for the first `min(k, n)`, `-1` for the rest |
| `FlatL2.SearchDistinct` | without_langchain/lgout.py:46 | no row is returned twice |
| `FlatL2.SearchAscending` | without_langchain/lgout.py:46 | the rows come in order of non-decreasing distance to the query |
| `FlatL2.SearchNoNearer` | without_langchain/lgout.py:46 | no row left out is nearer to the query than a row returned |
| `FlatL2.ExactMatchFirst` | without_langchain/lgout.py:46 | when a stored row equals the query, the first id returned is a row at distance 0 |
| `VectorStore.FaissVectorStore.FlatSearchHits` | without_langchain/lgout.py:40-48 | searching a non-empty store through an exhaustive L2 scan yields `k` hits: the documents of the `min(k, n)` nearest distinct rows, nearest first, then the last document repeated |
| `Answering.Context` | without_langchain/lgout.py:79 | the context is the prefix of `"\n".join(hits)` of length `min(600, len)` |
| `Answering.Exchange` | without_langchain/lgout.py:73-102 | history is only appended to, by at most two entries; no hits gives the fixed reply and no new entry; a search error gives the error reply and no new entry; with hits the first new entry is `"User: q"`; the reply is never empty |
| `Answering.ExchangeWithHits` | without_langchain/lgout.py:79-98 | with hits and a model that runs, history gains exactly `"User: q"` then `"AI: r"`, and the reply is `r` unless `r` is missing or empty |
| `Answering.PromptWindow` | without_langchain/lgout.py:81-94 | the prompt's past conversation is the last `min(5, n + 1)` entries, taken after the user entry is added, ending with it |
| `Answering.HistoryOnlyGrows` | without_langchain/lgout.py:71-97 | over any sequence of calls no entry is evicted and each call adds at most two entries |
| `Answering.HistoryGrowsByTwo` | without_langchain/lgout.py:84-97 | when every search finds hits and the model always runs, each call adds exactly two entries |
| `Answering.Assistant.constructor` | without_langchain/lgout.py:71 | the conversation starts with an empty history |
| `Answering.Assistant.GenerateAnswer` | without_langchain/lgout.py:73-102 | the reply and the new history are those of `Exchange` on the old history and what the store retrieves for the query |

## Left out

- Text extraction (OCR, PDF and DOCX parsing), the Tesseract path check and the interactive `main` loop: file and console I/O through foreign libraries.
- The embedding model: an arbitrary function of fixed dimension, with vector values as integers; floating-point arithmetic is not modelled.
- The FAISS index internals: `knn` is an arbitrary function of the stored rows, the query vector and `k`. The shape FAISS gives its result (row numbers first, `-1` padding when fewer than `k` rows) is an assumption stated in `FaissShaped`, used only by `PaddingRepeatsLast` and `FaissIdsAllKept`; `FlatL2.Search` is proved to have that shape.
- `FlatL2.Search`: which of several rows at the same distance comes first is left open (FAISS breaks ties by its heap order); vector components are integers rather than `float32`, so rounding is not modelled; a `k` below 1, which FAISS rejects, is taken as asking for no neighbours.
- `VectorStore.FaissVectorStore.AddDocuments`: an empty batch raises inside numpy or FAISS (the batch array has no second dimension); the model returns `EmptyBatch` with nothing stored, the state the exception leaves. The in-place `index.add` is modelled by replacing an index value that only the store holds.
- Exceptions other than `IndexError` during lookup and an exception from `run_llama`: embedding failures and other foreign errors caught by the `except` of `generate_answer` are not modelled.
- Printing of error messages and of answers.
- `transcript/transcript.py`, `transcript/image_transcript.py`, `langchain/new.py` and `without_langchain/frontendollama.py` are not part of this model: media and document I/O, a LangChain wrapper and a Streamlit interface.
- Concurrency: the source is single-threaded.
