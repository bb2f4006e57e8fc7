# rag-pdf-bot, modelled in Dafny

rag-pdf-bot answers questions about a PDF. Ingestion pulls the text out of
each page. It cuts that text into chunks of 350 words, embeds the chunks and
stores them in a Chroma collection named `pdf_chunks`. Each ingestion
replaces whatever that collection held before. To answer a question, the bot
fetches the closest chunks and joins them into a context of at most 1500
characters. It puts the context and the question into a fixed prompt, and
keeps what the language model writes after the last `ANSWER:`, stripped.

The model has three modules:

- `PyStr` (`pystr.dfy`) models the Python string built-ins the code relies
  on: `str.split()`, `str.split(sep)` with `[-1]`, `sep.join`, `str.strip()`
  and `str(i)`. Whitespace is Python's `str.isspace()` set. `Join` and
  `LastPiece` are plain definitions. Lemmas state what they do:
  `JoinStartsWithFirst`, `WordsOfJoin`, `JoinSplitOn` and
  `LastPieceIsAfterLastSeparator`.
- `Ingest` (`ingest.dfy`) covers `load_pdf`, `chunk_text` and
  `store_embeddings`, written imperatively as they are in the source. The
  collection is a class whose `records` map goes from id to (document,
  embedding).
- `RagPipeline` (`rag_pipeline.dfy`) covers `get_relevant_chunks` and
  `answer_question` as pure functions.

Outside collaborators become parameters:

- PDF extraction: a document is given as the texts of its pages.
- The embedding model: `encode: string -> E`.
- The store lookup (opening the collection, embedding the question, the
  nearest-neighbour query): `search`. It returns a query result or a failure.
- The language model: `llm: string -> string`. It returns the
  `generated_text` of the first result.

Three behaviours of the code are easy to misread; the model follows the
code:

- A `chunk_size` below 1 is not rejected. `chunk_text` adds a word and then
  tests `len(current_chunk) >= chunk_size`, which is always true. So every
  word becomes its own chunk (`Ingest.ChunkWidth`).
- Asking before any ingestion does not give a separate "not ingested"
  error. The docstring of `load_collection` says it raises a RuntimeError
  when the collection is missing (app/rag_pipeline.py:21). The code instead
  falls back to `get_or_create_collection` (app/rag_pipeline.py:31-32), so
  an empty collection answers the query. Its empty result list gives the
  no-information answer. Only a store call that fails is an error
  (`RagPipeline.Error.StoreFailure`).
- `results.get("documents", [[]])[0]` has two failure cases. A `None`
  value fails with a TypeError (`NullDocuments`). An empty list fails with
  an IndexError (`NoResultList`). A missing key gives the empty list.

## Model

| member | source | states |
|---|---|---|
| `PyStr.Words` | app/ingest.py:24 | `text.split()` returns only words: non-empty and free of whitespace |
| `PyStr.WordsEmptyIff` | app/ingest.py:24 | `text.split()` is empty exactly when the text is empty or only whitespace |
| `PyStr.WordsOfJoin` | app/ingest.py:24-31 | splitting the `" ".join` of a list of words gives that list back |
| `PyStr.SplitOn` | app/rag_pipeline.py:97 | `s.split(sep)` always returns at least one piece, so `[-1]` never fails |
| `PyStr.JoinStartsWithFirst` | app/rag_pipeline.py:67 | `sep.join(parts)` begins with the first part |
| `PyStr.JoinSplitOn` | app/rag_pipeline.py:97 | `sep.join(s.split(sep)) == s`: the split loses nothing |
| `PyStr.LastPieceIsAfterLastSeparator` | app/rag_pipeline.py:97 | `s.split(sep)[-1]` is a suffix of `s` with no `sep` in it. It is all of `s` when `sep` is absent, and it comes right after an occurrence of `sep` otherwise |
| `PyStr.LastPieceAfterSeparator` | app/rag_pipeline.py:97 | for a separator whose first character does not recur in it, the text after its last occurrence is exactly `s.split(sep)[-1]` |
| `PyStr.OverlappingSeparatorLastPiece` | app/rag_pipeline.py:97 | for the self-overlapping separator `"aa"`, `"aaa".split("aa")[-1]` is `"a"`, not the empty text after the last occurrence, so `LastPieceAfterSeparator` needs its restriction |
| `PyStr.LeftStrip` | app/rag_pipeline.py:97 | `lstrip()` removes only a run of leading whitespace and leaves a result that does not start with whitespace |
| `PyStr.RightStrip` | app/rag_pipeline.py:97 | `rstrip()` removes only a run of trailing whitespace and leaves a result that does not end with whitespace |
| `PyStr.Strip` | app/rag_pipeline.py:97 | `strip()` returns a slice of its input with only whitespace before and after it, and with no whitespace at either end |
| `PyStr.StripKeepsAbsence` | app/rag_pipeline.py:97 | `strip()` cannot create an occurrence of a substring |
| `PyStr.StripSkipsSpace` | app/rag_pipeline.py:97 | leading whitespace makes no difference to `strip()` |
| `PyStr.StripStripped` | app/rag_pipeline.py:97 | `strip()` leaves a string with no outer whitespace unchanged |
| `PyStr.NatToString` | app/ingest.py:55 | `str(i)` is a non-empty string of decimal digits |
| `PyStr.DecimalValueOfNatToString` | app/ingest.py:55 | reading back the digits of `str(i)` gives `i` |
| `PyStr.NatToStringInjective` | app/ingest.py:55 | different numbers have different `str(i)` |
| `Ingest.NonEmptyPages` | app/ingest.py:15-17 | keeps no empty page, keeps every page with text, and keeps only pages that are in the document |
| `Ingest.NonEmptyPagesMultiplicity` | app/ingest.py:13-17 | each page with text is kept as often as it occurs in the document, and no empty page is kept |
| `Ingest.LoadPdf` | app/ingest.py:9-19 | the loop returns the texts of the pages that have text, in page order, each followed by `"\n\n"` |
| `Ingest.PdfTextEmptyIff` | app/ingest.py:13-19 | the loaded text is empty exactly when no page yields text |
| `Ingest.PdfTextEndsWithBreak` | app/ingest.py:16-17 | loaded text that is not empty ends with `"\n\n"` |
| `Ingest.ChunkWidth` | app/ingest.py:29-30 | a chunk closes after `chunk_size` words, or after every word when `chunk_size` is below 1 |
| `Ingest.GroupFlatten` | app/ingest.py:28-35 | concatenating the word groups gives the word list back |
| `Ingest.GroupSizes` | app/ingest.py:28-35 | each group holds 1 to `chunk_size` words, and every group but the last holds exactly `chunk_size` |
| `Ingest.GroupAppend` | app/ingest.py:29-32 | after complete groups, the next group a chunk closes is appended unchanged |
| `Ingest.ChunkText` | app/ingest.py:23-37 | the loop returns the groups of `chunk_size` words joined by spaces, with the shorter remainder last |
| `Ingest.WordsOfChunks` | app/ingest.py:24-35 | splitting chunk i on whitespace gives back its group of words |
| `Ingest.ChunkWordCounts` | app/ingest.py:28-35 | every chunk has 1 to `chunk_size` words, and all but the last have exactly `chunk_size` |
| `Ingest.ChunksPreserveWords` | app/ingest.py:24-35 | the words of the chunks, in order, are exactly `text.split()`: none dropped, repeated or moved |
| `Ingest.ChunkCount` | app/ingest.py:28-35 | the number of chunks n gives (n-1)·size < words ≤ n·size, that is n = ceil(words / size) |
| `Ingest.ChunksEmptyIff` | app/ingest.py:24-37 | no chunk comes out exactly when the text is empty or only whitespace |
| `Ingest.SevenHundredWords` | app/ingest.py:23-37 | 700 words at the default size give two chunks of 350 words each |
| `Ingest.ChunkIdInjective` | app/ingest.py:55 | `chunk_i` and `chunk_j` are equal only when i = j |
| `Ingest.ChunkIds` | app/ingest.py:55 | the id list has one id per chunk, `chunk_i` at position i, and no id occurs twice |
| `Ingest.ChunkIdSet` | app/ingest.py:55 | the ids `chunk_0` to `chunk_{n-1}` form a set of exactly n ids |
| `Ingest.Entries` | app/ingest.py:57-61 | `add` stores the i-th document and embedding under the i-th id, and no other id. Since the ids are distinct, it makes exactly as many entries as there are ids |
| `Ingest.ReplacementContents` | app/ingest.py:49-61 | after the replace, the keys are exactly `chunk_0..chunk_{n-1}`. There are n entries, `chunk_i` holds `chunks[i]` and its embedding, and every document is one of the chunks |
| `Ingest.Collection.Delete` | app/ingest.py:50-51 | removes exactly the given ids |
| `Ingest.Collection.Add` | app/ingest.py:57-61 | adds the new entries to the ones already stored, for ids not yet present |
| `Ingest.StoreEmbeddings` | app/ingest.py:41-61 | after delete-then-add, the collection holds exactly the new chunks' entries. Nothing from before survives |
| `Ingest.Reingest` | app/ingest.py:48-61 | after two ingestions only the second document's chunks are stored |
| `RagPipeline.FirstDocuments` | app/rag_pipeline.py:56 | a missing `documents` key gives no chunks. A null value or an empty list is an error, and nothing else is. Otherwise the result is the first list |
| `RagPipeline.RelevantChunks` | app/rag_pipeline.py:42-58 | a failing store call fails with the same error. A result without `documents` gives no chunks. `None` or an empty list fails, and nothing else does. Any other chunks are the first list of documents |
| `RagPipeline.MissingDocumentsKey` | app/rag_pipeline.py:56-64 | a query result without `documents` leads to the no-information answer, not to a failure |
| `RagPipeline.Context` | app/rag_pipeline.py:67-68 | the context is a prefix of the chunks joined by `"\n\n"`, of length min(1500, length of the join) |
| `RagPipeline.LongFirstChunkFillsContext` | app/rag_pipeline.py:67-68 | truncation applies to the joined text. A first chunk of 1500 characters or more fills the whole context |
| `RagPipeline.Prompt` | app/rag_pipeline.py:71-88 | the prompt contains the refusal text, the context and the question. It ends with the `FINAL ANSWER:` cue and then only whitespace |
| `RagPipeline.ExtractAnswer` | app/rag_pipeline.py:97 | the extracted answer contains no `ANSWER:` and has no surrounding whitespace |
| `RagPipeline.ExtractWithoutMarker` | app/rag_pipeline.py:97 | output without `ANSWER:` becomes the answer as a whole, stripped |
| `RagPipeline.ExtractAfterMarker` | app/rag_pipeline.py:97 | whatever text comes before a final `ANSWER:`, what follows it (the indentation, then a continuation without `ANSWER:`) gives the continuation, stripped |
| `RagPipeline.ExtractAfterEchoedPrompt` | app/rag_pipeline.py:87-97 | when the output repeats the prompt and adds text without `ANSWER:`, the answer is that text, stripped |
| `RagPipeline.NoInformationIsClean` | app/rag_pipeline.py:64 | the no-information answer contains no `ANSWER:` and is already stripped |
| `RagPipeline.RefusalIsClean` | app/rag_pipeline.py:77 | the refusal text contains no `ANSWER:` and is already stripped |
| `RagPipeline.AnswerQuestion` | app/rag_pipeline.py:61-100 | the answer fails exactly when retrieval fails. No chunks give `"No relevant information found in document."`. Every other answer contains no `ANSWER:` and has no outer whitespace |
| `RagPipeline.NoChunksIgnoresModel` | app/rag_pipeline.py:62-64 | with no chunks the answer does not depend on the model, so the model is not consulted |
| `RagPipeline.AnswerIsContinuation` | app/rag_pipeline.py:71-97 | when the model repeats the prompt and continues it without `ANSWER:`, the answer is the continuation, stripped |
| `RagPipeline.RefusalComesBackVerbatim` | app/rag_pipeline.py:76-97 | a model that repeats the prompt and then gives the refusal yields exactly the refusal text |

## Left out

- PDF parsing (`PdfReader`, `page.extract_text()`): a document is the list of its pages' texts. A page that yields `None` is written as the empty string, which `if content:` treats the same way. An unreadable or corrupt file makes `PdfReader` or `extract_text()` raise out of `load_pdf` (app/ingest.py:10, app/ingest.py:15). The model has no such case.
- The embedding model (`SentenceTransformer`, `model.encode(...).tolist()`, `app/embeddings.py`): the function parameter `encode`. The model does not cover floating-point vectors or lazy model loading.
- Chroma's client, persistence on disk and nearest-neighbour ordering: only `get`, `delete` and `add` on a map from id to entry are modelled. `Ingest.Collection.Add` requires equal list lengths and distinct ids, which Chroma checks before it adds. `Ingest.Collection.Add` also requires that no new id is already stored. What Chroma does with an id already present is not modelled. `store_embeddings` never adds one, because it deletes first. What Chroma does with an empty `add` is not modelled either.
- `load_collection` and the query inside `get_relevant_chunks`: together they are the function parameter `search`, which returns either a result or `StoreFailure`. The exception-driven fallback from `get_collection` to `get_or_create_collection` is not modelled step by step.
- Failures of the embedding and language models: `encode` and `llm` are total functions. In the source an exception from either propagates out of `store_embeddings` or `answer_question`. Because `store_embeddings` deletes (app/ingest.py:49-51) before it encodes (app/ingest.py:54), a failing encode leaves the collection empty. The model does not show that state.
- The default `top_k=3` of `get_relevant_chunks` and `answer_question` (app/rag_pipeline.py:42, app/rag_pipeline.py:61): the model always takes `topK` as a parameter. The constant `RagPipeline.DefaultTopK` records the default, and no lemma depends on its value.
- Where the store lives: `store_embeddings` opens `../chroma_db` relative to the working directory (app/ingest.py:44), while the answering side opens `chroma_db` next to `app/rag_pipeline.py` (app/rag_pipeline.py:9). Whether ingestion and answering see the same `pdf_chunks` collection depends on where the program is started. The model treats the collection written by `Ingest` and the one read through `search` as unrelated parameters.
- The text-generation pipeline and its flags (`max_new_tokens=256`, `truncation`, `do_sample=False`, `temperature`): the function parameter `llm`.
- `print` calls, the command-line blocks under `__main__`, and the model and client construction at module level: these are I/O or set-up with no logic of their own.
- `app/main.py`, `app/schemas.py` and `frontend/script.js` are not part of this model. They are HTTP routing, data classes and browser code. The upload response key `chunk_stored` (app/main.py:44) does not match the `chunks_stored` that the frontend reads (frontend/script.js:64). That mismatch is outside the modelled core.
- `PyStr.LastPieceAfterSeparator`: proved only for separators whose first character occurs nowhere else in them, as is the case for `ANSWER:`. For a separator that overlaps itself the statement is false, as `PyStr.OverlappingSeparatorLastPiece` shows with `"aa"`. The case that holds but is not proved is a separator that cannot overlap itself although its first character recurs, such as `"aab"`. The answer extraction does not need it.
