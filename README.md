# Dynamic Knowledge Updater: `fetch_and_embed` in Dafny

This is a model of `fetch_and_embed`, the one function of the
Dynamic Knowledge Updater's data-preparation script (`src/embedder.py`). For a
topic, the function does four things in order:

1. It resolves the topic to Wikipedia article text. It tries a direct page
   lookup first. If that fails, it searches for the topic and looks up the
   first title the search returns.
2. It saves the text to `data/<topic with spaces and slashes replaced by
   underscores>.txt`. The save is best-effort.
3. It cuts the text into consecutive `chunk_size`-character chunks.
4. It embeds every chunk with a sentence-embedding model.

The model has two modules:

- `PyBuiltins` (`pybuiltins.dfy`) holds the Python semantics the function is
  written with:
  - `range(start, stop, step)`, including the `ValueError` it raises for a zero
    step;
  - slicing with clamped bounds;
  - single-character `str.replace`;
  - `''.join`, used only to state the reassembly property.

  Strings are sequences of Dafny `char`s, which are Unicode scalar values,
  so `len` and slicing count characters as Python's `str` does. Unlike a
  Python `str`, a Dafny string cannot hold a lone surrogate (U+D800 to U+DFFF,
  as `surrogateescape` decoding can produce). Such a text would in any case
  fail the UTF-8 write at src/embedder.py:40, which the `write` parameter
  already covers.
- `Embedder` (`embedder.dfy`) holds the sanitiser, the chunker, the fetch with
  its fallback, and the whole call as a pure function. The knowledge base, the
  file system and the embedding model are parameters:
  - a `Wiki` gives one answer per call site, each a result or a failure:
    `page(topic)` for the direct lookup `wikipedia.page(topic).content`,
    `search(topic)` for the ranked titles, and `fallbackPage(title)` for the
    second lookup. The two lookups are separate requests, so the second can
    succeed for a title on which the first failed;
  - `write(name, text)` says whether the save succeeded;
  - `embed(chunk)` gives one chunk's vector, with the vector type left generic.

  A call yields a `Run`. The `Run` records the save attempt, if the call got
  that far (directory, file name, content, success), and the outcome: either
  the returned `(chunks, embeddings)` or the exception that escapes.

Some behaviour of the code is easy to miss, and the model follows the code:

- `chunk_size` is an arbitrary integer.
  - With `0`, `range` raises `ValueError`. This happens after the article has
    been fetched and its save attempted, so the call raises even though fetch
    and save problems never do.
  - A negative size gives an empty `range`. The text is fetched and its save
    attempted, and the call returns no chunks and no embeddings.
- When the search finds no titles, the `[0]` raises. This is caught like any
  other lookup failure.
- Distinct topics can map to the same file. For example, `"a b"` and `"a/b"`
  are both saved as `a_b.txt`.

## Model

| member | source | states |
|---|---|---|
| `PyBuiltins.ProgressionValues` | src/embedder.py:47 | the values of `range(start, stop, step)` for a non-zero step: the k-th is start + k·step, each lies strictly before `stop`, and the next one would not |
| `PyBuiltins.ClampIndex` | src/embedder.py:47 | how a slice bound is resolved: a bound inside the sequence is kept, a negative one counts from the end, anything outside is clamped |
| `PyBuiltins.SliceFromInside` | src/embedder.py:47 | `s[i:j]` with `0 <= i <= len(s)` and `i <= j` is the run from `i` up to `min(j, len(s))`, of that length |
| `PyBuiltins.ReplaceChar` | src/embedder.py:37 | `str.replace` with one-character arguments keeps the length, puts the replacement at every position holding the target, and changes no other position |
| `Embedder.SafeTopic` | src/embedder.py:37 | the sanitised topic has the topic's length, holds no space and no slash, has `_` where the topic has a space or slash, and every other character unchanged |
| `Embedder.FileName` | src/embedder.py:37-38 | the saved file's name is the sanitised topic plus `.txt`, and it holds no space or slash |
| `Embedder.SafeTopicFixedPoints` | src/embedder.py:37 | sanitising leaves a topic unchanged if and only if the topic holds neither a space nor a slash |
| `Embedder.SafeTopicIdempotent` | src/embedder.py:37 | sanitising an already sanitised topic returns it unchanged |
| `Embedder.SafeTopicCollides` | src/embedder.py:37-38 | two distinct topics ("a b", "a/b") are saved under the same file name |
| `Embedder.Chunks` | src/embedder.py:47 | the chunk comprehension fails (the `range` raises) exactly when the chunk size is zero |
| `Embedder.NegativeSizeGivesNoChunks` | src/embedder.py:47 | a negative chunk size yields an empty chunk list |
| `Embedder.ChunksCover` | src/embedder.py:47 | with q chunks, q·size reaches the end of the text, and the last chunk starts inside it |
| `Embedder.ChunkAt` | src/embedder.py:47 | chunk k starts at offset k·size inside the text and equals `text[k·size .. min((k+1)·size, len(text))]` |
| `Embedder.ChunkCount` | src/embedder.py:47 | the number of chunks is ceil(len(text) / size), and it is zero exactly when the text is empty |
| `Embedder.ChunkLengths` | src/embedder.py:47 | every chunk but the last has exactly `size` characters, and the last has between 1 and `size` |
| `Embedder.JoinedPrefix` | src/embedder.py:47 | the first m chunks joined are the text up to offset min(m·size, len(text)) |
| `Embedder.ChunksReassemble` | src/embedder.py:47 | the chunks joined in order give back the text exactly: no overlap and no loss |
| `Embedder.ChunksExample` | src/embedder.py:47 | "HelloWorld" in chunks of 5 is ["Hello", "World"] |
| `Embedder.Fetch` | src/embedder.py:26-34 | a successful direct lookup wins; otherwise the fallback lookup of the first search result is used; a failed or empty search fails the fetch |
| `Embedder.RepeatedLookupRepeatsFailure` | src/embedder.py:26-34 | when the search ranks the topic itself first and the second lookup of it fails as the first did, the whole fetch fails |
| `Embedder.Encode` | src/embedder.py:52 | the encoder gives one vector per chunk, with vector i the embedding of chunk i |
| `Embedder.FetchAndEmbed` | src/embedder.py:11-55 | a failed fetch saves nothing and returns ([], []); a successful one attempts to save the fetched text under `data/` as the sanitised topic, recording what the write reported; only a zero chunk size raises, and only after a fetch; otherwise the chunks returned are exactly the chunker's chunks of the fetched text; embeddings pair index for index with chunks |
| `Embedder.BothLookupsFail` | src/embedder.py:26-34 | when the direct lookup and the fallback both fail, the call returns ([], []) and saves nothing, for any chunk size |
| `Embedder.DirectLookupWins` | src/embedder.py:26-27 | when the direct lookup succeeds, neither the search nor the fallback lookup is consulted, and the direct page's text is what gets saved |
| `Embedder.FallbackText` | src/embedder.py:28-47 | when only the fallback succeeds, the fallback page's text is saved and chunked (the chunks rebuild it), under a file named after the original topic and not after the search result |
| `Embedder.SaveFailureIsHarmless` | src/embedder.py:39-47 | whether the save succeeds changes neither the returned chunks and embeddings nor what was written where |
| `Embedder.FetchedTextIsChunked` | src/embedder.py:26-55 | with a positive chunk size, a successful fetch returns chunks that rebuild the fetched text and number ceil(len(text) / size), with as many embeddings |
| `Embedder.DefaultChunkSizeCall` | src/embedder.py:11-55 | with the default `chunk_size=1000`, a successful fetch returns ceil(len(text) / 1000) chunks, each of 1 to 1000 characters |
| `Embedder.ZeroChunkSizeRaisesAfterSave` | src/embedder.py:36-47 | with chunk size 0 and a successful fetch, the save is attempted first and then `range` raises `ValueError` |
| `Embedder.NegativeChunkSizeGivesNothing` | src/embedder.py:36-55 | with a negative chunk size and a successful fetch, its save is attempted, but no chunks and no embeddings are returned |

## Left out

- Network calls. `wikipedia.page` and `wikipedia.search` (src/embedder.py:27, 30-31) are external library calls. They become the three answers of a `Wiki`, each a result or a failure. Which exception is raised is not modelled, since `except Exception` catches them all.
- File system.
  - `os.makedirs` (src/embedder.py:9) is left out.
  - `os.path.join` (src/embedder.py:38) is platform-dependent. The save attempt keeps the directory and the file name apart instead.
  - `open`/`write` (src/embedder.py:40-41) becomes the `write` parameter, which only reports success or failure. A partially written file is not modelled.
- The embedding model. Loading `SentenceTransformer` (src/embedder.py:6) and the floating-point vectors of `model.encode(...).tolist()` (src/embedder.py:52) are not modelled.
- Encode: assumes that `model.encode` embeds each chunk independently and returns one vector per chunk. An error raised by the model, which would propagate to the caller, is not modelled.
- Timing with `time.time()` and all `print` messages (src/embedder.py:24, 33, 42, 44, 48, 51, 53) are console output and wall-clock time. They are not modelled.
- Exceptions that `except Exception` does not catch, such as `KeyboardInterrupt`, are not modelled.
- Determinism across calls is not stated as a lemma. Every member here is a mathematical function, so two calls with the same arguments give the same result by construction.
