# Film RAG pipeline: cleaning, chunking, retrieval and prompt assembly in Dafny

This project models the deterministic logic of a small retrieval-augmented film
recommender. Around it sit I/O and library calls that are not modelled. It has five modules:

- `Outcome` (`outcome.dfy`): `Option` stands for Python's `None`/pandas NaN. `Result` stands for a raised error.
- `Text` (`text.dfy`): the Python string operations the code relies on, over ASCII.
  These are `lower`, `strip`, `replace(pat, "")`, `split()` with no argument and
  `sep.join`. The key fact proved here is that `split()` inverts `' '.join` on words.
- `DataProc` (`data_proc.dfy`): the `Dataset_proc` rules. It covers the title
  normaliser used as the join key and word-count truncation of overviews. It also
  covers the per-row coalesce and filter rules, and keep-first deduplication, that
  `preprocess_film_data` applies to the merged TMDB/Letterboxd table. Here that table
  is a sequence of fixed-shape `MergedRow` records.
- `FaissIndex` (`faiss_index.dfy`): the `FaissIndex` class. It models the chunk loop
  of `build` (two chunks per row, meta then plot, over at most 300 rows) and the
  cluster-count rule (integer square root). It models the build outcome and the two
  files it writes, and the lazy load guard of `search`. The guard can leave an
  instance unloaded, loaded, or half loaded (`IndexOnly`): the index file was read
  but opening the metadata file raised. Last, it
  models how search ordinals map back to chunk texts. The sentence-embedding model
  and FAISS are oracles. A search is given the `(distances, indices)` arrays FAISS
  returns for the query: one row of `top_k` candidates, with `-1` for "no candidate".
- `BaseLlm` (`base_llm.dfy`): the `BaseLLMModel` message list of `generate` and the
  system prompt of `generate_with_context`.

## Model

| member | source | states |
|---|---|---|
| Text.Words | src/dataset/data_proc.py:27 | `split()` yields non-empty, whitespace-free words, each made only of characters of the input |
| Text.WordsConcat | src/dataset/data_proc.py:27 | the words of `s`, written one after the other, are exactly the non-whitespace characters of `s` in order, so `split` drops only whitespace |
| Text.WordsCons | src/dataset/data_proc.py:27 | a whitespace-free word followed by whitespace or by nothing splits off as the first word, and the split continues on the rest |
| Text.WordsOfJoin | src/dataset/data_proc.py:24 | splitting a space-joined list of words gives back exactly that list (`split` inverts `' '.join`) |
| Text.CollapseShape | src/dataset/data_proc.py:24 | `' '.join(s.split())` has no leading, trailing or doubled space, keeps the words of `s`, and is idempotent |
| Text.CollapsedIsFixed | src/dataset/data_proc.py:24 | a string with no leading, trailing or doubled space and no other whitespace is left unchanged by `' '.join(s.split())` |
| Text.JoinContains | src/models/base_llm.py:75 | joining keeps every part intact: part `i` occurs verbatim at its offset in the joined string |
| Text.JoinSeparatorAt | src/models/base_llm.py:75 | the separator occurs right after every part but the last |
| Text.JoinLength | src/models/base_llm.py:75 | a join is as long as its parts together plus one separator per gap between neighbouring parts |
| DataProc.NormalizeTitle | src/dataset/data_proc.py:18-24 | a missing title gives ""; any other result holds only lower-case letters, digits and single inner spaces, with no space at either end |
| DataProc.NormalizeTitleIgnoresCase | src/dataset/data_proc.py:21 | a title and its lower-cased form normalise to the same key |
| DataProc.NormalizeTitleIgnoresPadding | src/dataset/data_proc.py:21 | whitespace before or after a title does not change its key |
| DataProc.NormalizeTitleDropsLeadingArticle | src/dataset/data_proc.py:21-22 | "the X", "a X" and "an X" have the same key as "X" whenever X starts with a non-space character (stated for the lower-case articles; with NormalizeTitleIgnoresCase it follows for "The X" and every other case) |
| DataProc.DropArticles | src/dataset/data_proc.py:22 | deleting the three article patterns never lengthens a title and introduces no new character |
| DataProc.DropArticlesInsideWord | src/dataset/data_proc.py:22 | the article deletion works on substrings, not words: "a " is cut out after any prefix free of 't' and 'a', so "sea wolf" becomes "sewolf" |
| DataProc.NormalizeTitleOneWord | src/dataset/data_proc.py:18-24 | a title without whitespace keys as its lower-cased alphanumeric characters in order: punctuation is deleted rather than turned into a space, so "Spider-Man" keys as "spiderman" |
| DataProc.NormalizeTitleKeepsKey | src/dataset/data_proc.py:18-24 | a title already made of lower-case letters, digits and single inner spaces, containing none of "the ", "a ", "an ", is its own key |
| DataProc.TruncateOverview | src/dataset/data_proc.py:26-30 | an overview with at most MAX words is returned unchanged |
| DataProc.TruncatedWords | src/dataset/data_proc.py:28-29 | over MAX words, the result splits into the first MAX words with "..." glued to the last one, so exactly MAX words; the result is single-spaced with no space at either end; with MAX = 0 it is "..." |
| DataProc.TruncateWordBounds | src/dataset/data_proc.py:26-30 | for MAX >= 1 the truncated overview has min(word count, MAX) words |
| DataProc.TruncateIdempotent | src/dataset/data_proc.py:26-30 | truncating twice equals truncating once, for every MAX (with MAX = 0 the result "..." truncates to itself) |
| DataProc.SurvivingOverviewBounds | src/dataset/data_proc.py:127-131 | an overview that passed the minimum filter keeps at least MIN words after truncation (when MIN <= MAX) and at most MAX (when MAX >= 1) |
| DataProc.CleanRow | src/dataset/data_proc.py:88-139 | a row survives iff its status is not Canceled/Rumored/Planned, its coalesced title is not "" or " ", an overview or synopsis exists with at least MIN words, and it is not adult; a survivor's title is TMDB-else-Letterboxd, its release info is date-else-year-else-status, its genres TMDB-else-Letterboxd, and its overview is the overview-else-synopsis truncated to MAX words, within the word bounds |
| DataProc.KeepFirstKeys | src/dataset/data_proc.py:74 | keep-first deduplication leaves pairwise distinct keys, loses no key and never grows the table |
| DataProc.KeepFirstOrigin | src/dataset/data_proc.py:74 | keep-first deduplication returns the input's rows at strictly increasing positions, exactly the positions of rows that are first with their key, so input order is kept |
| DataProc.KeepFirstRetainsFirsts | src/dataset/data_proc.py:74 | keep-first deduplication retains every row that is the first with its key, and no other row |
| DataProc.DropDuplicates | src/dataset/data_proc.py:56 | the seen-set loop computes exactly keep-first deduplication, with distinct keys and the same key set as its input |
| DataProc.CleanRows | src/dataset/data_proc.py:120-139 | a film is in the cleaned table iff some row of the input cleans to it; the table is no longer than the input |
| DataProc.CleanRowsSnoc | src/dataset/data_proc.py:120-139 | cleaning a table with one more row at the end appends that row's film, when the rules accept it, to the cleaned table: row order is kept and nothing is duplicated |
| DataProc.PreprocessRows | src/dataset/data_proc.py:74-139 | deduplicating by normalised title and then applying the row rules never yields more films than merged rows |
| DataProc.PreprocessedFilms | src/dataset/data_proc.py:74-139 | every output film comes from a row that was first with its normalised title and passes every rule; it has no blank title, no dropped status as release info, and an overview within the word limits |
| DataProc.PreprocessKeepsAccepted | src/dataset/data_proc.py:74-139 | the first row with a given normalised title reaches the output whenever the row rules accept it |
| FaissIndex.Capped | src/dataset/index.py:41-43 | `build` uses the first min(N, 300) rows, unchanged and in order |
| FaissIndex.ExtractChunks | src/dataset/index.py:46-55 | 2N chunks; position 2i is row i's meta chunk and 2i+1 its plot chunk, both carrying row index i and the row's title; `metadata[j].chunk_text == texts[j]` for every j |
| FaissIndex.ChunkCounts | src/dataset/index.py:48-55 | there are N meta chunks and N plot chunks; every row index below N is carried by exactly two chunks, every other by none |
| FaissIndex.NumClusters | src/dataset/index.py:62 | the cluster count k satisfies k*k <= n < (k+1)*(k+1), and 1 <= k <= n whenever n >= 1 |
| FaissIndex.NumClustersIsLargest | src/dataset/index.py:62 | every k with k*k <= n is at most the cluster count, so it is the largest such k |
| FaissIndex.Build | src/dataset/index.py:33-73 | no film file: nothing is built; no rows: the build fails; otherwise the index holds one vector per chunk (at most 600), uses between 1 and that many clusters (the integer square root), and the written pair loads back as exactly that index and metadata |
| FaissIndex.Persist | src/dataset/index.py:69-71 | a successful build leaves the index file and the metadata file holding exactly the built pair; any other outcome leaves both files as they were |
| FaissIndex.LoadFromDisk | src/dataset/index.py:24-27 | loading succeeds exactly when both files exist, and then yields the pair on disk; a missing index file is the "no index" error, a missing metadata file the open error |
| FaissIndex.Init | src/dataset/index.py:17-29 | the constructor starts unloaded exactly when there is no index file, raises exactly when the index file exists without its metadata file, and otherwise holds the pair on disk; it never leaves an instance half loaded |
| FaissIndex.EagerAndLazyLoadAgree | src/dataset/index.py:22-29 | for an unchanged disk: when the constructor succeeds, it is loaded exactly when the index file exists, and the first search's guard ends where it would for an instance that never loaded eagerly |
| FaissIndex.EnsureLoaded | src/dataset/index.py:77-83 | an instance that already holds an index is left alone, with no error; an unloaded one with no index file stays unloaded with the "no index" error; with the index file but no metadata file it keeps the index and raises; otherwise it loads exactly what the constructor's load gives |
| FaissIndex.RebuildSeenOnlyWhenUnloaded | src/dataset/index.py:33-83 | `build` does not touch the instance's fields: an instance holding an index keeps it after a rebuild, while an unloaded one loads the new pair at its first search |
| FaissIndex.Resolve | src/dataset/index.py:95 | Python list indexing succeeds iff the ordinal is in [-len, len), landing inside the list and at the ordinal itself when that is non-negative |
| FaissIndex.SurvivorsSpec | src/dataset/index.py:91-92 | the surviving candidate positions are increasing, all carry an ordinal other than -1, and include every such position |
| FaissIndex.CollectHits | src/dataset/index.py:90-101 | the loop succeeds iff every surviving ordinal is a valid list index; then result k is `{chunk_text: metadata[ordinal].chunk_text, similarity: distance}` of the k-th surviving pair, in the oracle's order; a failure names an ordinal other than -1 |
| FaissIndex.ScanUnset | src/dataset/index.py:90-95 | on a half-loaded instance the result loop succeeds, with no results, exactly when every candidate ordinal is -1; otherwise the lookup in `None` raises |
| FaissIndex.Search | src/dataset/index.py:75-101 | an instance that holds an index is never reloaded; an unloaded one with no index file gets the "no index" error, and with an index file but no metadata file it is left half loaded with the open error; a half-loaded instance returns no results when every ordinal is -1 and raises otherwise; a loaded one succeeds exactly when every surviving ordinal resolves, and result k is then the chunk text and distance of the k-th surviving pair in the oracle's order; with ordinals in [-1, len(metadata)) it succeeds |
| BaseLlm.Messages | src/models/base_llm.py:54-60 | one message when the system prompt is None or "", two otherwise; the system message comes first with the prompt as content; the last message is the user's query unchanged |
| BaseLlm.ContextText | src/models/base_llm.py:75 | no chunks give the empty context; one chunk gives that chunk itself |
| BaseLlm.ContextLayout | src/models/base_llm.py:75 | the context text is fixed character for character: each chunk at its offset, "\n\n" right after every chunk but the last, the next chunk right after that, and a length of the chunks plus one separator per gap |
| BaseLlm.SystemPrompt | src/models/base_llm.py:77-81 | the prompt starts with the fixed preamble, then "Context:\n", and ends with the context text |
| BaseLlm.ChunkInPrompt | src/models/base_llm.py:75-81 | every retrieved chunk occurs verbatim in the system prompt, at its place in the context |
| BaseLlm.MessagesWithContext | src/models/base_llm.py:70-83 | the RAG message list always has two messages: the system prompt, then the query unchanged |

## Left out

- Embedding model: `SentenceTransformer.encode` is an oracle. The model keeps only that it returns one vector per text.
- FAISS: quantizer training, IVF population, `nprobe = 10`, float32 L2 distances and search ranking are all oracles. A search is handed the `distances`/`indices` row FAISS returns; `top_k` enters only as that row's length.
- File and configuration I/O: YAML, `read_csv`, JSON lines, pickle, `write_index`/`read_index` and `os.path.exists` are left out. File existence is a boolean or an `Option` on `Disk`. A failed write is not modelled.
- The TMDB/Letterboxd outer join and the pandas mechanics around it are left out: `to_datetime` year parsing, column selection, renaming and index resets. The row rules work on the records the join would produce. Numeric and people columns that pass through unchanged are not carried in `Film`.
- Unicode: character classes, `lower`, `strip` and `split` are modelled for ASCII only. Python also treats the ASCII separators 0x1C-0x1F as whitespace, and so does the model. A non-ASCII letter is kept by Python's `isalnum` but dropped by this model's title filter.
- `download_raw_data` is an empty stub with nothing to model.
- LLM plumbing is left out: model download, `Llama` construction, `create_chat_completion` and response unpacking.
- `src/main.py` (interactive loop that passes search hits to `generate_with_context`) and `src/models/mistral.py` (download-and-chat script) are glue.
- No accelerated (GPU) build path with a fallback exists in the code, so none is modelled.
- The index file and the metadata file are written one after the other. A crash between the two writes is not modelled: a build writes both or neither.
- Only `search` can leave an instance half loaded. If the metadata file is missing, `__init__` raises, and the model has no instance for that case.
- A metadata file that exists but cannot be unpickled is not modelled. Metadata on disk is either present or absent.
- `similarity` is the squared L2 distance an L2 inverted-file index returns, as in the code. The model carries it as an opaque `real` and never compares it.
- The `MIN`/`MAX` word limits are modelled as natural numbers. Python slicing with a negative configured limit is not modelled.
- The build with no rows is modelled as a failure. The code does not check for it itself: with zero embeddings the cluster count is 0, and the FAISS constructor or `train` raises.
- Blank titles: the filter removes exactly "" and " ". A title missing from both sources is NaN, which `isin` never matches, so it survives. The model follows the code here.
- Python list indexing in `search`: an ordinal other than -1 goes through Python's negative indexing. Any ordinal outside [-len, len) raises `IndexError`. FAISS itself only returns -1 or a valid ordinal. The model keeps both behaviours.
