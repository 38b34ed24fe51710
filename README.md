# TutorBot retrieval core in Dafny

TutorBot (`teachbot.py`) is a small Flask server. It lets a student paste
course texts and then ask questions about them. It answers from the text
chunks that look most like the question. This project models the sequential
logic behind that server and proves properties of it:

- **Chunking** (`chunking.dfy`). `chunk_text` splits the text into words the
  way Python's `str.split()` does. It cuts the words into windows of at most
  `max_words` words, each starting `max_words - overlap` words after the
  previous one, and joins each window with single spaces. It is modelled as a
  method with the source's `while` loop. The method is proved equal to a
  closed form: chunk `j` is the join of `words[j*step : j*step+max_words]`,
  for `ceil(n/step)` values of `j`.
- **Document store** (`store.dfy`). The globals `stored_docs` and
  `doc_counter` become the class `DocStore.DocumentStore`, with a
  `seq<Document>` field and a counter.
  - `Ingest` is the part of `ingest` that changes state: strip the text,
    reject it if blank, chunk it, embed it, append the document, bump the
    counter.
  - The class invariant says:
    - the counter equals the number of documents;
    - document `i` has id `i`;
    - its text is stripped and non-blank;
    - its chunks are the chunking of its text;
    - it has one embedding per chunk.
- **Retrieval and ranking** (`store.dfy`, `ranking.dfy`). `retrieve_top_k`
  builds one candidate per stored chunk in its two nested `for` loops. It
  sorts the candidates by score, best first, using Python's stable sort, and
  keeps the first `k`. The sort is modelled as insertion. Proved about it:
  - the result is ordered;
  - it is a permutation of the input;
  - it is stable;
  - it is the only arrangement with these properties.
- **Chat** (`chat.dfy`). This covers what `chat` decides before it calls the
  language model:
  - a blank question is rejected;
  - otherwise the stripped question retrieves the five best chunks;
  - the source section of the prompt is built with the source's `+=` loop;
  - the section is the fixed text `No documents ingested.` exactly when the
    store is empty.

`builtins.dfy` gives the Python built-ins these rely on their Python meaning:
- `str.isspace` whitespace;
- `strip`;
- `split()` with no separator;
- `" ".join`;
- slices with negative or out-of-range bounds.

External services are parameters:
- the embedding service is a function from a batch of texts to a batch of
  vectors that returns one vector per text;
- the similarity of two vectors is a function to `real`;
- the `:.3f` score formatting is a function from `real` to `string`.

The document's title is passed in as given.

### One chunk for a text that fits in one window

`chunk_text` has no docstring. From its parameters one would expect a text of
at most `max_words` words to give exactly one chunk. The code gives one chunk
only when the text has at most `max_words - overlap` words; with the
defaults of 200 and 40, that is 160 words. A text of 161 to 200 words gets a
second chunk, whose words are the tail of the first chunk:
- `Chunking.SingleChunk` proves the condition the code really has;
- `Chunking.TrailingChunk` proves the second chunk exists;
- `Chunking.DefaultsTrailingChunk` proves the count is 2 for 161 words with
  the defaults.

`Chunking.ChunksToEnd` is the chunker that behaviour would call for: it stops
after the first window that reaches the last word. For it:
- `Chunking.SingleChunkToEnd` proves exactly one chunk iff `0 < n <= max_words`;
- `Chunking.CoverageToEnd` proves every word still lies in a chunk;
- `Chunking.ChunksToEndPrefix` proves its chunks are the first chunks of
  `chunk_text`, so it only drops chunks whose words are already in an
  earlier chunk.

Nothing marks the extra chunk as unintended, since no documentation or test
says otherwise. The store therefore ingests with the chunker as written
(`Chunking.ChunkText`).

## Model

| member | source | states |
|---|---|---|
| Chunking.ChunkText | teachbot.py:23-31 | the loop's chunks are exactly `Chunks(split(text))`: chunk `j` is the space-join of `words[j*step : j*step+max_words]`, one for each start `0, step, 2*step, …` below the word count |
| Chunking.Window | teachbot.py:28 | window `j` is `words[j*step : j*step+max_words]` with Python's slice bounds; what it holds is in `ChunkWords`, `Coverage` and `WindowHolds` |
| Chunking.LoopExit | teachbot.py:27-30 | when `i` reaches the word count, the chunks produced are the whole closed form, none missing and none extra |
| Chunking.ChunkCount | teachbot.py:27-30 | the number of chunks `c` is the least `c` with `c*step >= n`, that is `ceil(n/step)` |
| Chunking.NonPositiveStepNeverStops | teachbot.py:27-30 | with `max_words - overlap <= 0` and a text with at least one word, the loop index stays below the word count after any number of passes, so the loop never ends |
| Chunking.StartAfterIsMultiple | teachbot.py:26-30 | after `t` passes the loop index is `t * step` |
| Chunking.ChunkWords | teachbot.py:28 | splitting chunk `j` again gives exactly its slice `words[j*step : j*step+max_words]` |
| Chunking.ChunkAtMostMaxWords | teachbot.py:28 | no chunk holds more than `max_words` words |
| Chunking.Coverage | teachbot.py:27-30 | with `0 <= overlap < max_words`, word `p` is word `p - j*step` of chunk `j = p / step`, so every word lies in a chunk |
| Chunking.NoChunksIffNoWords | teachbot.py:24-27 | no chunks exactly when there are no words |
| Chunking.NoChunksIffBlank | teachbot.py:24-27 | no chunks exactly when the text is all whitespace |
| Chunking.SingleChunk | teachbot.py:27-30 | exactly one chunk iff `0 < n <= step`, and that chunk is the whole word list joined |
| Chunking.TrailingChunk | teachbot.py:27-30 | for `step < n <= max_words` there are at least two chunks: the first is the whole text joined, and the second's words are `words[step:]` |
| Chunking.DefaultsTrailingChunk | teachbot.py:23 | with the defaults 200 and 40, a 161-word text gives 2 chunks |
| Chunking.FirstChunkWhole | teachbot.py:27-30 | a text of `1..max_words` words has a chunk, and chunk 0 is the whole word list joined |
| Chunking.SecondChunkTail | teachbot.py:27-30 | for `step < n <= max_words` chunk 1 exists and splits into `words[step:]` |
| Chunking.ChunksToEnd | teachbot.py:27-30 | the windows of the loop up to the first that reaches the last word; what it states is in the lemmas below |
| Chunking.EndCountReachesEnd | teachbot.py:27-30 | for a text with words, the last window `ChunksToEnd` keeps reaches the last word, and the one before it does not |
| Chunking.SingleChunkToEnd | teachbot.py:27-30 | `ChunksToEnd` gives exactly one chunk iff `0 < n <= max_words`, and that chunk is the whole word list joined |
| Chunking.NoChunksToEndIffNoWords | teachbot.py:24-27 | `ChunksToEnd` gives no chunks exactly when there are no words |
| Chunking.ChunkToEndWords | teachbot.py:28 | splitting a chunk of `ChunksToEnd` again gives its window `words[j*step : j*step+max_words]` |
| Chunking.CoverageToEnd | teachbot.py:27-30 | every word `p` lies in the `ChunksToEnd` chunk `min(p / step, last)`, at position `p - j*step` |
| Chunking.ChunksToEndPrefix | teachbot.py:27-30 | `ChunksToEnd` is a prefix of `chunk_text`'s chunks, no longer than them |
| Chunking.Chunks | teachbot.py:23-31 | the closed form of `chunk_text`: chunk `j` is the join of window `j`, one per start below the word count; what it states is in `ChunkText`, `ChunkCount`, `ChunkWords`, `Coverage` and `UnchunkChunks` |
| Chunking.UnchunkChunks | teachbot.py:27-30 | splitting each chunk and keeping `step` words of all but the last rebuilds the word list: chunks are in source order and lose nothing |
| Builtins.WordsAreWords | teachbot.py:24 | `split()` yields non-empty, whitespace-free words |
| Builtins.IsSpace | teachbot.py:24 | the whitespace set of Python's `str.isspace`, which `split()` (line 24) and `strip()` (lines 81 and 96) use: the code points 0x09-0x0D, 0x1C-0x20, 0x85, 0xA0, 0x1680, 0x2000-0x200A, 0x2028, 0x2029, 0x202F, 0x205F and 0x3000 |
| Builtins.NoWordsIffBlank | teachbot.py:24 | `split()` yields nothing exactly for an all-whitespace string |
| Builtins.WordsOfJoin | teachbot.py:28 | `" ".join(words).split() == words` for whitespace-free, non-empty words |
| Builtins.Words | teachbot.py:24 | `str.split()` with no separator: what it states is in `WordsAreWords`, `NoWordsIffBlank` and `WordsOfJoin` |
| Builtins.Join | teachbot.py:28 | `" ".join`: the empty string, the single word, or the first word, a space and the join of the rest; what it states is in `WordsOfJoin` |
| Builtins.Strip | teachbot.py:81 | `strip()` drops the leading whitespace of `s`, keeps `r`, and drops only whitespace after it; `r` is empty exactly for an all-whitespace string, and otherwise starts and ends with non-whitespace |
| Builtins.StripIdempotent | teachbot.py:81 | stripping a stripped string changes nothing |
| Builtins.Slice | teachbot.py:28 | `s[lo:hi]` with Python's bounds: the exact slice for in-range bounds, the tail when `hi` runs past the end, empty when `0 <= hi <= lo` |
| Ranking.SortDescNonIncreasing | teachbot.py:59 | after `sort(key=score, reverse=True)` the scores never increase |
| Ranking.SortDescPermutes | teachbot.py:59 | the sort keeps every candidate, as a multiset, and the length |
| Ranking.SortDescStable | teachbot.py:59 | for every score, the candidates with that score keep their encounter order |
| Ranking.StableArrangementUnique | teachbot.py:59 | two non-increasing lists that agree on every score's group are equal |
| Ranking.SortDescCharacterized | teachbot.py:59 | a list is the sort's result iff it is non-increasing and keeps each score group in the input's order |
| Ranking.TopKLength | teachbot.py:60 | `[:k]` keeps `min(k, n)` candidates for `k >= 0`, and `max(0, n + k)` for negative `k` |
| Ranking.TopKPrefix | teachbot.py:59-60 | the kept candidates are a prefix of the sorted list, best first |
| Ranking.TopKKeepsBest | teachbot.py:59-60 | a candidate that outscores a kept one is kept as well |
| Ranking.SortDesc | teachbot.py:59 | `sort(key=score, reverse=True)`: what it states is in `SortDescNonIncreasing`, `SortDescPermutes`, `SortDescStable` and `SortDescCharacterized` |
| Ranking.TopK | teachbot.py:59-60 | the sort followed by `[:k]`: what it states is in `TopKLength`, `TopKPrefix` and `TopKKeepsBest` |
| DocStore.DocumentStore.constructor | teachbot.py:19-20 | the store starts with no documents and counter 0 |
| DocStore.DocumentStore.Valid | teachbot.py:17-20 | the store invariant: the counter equals the number of documents, and every document satisfies `StoredDoc` at its position |
| DocStore.StoredDocs | teachbot.py:18-19 | document `i` of the store satisfies `StoredDoc` with id `i` |
| DocStore.StoredDoc | teachbot.py:86-88 | a stored document's id is its position, its text is non-blank with no whitespace at either end, its chunks are `ChunksOf(text)` and not empty, and it has one embedding per chunk |
| DocStore.ChunksOf | teachbot.py:86 | `chunk_text(text)` with the defaults 200 and 40: `Chunks(split(text), 200, 40)` |
| DocStore.StrippedBlank | teachbot.py:81-84 | `ingest`'s guard: the stripped text is empty exactly when the text is blank, and otherwise has no whitespace at either end |
| DocStore.DocumentStore.Append | teachbot.py:89-90 | `stored_docs.append(doc)` and `doc_counter += 1`: the document goes last, the counter goes up by one, and the invariant is kept for a document storable under the current counter |
| DocStore.DocumentStore.Ingest | teachbot.py:79-91 | a blank text is rejected with `No text provided.` and nothing changes; otherwise the stripped text's non-empty chunking and its embeddings are appended under the old counter, the counter goes up by one, and the reply carries that id and the chunk count; the class invariant is kept |
| DocStore.IngestTwice | teachbot.py:88-90 | two ingests of non-blank texts into a fresh store get ids 0 and 1, in call order |
| DocStore.NewDocument | teachbot.py:86-88 | the document built from a stripped, non-blank text holds that text, its chunking with the defaults 200 and 40, and one embedding per chunk; it satisfies the stored-document invariant, so its chunking is not empty |
| DocStore.StoredDocsAppend | teachbot.py:88-89 | appending a well-formed document under the next id keeps every stored document well-formed |
| DocStore.NewDocStored | teachbot.py:81-88 | for a document whose text is stripped and non-blank, whose chunks are the chunking of that text and which has one embedding per chunk, the stored-document invariant holds: in particular its chunking is not empty |
| DocStore.DocumentStore.RetrieveTopK | teachbot.py:49-60 | an empty store gives `[]` without embedding the query; otherwise the result is the best `k` of all candidates: `min(k, total chunks)` of them, scores never increasing |
| DocStore.CollectCandidates | teachbot.py:54-58 | the nested loops yield every document's candidates in store order, each document's in chunk order |
| DocStore.DocCandidates | teachbot.py:56-58 | the inner loop over `enumerate(doc["embs"])`: one candidate per chunk, candidate `i` being chunk `i` with the similarity of the query to embedding `i` and the document's id; positions are stated in `CandidateAt` |
| DocStore.AllCandidatesAppend | teachbot.py:55-58 | the candidates of one more document follow those of the earlier ones |
| DocStore.AllCandidatesCount | teachbot.py:55-58 | there is exactly one candidate per stored chunk |
| DocStore.CandidateAt | teachbot.py:55-58 | candidate number `(chunks before document d) + i` is chunk `i` of document `d`, with that document's id and the similarity of the query to that chunk's embedding |
| DocStore.CandidateFromStore | teachbot.py:55-58 | every candidate is a chunk of some stored document and carries that document's id |
| DocStore.RetrievalFacts | teachbot.py:49-60 | retrieval gives nothing for an empty store, `min(k, total chunks)` candidates for `k >= 0`, and non-increasing scores |
| DocStore.RetrievedFromStore | teachbot.py:49-60 | every retrieved candidate is a chunk of a stored document and carries that document's id |
| DocStore.AllCandidates | teachbot.py:54-58 | the candidates of all stored chunks in the loops' order: what it states is in `AllCandidatesAppend`, `AllCandidatesCount`, `CandidateAt` and `CandidateFromStore` |
| DocStore.Retrieval | teachbot.py:49-60 | `retrieve_top_k` as a function of the store: what it states is in `RetrievalFacts`, `RetrievedFromStore` and `DocumentStore.RetrieveTopK` |
| Chat.BuildSource | teachbot.py:103-108 | the `+=` loop builds the header followed by one entry per retrieved chunk, or `No documents ingested.` when nothing was retrieved |
| Chat.Entry | teachbot.py:106 | the f-string `[score {score:.3f}] {chunk}` followed by a blank line, with the score formatted by `fmt` |
| Chat.Entries | teachbot.py:105-106 | the entries of the retrieved chunks in retrieval order; what it states is in `EntriesPrefix` and `SourceLists` |
| Chat.EntriesPrefix | teachbot.py:105-106 | the entries of the first `j` chunks begin the entries of all chunks |
| Chat.SourceLists | teachbot.py:104-106 | the header comes first, then entry `i` right after the entries of chunks `0..i-1`: the section lists chunks in retrieval order |
| Chat.NoticeIffNothingRetrieved | teachbot.py:103-108 | the source section is `No documents ingested.` exactly when nothing was retrieved |
| Chat.SourceSection | teachbot.py:103-108 | the prompt's source section: what it states is in `BuildSource`, `SourceLists` and `NoticeIffNothingRetrieved` |
| Chat.Chat | teachbot.py:93-108 | a question that strips to nothing is rejected with `No question provided.`, and every other question is asked; then the stripped question retrieves 5 chunks, the source section is built from them, it is `No documents ingested.` exactly when the store is empty, and `min(5, total chunks)` chunks come back |

## Left out

- Flask routing, `request.json`, `jsonify` and the HTTP status codes (teachbot.py:73-136) are not modelled. Replies are datatypes (`IngestReply`, `ChatPlan`), and missing JSON fields are not distinguished from empty ones.
- The default title built from `time.time()` (teachbot.py:82) is not modelled, because it reads the clock. The title is a parameter.
- `embed_texts` (teachbot.py:33-38) is not modelled: it calls a remote embedding service. It is the parameter `embed`, assumed to return one vector per text. A failure of that call is not represented.
- `cosine_sim` (teachbot.py:40-47) is not modelled. It is float32 numerics with a square root, which Dafny's `real` lacks. Scores come from the parameter `sim` and are exact reals, so NaN scores and their effect on the sort are not captured.
- DocStore.DocumentStore.RetrieveTopK: "does not embed the query on an empty store" shows in the model only as `embed` not being applied on that path. Calls to the service are not observable events here.
- The prompt templates (teachbot.py:63-70, 111-122) are not modelled; they are fixed text. Neither is the chat-completion call with its error reply (teachbot.py:124-134), which goes to a remote service. `Chat.Chat` stops at the question, style, source section and retrieved chunks that the prompt and the reply are made of.
- The default style `Concise` for a request without one (teachbot.py:97) is not modelled. Missing JSON fields are not represented, and the style is a parameter.
- The default `k=4` of `retrieve_top_k` (teachbot.py:49) is not modelled: `k` is a parameter, and the only caller, `chat`, passes `k=5` (teachbot.py:101), so the default is never used.
- The `:.3f` formatting of scores (teachbot.py:106) is not modelled. It is the parameter `fmt`, and its output is not constrained.
- The API-key check at start-up (teachbot.py:11-13) and the HTML/JS front end (teachbot.py:139 onwards) are not modelled.
- Concurrent requests, and the race they can cause on `doc_counter`, are not modelled. Each ingest is one atomic step.
- The in-place `list.sort` is modelled as a function on sequences that gives the same result. Which internal algorithm Python uses is not modelled.
- Chunking.ChunkText: requires `overlap < max_words`, which the source does not check. Without it the loop does not terminate on a text with at least one word (`Chunking.NonPositiveStepNeverStops`).
- Chunking.SingleChunk: proves one chunk only for `0 < n <= max_words - overlap`, not for every `n <= max_words`. The code produces a second chunk for longer texts (`Chunking.TrailingChunk`); `Chunking.SingleChunkToEnd` proves the `n <= max_words` condition for the stopping chunker `Chunking.ChunksToEnd`.
