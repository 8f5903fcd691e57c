# A verified model of the RAG backend's document pipeline

This project models the core of `rag-backend`, a FastAPI service for
retrieval-augmented question answering, in Dafny and proves properties of
that model. The model covers:

- **Chunking and embedding** (`app/core/embeddings.py`):
  - token windows with overlap, including the tail chunk and the chunk statistics;
  - the 8191-token truncation before embedding;
  - the retry policy around each embedding request;
  - the single-request fast path and the batching loop of `generate_embeddings`;
  - `process_document`.
- **Search** (`app/api/query.py`, `_process_query`):
  - embedding the question and selecting candidate records;
  - the capped scan that keeps embeddings of the query's dimension;
  - stable ranking by score and the top-k cut;
  - the context and prompt handed to the language model, and every outcome of the handler.
- **Listing and deletion** (`app/api/document_select.py`): one entry per document with its earliest upload time, newest first; deleting every record of a document, or a 404.
- **The in-memory variants used by the tests** (`tests/mock_document_endpoint.py`): a dictionary loop for the listing and record-by-record deletion. The model proves that they agree with the production endpoints.
- **Upload** (`app/api/ingestion.py`):
  - the filename and empty-content checks;
  - one record per (chunk, vector) pair with `chunk_id` equal to its position;
  - flush and commit failures with rollback;
  - the keyword-based mapping of exception messages to HTTP statuses.

Everything the handlers obtain from outside is a parameter: total functions or values chosen by the caller. This covers:

- the tokenizer (`encode`/`decode`);
- the embedding service (each request, numbered and with its attempt number, yields a response, a timeout or an error);
- JSON decoding and encoding;
- the UTF-8 decoder;
- the similarity function;
- the language model;
- the stored file content;
- the database's flush and commit failures;
- the current time.

The database is a `DocumentStore` object holding two sequences of records: the session's view and the committed contents. It also holds the next id. `Add`, `DeleteFilename`, `DeleteRecord`, `Commit` and `Rollback` update it in place.

Modules, one per file:

- `Common`: Option/Result, Python's `strip`, slicing, `join`, `in` on strings, ASCII `lower`.
- `Chunker`: `chunk_text`, `validate_chunk_length`, `prepare_chunks_for_embedding`.
- `Embedder`: the retry policy, `generate_embeddings` and `process_document`.
- `Store`: records and the session.
- `Sorting`: a stable descending sort.
- `DocumentSelect`: listing and deletion.
- `MockDocuments`: the test variants.
- `Retrieval`: search.
- `Ingestion`: upload.

Where the code and its design documentation disagree, the model follows the code:

- **Chunk lengths.** 2500 tokens with a chunk size of 1000 and an overlap of 200 give chunks of 1000, 1000, 900 and 100 tokens. After the third window the loop position (2400) falls inside the last `overlap` tokens, so the tail `tokens[2400:]` is added as a fourth chunk. It is not a three-chunk split.
- **Failed embedding batch.** `generate_embeddings` raises `HTTPException` when a batched request fails, but the module never imports that name. What escapes is therefore a `NameError` "name 'HTTPException' is not defined". The upload handler then reports it through its generic branch, "Failed to process document: …", not as "Failed to generate embeddings".
- **404s become 500s.** The search handler's outer `except Exception` also catches its own 404 exceptions. The replies are therefore 500 "Search + answer failed: 404: …".
- **Negative batch size.** With two or more chunks, a negative batch size makes `range(0, n, size)` empty, and `generate_embeddings` returns no vectors without calling the service.
- **List-form embeddings.** A record whose embedding column holds a list rather than JSON text makes `json.loads` raise, so the scan skips it without counting it. A search limited to such records ends in the "no compatible embeddings" error. The expectation at `rag-backend/tests/test_embedding_solution.py:150-151`, that such records are returned, does not hold for the code as written.
- **Ties in the listing order.** The listing's `ORDER BY min(created_at) DESC` leaves the order of equal times to the database. The model breaks such ties by first appearance in the table (a stable sort).

## Model

| member | source | states |
|---|---|---|
| Chunker.ChunkText | rag-backend/app/core/embeddings.py:45-109 | empty text gives no chunks and the zero statistics; otherwise the chunks and statistics are those of the window specification, with chunk_count equal to the number of chunks |
| Chunker.WindowLoop | rag-backend/app/core/embeddings.py:79-98 | the while loop (with its early break) produces exactly the decoded token windows of the specification and their token counts |
| Chunker.WindowsStep | rag-backend/app/core/embeddings.py:82-98 | one loop iteration: window [i, min(i+chunk_size, n)), then the tail window [next, n) and stop when n-overlap <= next < n, otherwise continue at next = i + chunk_size - overlap |
| Chunker.WindowsBounds | rag-backend/app/core/embeddings.py:82-89 | every window starts inside the text, ends no later than the last token, and (for a positive chunk size) is non-empty and at most chunk_size long |
| Chunker.WindowsClosedForm | rag-backend/app/core/embeddings.py:81-92 | the k-th window starts at k*(chunk_size-overlap); there is a window exactly when there is a token |
| Chunker.WindowsEnds | rag-backend/app/core/embeddings.py:84-97 | each window ends at min(start+chunk_size, n); for a non-negative overlap the last window ends at the last token |
| Chunker.WindowsStopRule | rag-backend/app/core/embeddings.py:92-98 | no window except the last two starts in the last `overlap` tokens; the loop stops either by running past the end or by taking the tail |
| Chunker.WindowsCover | rag-backend/app/core/embeddings.py:82-98 | for a non-negative overlap every token index from the start position on lies in some window |
| Chunker.ChunkAt | rag-backend/app/core/embeddings.py:67-92 | with the 0/None defaults 1000/200 applied, chunk k is decode(tokens[k*s : min(k*s+chunk_size, n)]) with s = chunk_size - overlap |
| Chunker.ChunksCoverTokens | rag-backend/app/core/embeddings.py:82-98 | the first chunk starts at token 0, the last ends at the last token, and every token lies inside some chunk |
| Chunker.TailChunkRule | rag-backend/app/core/embeddings.py:94-98 | when the tail branch fires, the tail is exactly tokens[i:], ends where the previous chunk ends, and is a suffix of the previous chunk's tokens |
| Chunker.DefaultWindowExample | rag-backend/app/core/embeddings.py:82-98 | 2500 tokens with 1000/200 give chunk token counts [1000, 1000, 900, 100] |
| Chunker.ChunkStats | rag-backend/app/core/embeddings.py:100-107 | chunk_count is the number of chunks, total_tokens the number of tokens, min/max are a smallest and a largest chunk count (0 with no chunks) and bounded by chunk_size |
| Chunker.ValidateChunkLength | rag-backend/app/core/embeddings.py:111-134 | (True, None) exactly when the chunk has at most 8191 tokens, otherwise (False, decode of its first 8191 tokens) |
| Chunker.PreparedChunk | rag-backend/app/core/embeddings.py:149-154 | a chunk within the limit is kept as is, a longer one is replaced by its truncation |
| Chunker.PrepareChunks | rag-backend/app/core/embeddings.py:136-156 | the for loop keeps length and order, and element i is chunk i or its truncation |
| Embedder.Outcome | rag-backend/app/core/embeddings.py:165-184 | a response yields its vectors, a timeout becomes an APITimeoutError whose message is the library's fixed "Request timed out." (the string the source passes is the error's request, not its message), any other error propagates unchanged |
| Embedder.RetryPolicy | rag-backend/app/core/embeddings.py:158-184 | at most 3 attempts; the result is the last attempt's outcome; it stops early only on success or a non-retryable error, and every earlier attempt failed with a rate-limit, timeout or connection error |
| Embedder.CreateEmbeddingsWithRetry | rag-backend/app/core/embeddings.py:158-184 | the attempt loop returns the retry policy's result, with between 1 and 3 attempts |
| Embedder.BatchesFlatten | rag-backend/app/core/embeddings.py:238-239 | concatenating the slices validated[i:i+size] for i in range(0, n, size) gives back the chunks |
| Embedder.BatchesCount | rag-backend/app/core/embeddings.py:238-239 | the number of batches is the least b with n <= b*size |
| Embedder.BatchesSizes | rag-backend/app/core/embeddings.py:238-240 | every batch is non-empty and at most size long, and all but the last are exactly size long |
| Embedder.RaisedMessage | rag-backend/app/core/embeddings.py:224-267 | the escaping exception text: the service error, "list index out of range" for an empty single response, the NameError for a failed batch, or none |
| Embedder.GenerateEmbeddings | rag-backend/app/core/embeddings.py:186-262 | the method's result and trace of requests and pauses equal the embedding specification for every input |
| Embedder.BatchedEmbeddings | rag-backend/app/core/embeddings.py:235-262 | the batch loop's result and trace equal the specification's batching run |
| Embedder.BatchLoopEmbedded | rag-backend/app/core/embeddings.py:238-262 | a batching run either succeeds or fails on a batch; on success it requested exactly the batches, in order, and returns their vectors concatenated |
| Embedder.BatchLoopFailed | rag-backend/app/core/embeddings.py:238-267 | on a failed run the requested batches are a prefix of the batches, the last request is the failing one, and its retry result is the kept cause |
| Embedder.BatchLoopPauses | rag-backend/app/core/embeddings.py:256-258 | every pause comes right after the request for a full batch and right before another request; in a successful run every request but the last is followed by a pause |
| Embedder.EmptyInput | rag-backend/app/core/embeddings.py:202-205 | no chunks: no vectors and no request |
| Embedder.SingleChunk | rag-backend/app/core/embeddings.py:224-231 | one chunk: exactly one request (its attempts between 1 and 3) on the truncated chunk, one vector on success, never a batch failure |
| Embedder.BatchedRun | rag-backend/app/core/embeddings.py:206-262 | two or more chunks with a positive (or defaulted, 5) batch size: the run is the batching loop over the truncated chunks, with the facts above |
| Embedder.NegativeBatchSize | rag-backend/app/core/embeddings.py:208-238 | two or more chunks with a negative batch size give no vectors and no requests |
| Embedder.Latin1 | rag-backend/app/core/embeddings.py:294-300 | Latin-1 decoding maps each byte to the character with that code, keeping the length |
| Embedder.ProcessDocument | rag-backend/app/core/embeddings.py:269-325 | None is rejected; blank text gives no chunks, no vectors, zero statistics and no request; otherwise the chunks, statistics and embedding run of the decoded text |
| Store.WithFilename | rag-backend/app/api/document_select.py:75 | the records of one document, in table order, never more than the table |
| Store.WithoutFilename | rag-backend/app/api/document_select.py:82 | the records of all other documents, in table order |
| Store.FilenameSplit | rag-backend/app/api/document_select.py:75-82 | the records of a document and the rest together are exactly the table's records |
| Store.FilenamePresence | rag-backend/app/api/document_select.py:75-82 | a document has no records exactly when no record carries its filename, and then deleting it changes nothing |
| Store.DropDocumentIds | rag-backend/tests/mock_document_endpoint.py:72-80 | dropping by id every record of a document leaves exactly the other documents' records |
| Store.DocumentStore.Add | rag-backend/app/api/ingestion.py:85-92 | the new record takes the next id and is appended to the session's records; committed contents are unchanged |
| Store.DocumentStore.DeleteFilename | rag-backend/app/api/document_select.py:82 | the bulk delete leaves the other documents' records and returns how many went |
| Store.DocumentStore.DeleteRecord | rag-backend/tests/mock_document_endpoint.py:79-80 | deletes the one record with that id |
| Store.DocumentStore.Commit | rag-backend/app/api/document_select.py:83 | the session's records become the committed contents |
| Store.DocumentStore.Rollback | rag-backend/app/api/document_select.py:89-92 | the session's records return to the committed contents |
| Sorting.SortDescCorrect | rag-backend/app/api/query.py:136 | the sort puts the results in non-increasing order of score and holds exactly the input's elements |
| Sorting.SortDescStable | rag-backend/app/api/query.py:136 | the sort is stable: results with equal scores keep their order |
| DocumentSelect.ListDocuments | rag-backend/app/api/document_select.py:25-56 | the listing is the formatted result of the grouped, ordered query |
| DocumentSelect.GroupsExact | rag-backend/app/api/document_select.py:35-42 | the query yields one row per distinct filename, carrying that document's earliest created_at |
| DocumentSelect.MinCreatedIsMinimum | rag-backend/app/api/document_select.py:38 | func.min(created_at) is a record's time and at most every record's time |
| DocumentSelect.FilenamesExact | rag-backend/app/api/document_select.py:40 | the grouped filenames are distinct and are exactly those in the table |
| DocumentSelect.EarliestUploadIsMinimum | rag-backend/app/api/document_select.py:38 | a document's upload time is one of its records' times and no later than any of them |
| DocumentSelect.QueryRowsAreGroups | rag-backend/app/api/document_select.py:35-44 | the ordered rows are a permutation of the groups, in non-increasing order of upload time |
| DocumentSelect.QueryRowsDistinct | rag-backend/app/api/document_select.py:40-44 | the ordered rows have distinct filenames |
| DocumentSelect.ListingFacts | rag-backend/app/api/document_select.py:25-56 | each entry's id is its filename; filenames are distinct; there is an entry for a filename exactly when it has records; each entry's time is that document's earliest; times are newest first |
| DocumentSelect.NotFoundDetail | rag-backend/app/api/document_select.py:79 | the 404 detail names the document |
| DocumentSelect.DeleteDocument | rag-backend/app/api/document_select.py:69-92 | a document without records gives 404 "Document '…' not found." and the store is unchanged; otherwise 204, and exactly the other documents' records remain, committed; the id sequence is untouched either way |
| DocumentSelect.DeleteKeepsOthers | rag-backend/app/api/document_select.py:75-83 | after deletion the document has no records and every other document keeps exactly its records |
| MockDocuments.EarliestTimes | rag-backend/tests/mock_document_endpoint.py:37-44 | the dictionary loop ends with one key per filename, in first-appearance order, each mapped to that document's earliest time |
| MockDocuments.DictStep | rag-backend/tests/mock_document_endpoint.py:38-44 | one iteration keeps the dictionary equal to the earliest times of the records scanned so far |
| MockDocuments.MockListDocuments | rag-backend/tests/mock_document_endpoint.py:25-57 | the mock listing is the formatted groups in first-appearance order |
| MockDocuments.DictListing | rag-backend/tests/mock_document_endpoint.py:47-54 | formatting the dictionary's values gives the groups' entries |
| MockDocuments.ListingsAgree | rag-backend/tests/mock_document_endpoint.py:25-57 | the mock listing and the production listing have the same length and the same entries, differing at most in order |
| MockDocuments.MockDeleteDocument | rag-backend/tests/mock_document_endpoint.py:64-89 | the same outcome as the production delete: 404 with the store unchanged, or 204 after deleting the document's records one by one and committing; the id sequence is untouched either way |
| Retrieval.Parse | rag-backend/app/api/query.py:94-110 | an embedding stored as a list never parses |
| Retrieval.InFilenamesExact | rag-backend/app/api/query.py:63-66 | the filtered candidates are exactly the records whose filename is in document_ids |
| Retrieval.CandidateRule | rag-backend/app/api/query.py:63-70 | with a non-empty document_ids, every record of those documents and no other; otherwise the first min(500, n) records |
| Retrieval.ScanCandidates | rag-backend/app/api/query.py:83-110 | the for loop with its early break collects exactly the compatible candidates before the stop position, and counts the mismatched ones |
| Retrieval.CompatibleExact | rag-backend/app/api/query.py:94-106 | every collected candidate is a scanned record whose embedding parsed to a vector of the query's dimension, and every such record is collected |
| Retrieval.ScanAccounting | rag-backend/app/api/query.py:94-110 | every scanned record is exactly one of compatible, counted as mismatched, or silently skipped |
| Retrieval.ScanCap | rag-backend/app/api/query.py:87-92 | the scan stops at the first position where min(5k, 100) compatible candidates are in hand, or at the end; it never collects more |
| Retrieval.NativeSkipped | rag-backend/app/api/query.py:94-110 | list-form embeddings are neither collected nor counted as mismatched |
| Retrieval.NativeOnlyQuery | rag-backend/app/api/query.py:94-133 | a search whose candidates all hold list-form embeddings ends in the "no compatible embeddings" error |
| Retrieval.Scores | rag-backend/app/api/query.py:118-121 | one scored result per compatible candidate |
| Retrieval.RankingFacts | rag-backend/app/api/query.py:135-148 | the ranking is a permutation of the scored results, stable among equal scores, cut to its first min(k, n), in non-increasing score order, each chunk carrying its record's fields |
| Retrieval.ResultChunks | rag-backend/app/api/query.py:140-149 | one response chunk per top result |
| Retrieval.QueryEmbedding | rag-backend/app/api/query.py:57-59 | the question is embedded through the single-request path: one request, no batch failure, and the query vector is the only vector returned |
| Retrieval.MismatchOutcome | rag-backend/app/api/query.py:124-131 | the mismatch answer does not depend on the language model |
| Retrieval.QueryStages | rag-backend/app/api/query.py:46-133 | a failed query embedding gives 500 "Search + answer failed: <error>"; no candidates gives the wrapped 404; otherwise the reply is decided by the capped scan |
| Retrieval.RespondEmpty | rag-backend/app/api/query.py:123-133 | a 500 error exactly when nothing is compatible and nothing mismatched; the fixed mismatch answer with an empty chunk list when nothing is compatible but something mismatched |
| Retrieval.RespondAnswer | rag-backend/app/api/query.py:151-179 | the answer is the language model's reply stripped, or the fallback text when the call fails; the ranked chunks are returned exactly when include_chunks |
| Retrieval.ProcessQuery | rag-backend/app/api/query.py:46-183 | the handler's reply is the query specification's for every input |
| Ingestion.ClassifyError | rag-backend/app/api/ingestion.py:112-125 | the reply to an unexpected exception is always an error with status 500 or 422 |
| Ingestion.ClassifyRule | rag-backend/app/api/ingestion.py:117-125 | keywords are matched case-blind in the order storage, extract, embedding; 422 exactly for "extract" without "storage"; the message is echoed when no keyword occurs |
| Ingestion.WithoutKeywordLetters | rag-backend/app/api/ingestion.py:117-125 | a message without "g" or "r" gets the generic "Failed to process document: …" detail |
| Ingestion.BatchFailureDetail | rag-backend/app/api/ingestion.py:112-125 | a failed embedding batch (a NameError) is reported as "Failed to process document: name 'HTTPException' is not defined" |
| Ingestion.NewRecords | rag-backend/app/api/ingestion.py:71-90 | one record per pair of zip(chunks, embeddings) |
| Ingestion.FirstFlushFailure | rag-backend/app/api/ingestion.py:91-92 | the first record whose flush fails, if any; all earlier flushes succeeded |
| Ingestion.NewRecordsFacts | rag-backend/app/api/ingestion.py:71-90 | min(len(chunks), len(embeddings)) records; chunk_id = idx, dense from 0; the upload's filename; chunk idx's text; the serialised json.dumps form; distinct consecutive ids |
| Ingestion.InputChecks | rag-backend/app/api/ingestion.py:47-57 | an empty or dot-less filename gives 400 "Invalid file format", then blank content gives 400 "Document appears to be empty", whatever the service and the database would do |
| Ingestion.StoreOutcomes | rag-backend/app/api/ingestion.py:59-107 | an embedding failure is classified; otherwise the upload succeeds exactly when no flush and not the commit fails, and then returns the created records |
| Ingestion.StoreRecords | rag-backend/app/api/ingestion.py:69-107 | the enumerate loop adds and flushes each record; on a failure it rolls back and replies 500 "Database error: …" with the records as they were; otherwise it commits the new records after the old; the id sequence has advanced by the records added before the failure, the failing one included, or by all of them |
| Ingestion.UploadDocument | rag-backend/app/api/ingestion.py:30-125 | the handler's reply is the upload specification's; a success commits exactly the returned records after the old ones; any failure leaves the records as they were; the id sequence advances by the ids the storing step took, and not at all when the upload fails before it |

## Left out

- The tokenizer's internals (`tiktoken`, rag-backend/app/core/embeddings.py:36-43): `encode` and `decode` are arbitrary functions, and `decode(encode(x)) == x` is not assumed.
- The network, `asyncio.wait_for`'s 10-second limit, and tenacity's exponential backoff: the model keeps which attempt is made and what it returns, not when. The same goes for the 0.1-second sleep between batches, which is kept as a `Paused` event, and MIN_RETRY_SECONDS/MAX_RETRY_SECONDS.
- The embedding model name and the LLM call's settings (model, temperature, max_tokens, timeout, top_p) are not modelled, because they do not change control flow.
- Floating point:
  - cosine similarity is an abstract `Similarity` function;
  - Retrieval.ResultChunks: the score is not rounded to four places (`round(score, 4)`), because rounding is floating-point numerics;
  - Chunker.ChunkStats: avg_chunk_tokens is exact real division, and the early return's integer 0 is not told apart from 0.0.
- JSON and NumPy:
  - `json.loads` followed by `np.array`/`len` is a `Loads` parameter;
  - `json.dumps` and `str(embed)` are parameters;
  - the SQLAlchemy JSON column's own encoding is not modelled.
  - a stored JSON list of the query's length whose entries are not numbers, or that holds NaN, passes `np.array`/`len` in the source, and `np.vstack` or the similarity call then raises outside the per-record `try` (rag-backend/app/api/query.py:113-118), giving 500 "Search + answer failed: …". `Loads` returns a vector or nothing, so it cannot express this path. Uploads only ever store `json.dumps` of float lists, so only corrupted data reaches it. The same 500 arises in the source when the service returns a query vector of length zero and a record stores `"[]"`: the similarity call raises on zero features. `Similarity` is total, so the model answers instead.
- UTF-8 decoding is a parameter, and the Latin-1 fallback is modelled exactly. Reading and saving files and PDF extraction (`app/services/storage.py`) are one parameter: the content read, or the text of the exception raised.
- String handling:
  - String case: Common.Lower lower-cases only ASCII letters, because Unicode case mapping is not available.
- The database engine:
  - SQL is replaced by operations on the record sequence;
  - timestamps are integers, and `isoformat()` is not modelled;
  - `created_at`'s server default is a `now` parameter.
  - The 500 replies of the listing and deletion handlers for database exceptions (rag-backend/app/api/document_select.py:58-60, 93-96 and the mock's 59-61, 90-94) are not modelled, because no exception arises in the model's store operations.
- DocumentSelect.DeleteDocument, MockDocuments.MockDeleteDocument, Ingestion.UploadDocument and Ingestion.StoreRecords require a session without pending changes, as every request starts with one.
- Ingestion.StoreRecords / Ingestion.UploadDocument: the id sequence is not rewound by a rollback, as a PostgreSQL sequence behaves; an engine that reuses ids after a rollback is not modelled.
- Chunker.ChunkText requires overlap < chunk size (after the defaults) for non-empty text. With overlap >= chunk size the source's loop runs forever when the text has more than chunk_size tokens, and otherwise returns two chunks (the first window, then the tail from a start at or below 0); the model does not cover that case. The only caller uses the defaults 1000 and 200.
- Retrieval.RankingFacts: `results.sort` sorts a list in place; the model sorts a sequence value, because nothing else holds the list.
- The mock listing replaces an entry only for a strictly earlier time. With equal times the entries are indistinguishable, so this tie rule has no observable effect and is not stated.
- `query_documents_post` (rag-backend/app/api/query.py:30-44) only forwards to `_process_query`. The debug upload endpoint, settings loading, schemas, database setup and the manual scripts are not part of this model.
