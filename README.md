# docu-chat ingestion core in Dafny

This project models the document-ingestion path of docu-chat, a chat application that
answers questions over uploaded PDF and CSV files, and proves properties of it.
The model covers:

- **Parsing.** A PDF's extracted text becomes normalised, numbered pages. A CSV's records
  become one prose sentence block per row, `This record describes a <entity>. <Header>: <value>. ...`.
- **Chunking.** A PDF becomes one chunk per kept sentence; a CSV becomes one chunk per row.
- **Upload validation.** An ordered chain of checks: size, MIME type, CSV row count,
  PDF page count.
- **The `documents` and `document_chunks` tables.** Their queries, including the guarded
  status updates `uploading → processing → ready | failed` and the soft delete.
- **`processDocument`.** Lock, read, parse, chunk, replace the chunks, mark ready. Any
  failure marks the document failed and is re-raised.
- **`semanticizeText`.** It rewrites chunk text through a language model, with an in-memory
  cache, the persistent `semantic_cache` table, one retry, and a fallback to the raw text
  for PDFs.
- **The `temp-uploads` storage bucket.** Save under `<uuid>.<extension>`, evict the oldest
  files once 10 are listed, download, delete and empty.
- **The `load-env` script.** It fills the process environment from `supabase.env`, then
  `open-router.env`, never overwriting a non-empty variable.

There is one module per source file, each in its own `.dfy` file. `Wrappers`, `Text` and
`Schema` are shared. `MetadataJson` (metadata_json.dfy) holds the `JSON.stringify` part of
semanticize.ts: members are written in `Object.keys` order (array-index keys ascending,
then the other keys by first assignment), one per key, with the key's last value.

- **Pure code** becomes datatypes, functions and lemmas: parsing, chunking, validation,
  the guards of the status updates, and `semanticizeText`'s control flow.
- **Code that changes state** becomes a class whose methods are proved equal to a pure
  specification function of the old state:
  - `DocumentStore`, `SemanticCacheTable` and `Normalizer`;
  - `TempBucket`, for the storage bucket;
  - `ProcessEnv`, for `process.env`.
- **Loops** become `for` or `while` loops with invariants: the chunking loops, the
  serialisation loop, the retry loop, the eviction loop and the line loop of the
  environment loader.
- **What the code cannot see** is a parameter:
  - foreign libraries: csv-parse, pdf-parse, sentence-splitter, the language model,
    SHA-256 and `randomUUID`;
  - the database and storage services' error answers;
  - clocks.

Behaviours of the code that the model follows, where a reader might expect otherwise:

- **The row check in `validateCSVRows` can never fire.** Its row-limit branch
  (`src/lib/documents/validation.ts:66-71`) is unreachable: `parseCSV` already rejects more
  than 2000 records with its own message (`Validation.ValidateCsvRowsSpec`).
- **`parsePDF`'s second empty-text check can never fire.** Text with a visible character
  always yields a page (`PdfIngestion.PagesOfVisibleText`).
- **The PDF page text follows the code, not the test.** `src/lib/ingestion/__tests__/pdf.test.ts`
  expects a page's text to keep `"\n\n"`. The code collapses every white-space run to one
  space, and the model follows the code.
- **A failed chunk insert records its reason, but another error is raised.**
  `processDocument` marks the document failed with `Failed to insert chunks: …`. Its catch
  block then tries to mark the already-failed document again. That guarded update matches
  no row, so the second `markDocumentFailed` throws, and its error, not the insert error,
  leaves `processDocument` (`Processing.ProcessFailureRecordsReason`). With `.single()`,
  the zero-row answer arrives as a query error, so the message raised is
  `Failed to mark document as failed: …`; the model reports every rejected guarded update
  with `Document not in expected state (uploading or processing)` (see "Left out").
- **An empty `storage_path` counts as missing**, as does an absent one (`Processing.MissingPath`).
- **Zero chunks still returns true.** A document that yields no chunks is marked failed,
  yet `processDocument` returns `true`.
- **A CSV that gets two empty model answers fails with a doubled prefix.** The error
  thrown inside the `try` block is caught by its own `catch` and re-raised as
  `Semantic enrichment failed for CSV: Semantic enrichment failed: empty output from LLM (CSV requires semanticization)`.
- **Eviction starts at 10 files and leaves 9.** `cleanupOldFiles` evicts once 10 or more
  files are listed, and removes all but the 9 newest.
- **The extension of a name without a dot is the whole name.** `a` is stored as `<uuid>.a`.
- **The environment loader trims the value but not the key.** A key is the text before
  the first `=` of the trimmed line.

## Model

| member | source | states |
|---|---|---|
| CsvIngestion.HeadersSpec | src/lib/ingestion/csv.ts:34 | the headers are `Object.keys` of the first record: exactly the names assigned, each once, array-index names first in ascending numeric order, then the other names in order of first assignment |
| CsvIngestion.IndexKeyListedFirst | src/lib/ingestion/csv.ts:34 | a file headed `name,2023` lists `2023` before `name` |
| CsvIngestion.RepeatedNameOneKey | src/lib/ingestion/csv.ts:34 | a file headed `a,a` has the single header `a`, whose cell is the second one |
| CsvIngestion.Lookup | src/lib/ingestion/csv.ts:112 | `record[header]` is defined exactly when some field has that header, and is then the cell of the last field with that header |
| CsvIngestion.SplitCamelSpec | src/lib/ingestion/csv.ts:89 | splitting camelCase only inserts spaces (same text once spaces are removed, no new characters), leaves no lower-upper pair, and keeps the first character |
| CsvIngestion.SplitCamelNoPair | src/lib/ingestion/csv.ts:89 | text with no lower-case letter followed by an upper-case one is left unchanged |
| CsvIngestion.SplitCamelAppend | src/lib/ingestion/csv.ts:89 | splitting `a + b` splits each part and inserts one space at the seam exactly when `a` ends lower-case and `b` starts upper-case |
| CsvIngestion.CapitalizeWordsSpec | src/lib/ingestion/csv.ts:98 | the text is the same up to letter case; no character at a word start is left lower case, and every other character is kept |
| CsvIngestion.NormalizeHeaderTitleCase | src/lib/ingestion/csv.ts:93-99 | up to letter case a normalised header is the header with `_` read as a space and camelCase split; it has no underscore, and an ASCII letter in it is upper case exactly when it starts a word |
| CsvIngestion.NormalizeHeaderExample | src/lib/ingestion/csv.ts:93-99 | the header `PRODUCT_ID` reads `Product Id` |
| CsvIngestion.NormalizeEntityLowerSpaced | src/lib/ingestion/csv.ts:85-91 | a normalised entity name has no `_`, no `-` and no upper-case ASCII letter |
| CsvIngestion.NormalizeEntityContent | src/lib/ingestion/csv.ts:85-91 | apart from the spaces camelCase splitting adds, the entity name is the trimmed name with `_` and `-` read as spaces, lower-cased; a name with no lower-upper pair gets no added space |
| CsvIngestion.NormalizeEntityExample | src/lib/ingestion/csv.ts:85-91 | the entity `order_line-item` reads `order line item` |
| CsvIngestion.FilledCellContributes | src/lib/ingestion/csv.ts:111-117 | every header whose cell is neither undefined nor empty contributes its `Header: value.` sentence |
| CsvIngestion.FieldPartSource | src/lib/ingestion/csv.ts:111-117 | every field sentence comes from a header whose cell is filled, so empty cells are skipped |
| CsvIngestion.SerializeRowIntro | src/lib/ingestion/csv.ts:106-109 | every serialised row opens with `This record describes a <normalised entity>.` |
| CsvIngestion.SerializeCsvRow | src/lib/ingestion/csv.ts:101-120 | the loop yields the intro and then the sentence of each filled cell in header order, joined by single spaces |
| CsvIngestion.RowLimitMessageNamesCounts | src/lib/ingestion/csv.ts:40-44 | the row-limit error names the violation, the limit 2000 and the number of records found |
| CsvIngestion.ParseCsv | src/lib/ingestion/csv.ts:21-83 | no records gives the empty-file error, more than 2000 gives the row-limit error, and a parser failure is an error; it succeeds exactly for 1 to 2000 records with headers; row `i` has index `i + 1` and serialises record `i` under the first record's headers |
| CsvIngestion.ParseCsvErrorNonEmpty | src/lib/ingestion/csv.ts:70-82 | every parse error carries a non-empty message |
| PdfIngestion.CollapseSpacesHead | src/lib/ingestion/pdf.ts:38 | the result is empty exactly when the input is; it starts with the input's first character, or with a space when that character is white space |
| PdfIngestion.CollapseSpacesSpec | src/lib/ingestion/pdf.ts:38 | collapsing keeps every visible character in order, leaves no two adjacent white-space characters, and the only white space it leaves is the plain space |
| PdfIngestion.CollapseSpacesVisibleOnly | src/lib/ingestion/pdf.ts:38 | text without white space is unchanged |
| PdfIngestion.CollapseSpacesLeadingRun | src/lib/ingestion/pdf.ts:38 | a white-space run in front of text that starts with a visible character becomes one space |
| PdfIngestion.CollapseSpacesConcat | src/lib/ingestion/pdf.ts:38 | text ending in a visible character collapses independently of what follows it |
| PdfIngestion.CollapseSpacesRun | src/lib/ingestion/pdf.ts:38 | between two visible characters, a white-space run of any length and kind becomes exactly one `' '`, and each side collapses on its own |
| PdfIngestion.CollapseSpacesLast | src/lib/ingestion/pdf.ts:38 | text ending in a visible character collapses to text ending in that character |
| PdfIngestion.TrimAround | src/lib/ingestion/pdf.ts:38 | trimming white space on both sides of a trimmed text gives that text |
| PdfIngestion.NormalizePageTextTrimFirst | src/lib/ingestion/pdf.ts:38 | collapsing then trimming equals trimming then collapsing |
| PdfIngestion.NormalizePageTextSpec | src/lib/ingestion/pdf.ts:38 | a page's text is trimmed, has no doubled white space, has only plain spaces as white space, keeps the raw page's visible characters, and is empty exactly when the raw page is all white space |
| PdfIngestion.KeepNonEmptyMembers | src/lib/ingestion/pdf.ts:40 | a page survives the filter exactly when it was there and its text is non-empty |
| PdfIngestion.KeepNonEmptyIncreasing | src/lib/ingestion/pdf.ts:40 | the filter keeps page numbers strictly increasing |
| PdfIngestion.NumberedPage | src/lib/ingestion/pdf.ts:35-39 | page `n` carries the normalised text of form-feed piece `n`, with `1 <= n <=` the number of pieces |
| PdfIngestion.PagesOfSpec | src/lib/ingestion/pdf.ts:34-40 | every page is the non-empty normalised piece its number names, the numbers strictly increase, and conversely every piece that normalises to non-empty text gives a page with its number |
| PdfIngestion.PagesOfVisibleText | src/lib/ingestion/pdf.ts:42-44 | text with a visible character yields at least one page |
| PdfIngestion.ClassifyExtractError | src/lib/ingestion/pdf.ts:50-64 | the code is ENCRYPTED_PDF exactly for an Error mentioning encrypted, password or Encrypted; a library failure is never EMPTY_TEXT |
| PdfIngestion.ParsePdf | src/lib/ingestion/pdf.ts:24-66 | all-white-space text gives EMPTY_TEXT; parsing succeeds exactly when text with a visible character was extracted, and then returns its non-empty page list; EMPTY_TEXT comes only from such text |
| PdfIngestion.ParsePdfPages | src/lib/ingestion/pdf.ts:34-49 | a parsed PDF has at least one page; numbers are at least 1 and strictly increase; each text is non-empty, trimmed, free of doubled white space, and has only plain spaces as white space |
| PdfIngestion.ParsePdfErrorNonEmpty | src/lib/ingestion/pdf.ts:50-64 | every parse error carries a non-empty message |
| Chunking.KeptSentencesMembers | src/lib/ingestion/chunking.ts:24-27 | a text is kept exactly when it is the non-empty trimmed raw text of a `Sentence` node; every kept text is trimmed |
| Chunking.ChunkPdf | src/lib/ingestion/chunking.ts:15-46 | the nested loops produce the chunks of the earlier pages and then the current page's, numbered on from the running index |
| Chunking.PdfChunksContents | src/lib/ingestion/chunking.ts:20-45 | chunk `k` has index `k`, the `k`-th kept sentence over all pages, the document's ids and no embedding |
| Chunking.PdfChunksFromPages | src/lib/ingestion/chunking.ts:29-42 | every chunk carries a page's number and one of that page's kept sentences |
| Chunking.PdfChunkIsSentence | src/lib/ingestion/chunking.ts:24-35 | every chunk's content is non-empty and trimmed |
| Chunking.PdfChunksPageOrder | src/lib/ingestion/chunking.ts:23-43 | for pages in increasing order, page numbers never decrease along the chunks |
| Chunking.ParsedCsvChunks | src/lib/ingestion/chunking.ts:48-69 | a parsed CSV gives one chunk per record: chunk `i` has index `i`, row index `i + 1`, the serialised record and the document's ids |
| Validation.ValidateFileSize | src/lib/documents/validation.ts:23-31 | valid exactly up to 10 MB; otherwise the too-large message |
| Validation.ValidateFileType | src/lib/documents/validation.ts:40-48 | valid exactly for the four allowed MIME types; otherwise the invalid-type message |
| Validation.ValidateCsvRowsSpec | src/lib/documents/validation.ts:57-92 | the CSV check fails exactly when the type mentions `csv` and parsing fails, with the parser's message; its own row branch is unreachable |
| Validation.ValidateCsvRowsLimit | src/lib/documents/validation.ts:57-73 | a CSV upload with more than 2000 records gets the parser's row-limit message; one with exactly 2000 passes |
| Validation.ValidatePdfPages | src/lib/documents/validation.ts:101-137 | valid exactly when the type does not mention `pdf`, or the PDF parses to at most 30 pages |
| Validation.ValidateDocumentAll | src/lib/documents/validation.ts:146-168 | a document is valid exactly when all four checks pass |
| Validation.ValidateDocumentFirstFailure | src/lib/documents/validation.ts:146-168 | the result is the earliest failing check's result |
| Validation.PdfSkipsCsvCheck | src/lib/documents/validation.ts:58-60 | an `application/pdf` upload passes the CSV check unparsed |
| Validation.CsvSkipsPdfCheck | src/lib/documents/validation.ts:102-104 | CSV, Excel and plain-text uploads pass the PDF check unparsed |
| Validation.InvalidHasMessage | src/lib/documents/validation.ts:146-168 | every rejection carries a non-empty message |
| DocumentQueries.ApplyStage | src/lib/database/queries/document.ts:39-140 | no guarded update moves a document to an earlier stage; a ready or failed document admits only the soft delete, which keeps its status |
| DocumentQueries.RunStage | src/lib/database/queries/document.ts:39-140 | over any sequence of updates the stage never decreases, and ready or failed is final |
| DocumentQueries.ApplyKeepsPath | src/lib/database/queries/document.ts:39-61 | every update keeps "uploading has no storage path; processing and ready have one" |
| DocumentQueries.SoftDeleteOnce | src/lib/database/queries/document.ts:222-240 | a soft delete sets only `deleted_at`, and a second one is rejected |
| DocumentQueries.DocumentStore.InsertDocument | src/lib/database/queries/document.ts:15-32 | adds exactly one new `uploading` row under an unused id, and nothing else changes |
| DocumentQueries.DocumentStore.Update | src/lib/database/queries/document.ts:39-140 | a guarded update applies exactly when the row exists and its guard accepts it; otherwise it reports the guard's message and changes nothing |
| DocumentQueries.DocumentStore.UpdateDocumentAfterUpload | src/lib/database/queries/document.ts:39-61 | `uploading` becomes `processing` with the storage path; any other state gives `Document not in expected state (uploading)` and no change |
| DocumentQueries.DocumentStore.MarkDocumentFailed | src/lib/database/queries/document.ts:68-90 | `uploading` or `processing` becomes `failed` with the reason; otherwise the guard message and no change |
| DocumentQueries.DocumentStore.MarkDocumentReady | src/lib/database/queries/document.ts:122-140 | `processing` becomes `ready`; otherwise the guard message and no change |
| DocumentQueries.DocumentStore.SoftDeleteDocument | src/lib/database/queries/document.ts:222-240 | sets `deleted_at` exactly when it is unset; otherwise `Document not found or already deleted` |
| DocumentQueries.DocumentStore.AcquireProcessingLock | src/lib/database/queries/document.ts:97-116 | returns the current row exactly when the lock is granted and the row exists |
| DocumentQueries.DocumentStore.DeleteDocumentChunks | src/lib/database/queries/document.ts:146-155 | removes exactly the chunks of the document and keeps every other chunk unchanged |
| DocumentQueries.DocumentStore.InsertChunks | src/lib/documents/processing.ts:46-64 | the whole batch is stored in order under fresh keys, or nothing is when the insert fails |
| DocumentQueries.DocumentStore.UpdateChunkEmbedding | src/lib/database/queries/document.ts:162-173 | sets one chunk's embedding and changes nothing else |
| DocumentQueries.DocumentStore.SelectDocumentById | src/lib/database/queries/document.ts:200-216 | the row exactly when it exists and is not soft-deleted |
| DocumentQueries.DocumentStore.SelectDocumentsByConversation | src/lib/database/queries/document.ts:180-193 | exactly the conversation's rows that are not deleted, newest first, each once |
| DocumentQueries.WithoutDocument | src/lib/database/queries/document.ts:146-155 | the chunk table keeps exactly the chunks of other documents, unchanged |
| DocumentQueries.PlacedSpec | src/lib/documents/processing.ts:46-59 | a batch is laid out under exactly the keys `start` to `start + n - 1`, in order |
| Processing.StripCsvSuffix | src/lib/documents/processing.ts:34 | removes one trailing `.csv` in any letter case and nothing else |
| Processing.EntityNameSpec | src/lib/documents/processing.ts:34 | the entity name is the filename without its `.csv` suffix, with every `_` and `-` read as a space |
| Processing.ChunkFileFresh | src/lib/documents/processing.ts:28-37 | every chunk made from a document carries its ids, no embedding, and its position as index |
| Processing.ChunkStoredFile | src/lib/documents/processing.ts:28-37 | a PDF is parsed and its pages chunked; anything else is parsed as CSV under the entity name; a parse error is returned as its message |
| Processing.CatchFrame | src/lib/documents/processing.ts:68-72 | the catch block changes only the document's row |
| Processing.CatchStatus | src/lib/documents/processing.ts:68-72 | after a throw the document is failed, unless it was ready; a processing document records the message and the caught value is re-raised |
| Processing.ReplaceFrame | src/lib/documents/processing.ts:44-67 | replacing chunks touches no other document and no chunk of another document |
| Processing.ReplaceStatus | src/lib/documents/processing.ts:44-67 | the document ends ready exactly when it was processing and the insert succeeded; a failed insert leaves it failed with `Failed to insert chunks: …` and its old chunks deleted |
| Processing.ReplaceStoresBatch | src/lib/documents/processing.ts:44-59 | after a successful insert the document's chunks are exactly the batch, in order |
| Processing.TryBlockFrame | src/lib/documents/processing.ts:25-67 | the `try` block touches no other document and no chunk of another document |
| Processing.TryBlockStatus | src/lib/documents/processing.ts:25-67 | the `try` block makes a document ready exactly on the successful path and then returns true; otherwise the status is unchanged or failed |
| Processing.ProcessWithoutLock | src/lib/documents/processing.ts:14-18 | the call returns false exactly when the lock is refused or the row is missing, and then nothing changes |
| Processing.ProcessTouchesOnlyItsDocument | src/lib/documents/processing.ts:14-73 | processing changes no other document and no chunk of another document |
| Processing.ProcessRaisedLeavesFailed | src/lib/documents/processing.ts:14-73 | whenever the call throws, the document is failed, unless it was ready |
| Processing.ProcessWithoutPath | src/lib/documents/processing.ts:20-23 | a document without a storage path is marked `Missing storage_path` and the call throws `Document has no storage_path`; if marking is rejected, its error is thrown and nothing changes |
| Processing.ProcessReadyIffSucceeds | src/lib/documents/processing.ts:14-73 | a document ends ready exactly when it was processing, has a path, yields chunks, and the insert succeeds; it then returns true |
| Processing.ProcessSuccessReplacesChunks | src/lib/documents/processing.ts:39-67 | on success the document is ready and its chunks are exactly the new ones, in order |
| Processing.ProcessFailureRecordsReason | src/lib/documents/processing.ts:39-72 | a failing document records the reason (parse error, `No chunks generated`, insert error); zero chunks returns true; an insert error is masked by the guard error |
| Processing.PipelineChunksBelongToDocument | src/lib/documents/processing.ts:26-37 | the chunks read from storage belong to the document, carry no embedding, and are indexed by position |
| Processing.Produce | src/lib/documents/processing.ts:26-37 | a read failure is re-thrown; a parse error is thrown as an Error with its message; otherwise the chunks |
| Processing.ReplaceChunks | src/lib/documents/processing.ts:44-67 | against the store: delete, insert, then mark ready, or mark failed with the insert error |
| Processing.Attempt | src/lib/documents/processing.ts:25-67 | against the store: the whole `try` block after reading |
| Processing.Recover | src/lib/documents/processing.ts:68-72 | against the store: the `catch` block |
| Processing.ProcessDocument | src/lib/documents/processing.ts:14-73 | against the store, `processDocument` leaves the tables and returns or throws as the specification function says |
| Processing.TryCatch | src/lib/documents/processing.ts:25-72 | against the store: the `try` block followed by its `catch` |
| SemanticCache.SemanticCacheTable.GetSemanticCache | src/lib/database/queries/semantic-cache.ts:9-24 | a database error is thrown with its prefix; otherwise the stored text, a missing row or an empty text reading as nothing |
| SemanticCache.SemanticCacheTable.SetSemanticCache | src/lib/database/queries/semantic-cache.ts:26-42 | inserts when the key is absent; a duplicate key succeeds silently and keeps the stored text; another error is thrown and nothing is written |
| SemanticCache.ReplayKeepsStored | src/lib/database/queries/semantic-cache.ts:26-42 | a stored key keeps its text through any later writes |
| SemanticCache.FirstWriteWins | src/lib/database/queries/semantic-cache.ts:26-42 | the text that stays for a new key is the one from its first write |
| SemanticCache.LookupAfterPut | src/lib/database/queries/semantic-cache.ts:9-42 | a read after a write finds the earlier stored text if there was one, else the new text (nothing if empty); other keys read as before |
| MetadataJson.RenderEntriesSpec | src/lib/ai/semanticize.ts:10-11 | the JSON of a metadata record holds one member per distinct key assigned, each with the value of that key's last assignment; the keys are distinct, every key of the record appears, array indices come first in ascending order, and the other keys follow in order of first assignment |
| MetadataJson.StringifyIndexKeyFirst | src/lib/ai/semanticize.ts:11 | `{b: 1, "0": 2}` is written `{"0":2,"b":1}`: the array index goes first |
| MetadataJson.StringifyInOrder | src/lib/ai/semanticize.ts:11 | `{"0": 2, b: 1}` is written `{"0":2,"b":1}` as well |
| MetadataJson.StringifyLastValueWins | src/lib/ai/semanticize.ts:11 | a key assigned 1 then 2 is written once, `{"a":2}` |
| MetadataJson.StringifySingle | src/lib/ai/semanticize.ts:11 | `{a: 2}` is written `{"a":2}` |
| Semanticize.CacheKeyIndexKeyFirst | src/lib/ai/semanticize.ts:10-13 | the records `{b: 1, "0": 2}` and `{"0": 2, b: 1}` are the same object and give the same key, the digest of the content followed by `{"0":2,"b":1}` |
| Semanticize.CacheKeyLastValueWins | src/lib/ai/semanticize.ts:10-13 | a record assigning `a` twice gives the key of the record holding only the last value |
| Semanticize.CacheKeyAbsentMetadata | src/lib/ai/semanticize.ts:10-13 | absent metadata and an empty record give the same key, the digest of `content + "{}"` |
| Semanticize.LoopCalls | src/lib/ai/semanticize.ts:73-168 | the retry loop makes at most one model call per remaining attempt |
| Semanticize.SemanticizeCalls | src/lib/ai/semanticize.ts:20-171 | at most `MAX_RETRIES + 1 = 2` model calls, and none for too-large content, a cache hit or a failed table read |
| Text.Utf16Length | src/lib/ai/semanticize.ts:27 | `content.length` counts UTF-16 code units: between one and two per character, and zero only for empty text |
| Text.Utf16LengthAppend | src/lib/ai/semanticize.ts:27 | the UTF-16 length of a concatenation is the sum of the lengths |
| Text.Utf16LengthBmp | src/lib/ai/semanticize.ts:27 | text of Basic Multilingual Plane characters has one code unit per character |
| Text.Utf16LengthAstral | src/lib/ai/semanticize.ts:27 | one character outside the Basic Multilingual Plane makes the UTF-16 length exceed the character count |
| Semanticize.SemanticizeTooLarge | src/lib/ai/semanticize.ts:27-29 | content over 8000 UTF-16 code units throws the size error naming that length, with the caches unchanged and no model call |
| Semanticize.SemanticizeCacheHits | src/lib/ai/semanticize.ts:31-42 | a non-empty in-memory entry is returned as is; a table hit is copied into memory and returned, without a model call |
| Semanticize.SemanticizeStoresAnswer | src/lib/ai/semanticize.ts:100-133 | a non-empty first answer is trimmed, stored in both caches and returned |
| Semanticize.SemanticizeEmptyAnswers | src/lib/ai/semanticize.ts:102-162 | two empty answers: a PDF gets its raw text back, a CSV throws the prefixed empty-output error, nothing is cached |
| Semanticize.SemanticizeTimeouts | src/lib/ai/semanticize.ts:134-170 | a timeout is retried, and a timeout on the last attempt throws the timeout error for both types |
| Semanticize.SemanticizeFirstErrorNotRetried | src/lib/ai/semanticize.ts:144-165 | another error on the first attempt is re-thrown without a retry |
| Semanticize.SemanticizeLastErrorFallsBack | src/lib/ai/semanticize.ts:155-162 | another Error on the last attempt gives a PDF its raw text and makes a CSV throw with the CSV prefix |
| Semanticize.LoopKeepsMemoryNonEmpty | src/lib/ai/semanticize.ts:73-168 | the loop never stores an empty text in memory; a result is the raw content or a non-empty text |
| Semanticize.SemanticizeKeepsMemoryNonEmpty | src/lib/ai/semanticize.ts:20-171 | every call keeps the in-memory cache free of empty texts; a result is the raw content or a non-empty text |
| Semanticize.Normalizer.constructor | src/lib/ai/semanticize.ts:5 | the module's in-memory cache starts empty |
| Semanticize.Normalizer.SemanticizeText | src/lib/ai/semanticize.ts:20-171 | the caches it leaves, its result and its number of model calls are those of the specification function |
| Semanticize.Normalizer.RetryLoop | src/lib/ai/semanticize.ts:73-170 | the `for` loop over attempts agrees with the specification's retry loop |
| TempStorage.ExtensionSpec | src/utils/temp-storage.ts:119 | the extension holds no dot and ends the name; it follows the last dot, or is the whole name when there is no dot |
| TempStorage.ExtensionAfterDot | src/utils/temp-storage.ts:119-121 | the extension of `<stem>.<ext>` with a dot-free `ext` is `ext` |
| TempStorage.StoredNameKeepsExtension | src/utils/temp-storage.ts:119-121 | whatever the uuid, the stored name `<uuid>.<ext>` keeps the original extension |
| TempStorage.ContentType | src/utils/temp-storage.ts:126 | `application/pdf` exactly for names ending in `.pdf`, `text/csv` otherwise |
| TempStorage.InfosMembers | src/utils/temp-storage.ts:58-63 | the listed files are exactly the objects that have an id |
| TempStorage.SortByCreatedSpec | src/utils/temp-storage.ts:64 | the listing is oldest first and keeps every file as often as it occurs |
| TempStorage.Listing | src/utils/temp-storage.ts:42-71 | an error mentioning `not found` gives an empty list, another error is thrown, and otherwise every listed file is returned oldest first |
| TempStorage.Without | src/utils/temp-storage.ts:172-175 | removing a path keeps exactly the objects with other names |
| TempStorage.RemoveEachSpec | src/utils/temp-storage.ts:83-95 | an object survives the removals exactly when no victim has its name or that removal was refused |
| TempStorage.CleanupBelowLimit | src/utils/temp-storage.ts:80 | below 10 listed files nothing is removed |
| TempStorage.CleanupEvictsOldest | src/utils/temp-storage.ts:77-97 | from 10 files on, the `n - 9` oldest are removed, and each is no newer than any kept file |
| TempStorage.Ensure | src/utils/temp-storage.ts:17-36 | a listing error or a creation error is thrown; otherwise the bucket exists afterwards; the objects never change |
| TempStorage.Download | src/utils/temp-storage.ts:146-163 | with no service error, succeeds exactly for a stored name, with that object's bytes; a `not found` or missing object gives `Temp file not found: <path>`, another error the download prefix |
| TempStorage.SaveRejectsLargeFile | src/utils/temp-storage.ts:113-115 | a buffer over 10 MB is rejected with `File size exceeds maximum limit of 10MB` before the bucket is touched |
| TempStorage.SaveSucceeds | src/utils/temp-storage.ts:109-137 | a save succeeds exactly when the size, bucket, upload and listing steps do not fail, and returns `<uuid>.<extension>` |
| TempStorage.SaveThenDownload | src/utils/temp-storage.ts:109-163 | a file saved under a fresh name and newer than every listed file downloads afterwards with exactly the saved bytes |
| TempStorage.NewestSurvives | src/utils/temp-storage.ts:77-97 | the cleanup after an upload never evicts the strictly newest file and adds no object |
| TempStorage.CleanupAllEmptiesListing | src/utils/temp-storage.ts:186-206 | fails exactly on a listing or removal error not mentioning `not found`; adds nothing; with no errors nothing is listed afterwards |
| TempStorage.WithoutMissing | src/utils/temp-storage.ts:172-180 | removing an absent name changes nothing; after a removal a download of that name is not found |
| TempStorage.TempBucket.EnsureBucket | src/utils/temp-storage.ts:17-36 | the bucket after `ensureBucket` is the one the specification function gives |
| TempStorage.TempBucket.CleanupOldFiles | src/utils/temp-storage.ts:77-97 | the removal loop leaves the objects the specification's eviction gives, going on past refused removals |
| TempStorage.TempBucket.SaveTempFile | src/utils/temp-storage.ts:109-137 | the bucket and result after `saveTempFile` are those of the specification function |
| TempStorage.TempBucket.GetTempFile | src/utils/temp-storage.ts:146-163 | the download succeeds exactly for a stored name, with its bytes, and otherwise gives the not-found or download error |
| TempStorage.TempBucket.DeleteTempFile | src/utils/temp-storage.ts:172-180 | an error is thrown exactly when it does not mention `not found`; otherwise every object of that name is removed |
| TempStorage.TempBucket.CleanupAllTempFiles | src/utils/temp-storage.ts:186-206 | the bucket after `cleanupAllTempFiles` is the one the specification function gives |
| EnvLoader.ParseLineSpec | scripts/load-env.js:18-23 | a line assigns exactly when its trimmed text is not a comment, has an `=` and does not start with one; the key is the `=`-free text before the first `=`, and the value is the trimmed rest |
| EnvLoader.Assign | scripts/load-env.js:24-26 | the key is set afterwards: to the line's value when it was unset or empty, and otherwise to its old value; every other variable keeps its value |
| EnvLoader.NonEmptyKept | scripts/load-env.js:24-26 | a variable with a non-empty value keeps it through any lines |
| EnvLoader.UnassignedUnchanged | scripts/load-env.js:18-29 | a variable no line names is left as it was |
| EnvLoader.EmptyStaysEmpty | scripts/load-env.js:24-26 | an unset or empty variable stays unset or empty when the lines only give it empty values |
| EnvLoader.FirstNonEmptyWins | scripts/load-env.js:18-29 | for an unset or empty variable, the first line giving it a non-empty value decides its final value |
| EnvLoader.FirstFileWins | scripts/load-env.js:32-35 | a non-empty value from `supabase.env` is never replaced by `open-router.env` |
| EnvLoader.MissingFilesChangeNothing | scripts/load-env.js:10-13 | with neither file present the environment is unchanged |
| EnvLoader.ProcessEnv.LoadEnvFile | scripts/load-env.js:9-30 | the line loop assigns the file's lines in order into the environment; a missing file changes nothing |
| EnvLoader.ProcessEnv.LoadEnvFiles | scripts/load-env.js:32-35 | loads `supabase.env`, then `open-router.env` |

## Left out

- Foreign libraries are parameters, not models: csv-parse's tokenizer (a parse is given
  as its records or the value it threw), pdf-parse, sentence-splitter, the OpenRouter
  client, SHA-256 and `randomUUID`.
- I/O is a parameter: file reads, database and storage calls, clocks and `fs.existsSync`.
  Their answers (data, error message, error code) are inputs. The environment directory
  (`path.join(__dirname, '..', 'env')`) is not modelled; files are named by their base name.
- Logging (`console.warn`, `console.error`) and the CSV column-count warning are not
  modelled; they change no state.
- Unicode: case mapping (`toLowerCase`, `toUpperCase`) covers ASCII letters only; other
  characters keep their case. White space (`\s`, `trim`) is the full ECMAScript set.
- Chunk ids and `created_at` timestamps are not part of a chunk. The store keys chunks by
  consecutive numbers; chunk deletion is by document id, as in the source.
- The body of the `acquire_document_processing_lock` database function is not part of this
  model. Whether it grants the lock is a parameter, and its RPC error codes are left out.
- Database errors other than the guard checks are left out, for `insertDocument`,
  `deleteDocumentChunks`, the selects and the updates. So is the error `.single()`
  reports for zero rows. A rejected guarded update returns the "not in expected state"
  message, where the deployed code would raise its `Failed to … : <query error>` wrapper;
  either way an error is raised and nothing changes.
- DocumentQueries.DocumentStore.UpdateChunkEmbedding: a missing chunk leaves the table
  unchanged rather than raising the zero-row error of `.single()`.
- Validation reads the file's bytes through the parser parameters. So the
  `Failed to validate CSV file` and `Failed to validate PDF file` branches, which catch
  other read errors, are not modelled.
- Semanticize: the prompts, the model name and the `AbortController` timer are left out.
  A timeout is a distinct model answer.
- MetadataJson.RenderEntriesSpec: metadata values are strings or integers (a number with a
  fraction is not modelled), and keys and string values are written without JSON escaping.
- Semanticize.CacheKeyAbsentMetadata: SHA-256 is a parameter, so the key's properties are
  stated up to the digest function.
- TempStorage: the storage listing's own ordering and page size are not modelled; the
  model sorts every listed object. Timestamps are integers, and a missing `created_at`
  reads as the given `now`.
- TempStorage.CleanupEvictsOldest: states which files are evicted, but not that exactly
  9 listed files remain; refused removals and duplicate names make that count inexact.
- TempStorage.SortByCreatedSpec: states order and permutation, but not that the sort is
  stable for equal timestamps.
- EnvLoader: `process.env` is a map from name to string. An unset variable and one set to
  `""` are treated alike, as the source's `!process.env[key]` does.
