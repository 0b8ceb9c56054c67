/** `processDocument`: takes the processing lock on a document, reads its stored file,
    parses and chunks it by type, replaces the document's chunks, and marks the document
    ready; every failure inside marks the document failed and is re-raised. */
module Processing {
  import opened Wrappers
  import opened Text
  import opened Schema
  import opened CsvIngestion
  import opened PdfIngestion
  import opened Chunking
  import opened DocumentQueries

  /** The stored file's bytes, as each parser sees them. */
  datatype FileContent = FileContent(asCsv: CsvParserOutcome, asPdf: PdfExtraction)

  /** How a call to `processDocument` ends: it returns a boolean or it throws. */
  datatype Completion = Returned(processed: bool) | Raised(error: Thrown)

  const MissingPathReason: string := "Missing storage_path"
  const NoPathError: string := "Document has no storage_path"
  const NoChunksReason: string := "No chunks generated"
  const InsertFailedPrefix: string := "Failed to insert chunks: "
  const UnknownError: string := "Unknown error"

  /** The filename with one trailing `.csv` removed, in any letter case. */
  function StripCsvSuffix(filename: string): (r: string)
    ensures r == filename || (EndsCsv(filename) && r == filename[..|filename| - 4])
    ensures EndsCsv(filename) <==> |r| == |filename| - 4
  {
    if EndsCsv(filename) then filename[..|filename| - 4] else filename
  }

  /** Whether the name ends in `.csv`, ignoring ASCII letter case. */
  predicate EndsCsv(filename: string) {
    |filename| >= 4 && ToLower(filename[|filename| - 4..]) == ".csv"
  }

  /** The entity name a CSV document is parsed with: its filename without the `.csv`
      extension, with `_` and `-` read as spaces. */
  function EntityName(filename: string): string {
    ReplaceChars(StripCsvSuffix(filename), {'_', '-'}, ' ')
  }

  /** The entity name is the filename up to its extension, character by character, with
      every `_` and `-` turned into a space. */
  lemma EntityNameSpec(filename: string)
    ensures var r := EntityName(filename);
      && |r| == (if EndsCsv(filename) then |filename| - 4 else |filename|)
      && (forall i :: 0 <= i < |r| ==> r[i] == (if filename[i] == '_' || filename[i] == '-' then ' ' else filename[i]))
      && (forall i :: 0 <= i < |r| ==> r[i] != '_' && r[i] != '-')
  {
  }

  /** What the stored file parses and chunks to, by the document's type; an error is the
      message of the parse error that is thrown. */
  function ChunkFile(doc: Document, content: FileContent, split: Splitter): Result<seq<Chunk>> {
    if doc.fileType == Pdf then
      match ParsePdf(content.asPdf)
      case Failure(e) => Err(e.message)
      case Success(parsed) => Ok(PdfChunks(doc.id, doc.conversationId, parsed.pages, split))
    else
      match ParseCsv(content.asCsv, EntityName(doc.filename))
      case Err(message) => Err(message)
      case Ok(parsed) => Ok(ChunkCsv(parsed, doc.id, doc.conversationId))
  }

  /** Every chunk made from a document carries that document's identifiers, no embedding,
      and its own position as chunk index. */
  lemma ChunkFileFresh(doc: Document, content: FileContent, split: Splitter)
    requires ChunkFile(doc, content, split).Ok?
    ensures var chunks := ChunkFile(doc, content, split).value;
      forall k :: 0 <= k < |chunks| ==> Fresh(chunks[k], doc.id, doc.conversationId) && chunks[k].chunkIndex == k
  {
    if doc.fileType == Pdf {
      PdfChunksContents(doc.id, doc.conversationId, ParsePdf(content.asPdf).value.pages, split);
    } else {
      ParsedCsvChunks(content.asCsv, EntityName(doc.filename), doc.id, doc.conversationId);
    }
  }

  /** The reading, parsing and chunking steps: a failed read throws its own error, a parse
      error is thrown as an `Error` with its message. */
  function Pipeline(doc: Document, read: Fallible<FileContent, Thrown>, split: Splitter): Fallible<seq<Chunk>, Thrown> {
    match read
    case Failure(thrown) => Failure(thrown)
    case Success(content) =>
      match ChunkFile(doc, content, split)
      case Err(message) => Failure(ErrorObject(message))
      case Ok(chunks) => Success(chunks)
  }

  /** The message recorded for a caught value. */
  function ErrorMessage(e: Thrown): string {
    if e.ErrorObject? then e.message else UnknownError
  }

  /** Parsing and chunking as `processDocument` performs it: a PDF is parsed and its pages
      chunked, anything else is parsed as CSV under the entity name from its filename. */
  method ChunkStoredFile(doc: Document, content: FileContent, split: Splitter) returns (r: Result<seq<Chunk>>)
    ensures r == ChunkFile(doc, content, split)
  {
    if doc.fileType == Pdf {
      var parsed := ParsePdf(content.asPdf);
      if parsed.Failure? {
        return Err(parsed.error.message);
      }
      var chunks := ChunkPdf(parsed.value, doc.id, doc.conversationId, split);
      return Ok(chunks);
    } else {
      var entityName := EntityName(doc.filename);
      var parsed := ParseCsv(content.asCsv, entityName);
      if parsed.Err? {
        return Err(parsed.error);
      }
      return Ok(ChunkCsv(parsed.value, doc.id, doc.conversationId));
    }
  }

  /** The `documents` and `document_chunks` tables. */
  datatype Tables = Tables(documents: map<DocumentId, Document>, chunks: map<ChunkId, Chunk>)

  /** `!document.storage_path`: the document has no storage path, or an empty one. */
  predicate MissingPath(d: Document) {
    d.storagePath.None? || d.storagePath.value == ""
  }

  /** `processDocument(id)`: the tables it leaves and how the call ends, given the lock's
      answer, what reading, parsing and chunking the stored file produce, and the chunk
      insert's error. New chunks are stored under keys from `next` on. */
  function Process(tables: Tables, next: ChunkId, id: DocumentId, lockGranted: bool,
                   produced: Fallible<seq<Chunk>, Thrown>, insertFailure: Option<string>): (Tables, Completion)
  {
    if !lockGranted || id !in tables.documents then (tables, Returned(false))
    else if MissingPath(tables.documents[id]) then
      match Updated(tables.documents, id, MarkFailed(MissingPathReason))
      case None => (tables, Raised(ErrorObject(GuardMessage(MarkFailed(MissingPathReason)))))
      case Some(marked) => (tables.(documents := marked), Raised(ErrorObject(NoPathError)))
    else
      var (after, outcome) := TryBlock(tables, next, id, produced, insertFailure);
      Catch(after, id, outcome)
  }

  /** The `try` block, once reading, parsing and chunking have `produced` their result:
      the tables it leaves, and what it returns or throws. */
  function TryBlock(tables: Tables, next: ChunkId, id: DocumentId, produced: Fallible<seq<Chunk>, Thrown>,
                    insertFailure: Option<string>): (Tables, Fallible<bool, Thrown>)
  {
    match produced
    case Failure(thrown) => (tables, Failure(thrown))
    case Success(chunks) =>
      if chunks == [] then
        match Updated(tables.documents, id, MarkFailed(NoChunksReason))
        case None => (tables, Failure(ErrorObject(GuardMessage(MarkFailed(NoChunksReason)))))
        case Some(marked) => (tables.(documents := marked), Success(true))
      else Replace(tables, next, id, chunks, insertFailure)
  }

  /** The end of the `try` block for a non-empty batch: the document's chunks are deleted,
      the batch is inserted, and the document is marked ready, or failed with the insert's
      error. */
  function Replace(tables: Tables, next: ChunkId, id: DocumentId, chunks: seq<Chunk>,
                   insertFailure: Option<string>): (Tables, Fallible<bool, Thrown>)
  {
    var kept := WithoutDocument(tables.chunks, id);
    if insertFailure.Some? then
      var reason := InsertFailedPrefix + insertFailure.value;
      match Updated(tables.documents, id, MarkFailed(reason))
      case None => (Tables(tables.documents, kept), Failure(ErrorObject(GuardMessage(MarkFailed(reason)))))
      case Some(marked) => (Tables(marked, kept), Failure(ErrorObject(reason)))
    else
      var stored := kept + Placed(chunks, next);
      match Updated(tables.documents, id, MarkReady)
      case None => (Tables(tables.documents, stored), Failure(ErrorObject(GuardMessage(MarkReady))))
      case Some(marked) => (Tables(marked, stored), Success(true))
  }

  /** The `catch` block: a thrown value marks the document failed with its message and is
      re-raised, unless marking is rejected, whose error is raised instead. */
  function Catch(tables: Tables, id: DocumentId, outcome: Fallible<bool, Thrown>): (Tables, Completion) {
    if outcome.Success? then (tables, Returned(outcome.value))
    else
      var reason := ErrorMessage(outcome.error);
      match Updated(tables.documents, id, MarkFailed(reason))
      case None => (tables, Raised(ErrorObject(GuardMessage(MarkFailed(reason)))))
      case Some(marked) => (tables.(documents := marked), Raised(outcome.error))
  }

  /** The successful path: the document is being processed, its file yields chunks, and
      the insert succeeds. */
  predicate Succeeds(doc: Document, produced: Fallible<seq<Chunk>, Thrown>, insertFailure: Option<string>) {
    doc.status == Processing && produced.Success? && produced.value != [] && insertFailure.None?
  }

  /** The reason recorded on a document whose processing fails. */
  function FailureReason(produced: Fallible<seq<Chunk>, Thrown>, insertFailure: Option<string>): string {
    match produced
    case Failure(thrown) => ErrorMessage(thrown)
    case Success(chunks) =>
      if chunks == [] then NoChunksReason
      else if insertFailure.Some? then InsertFailedPrefix + insertFailure.value
      else ""
  }

  /** Tables as a document store keeps them: a storage path once processing starts, every
      chunk key below `next`. */
  predicate WellFormed(tables: Tables, next: ChunkId) {
    && (forall id :: id in tables.documents ==> HasPathWhenStarted(tables.documents[id]))
    && (forall c :: c in tables.chunks ==> c < next)
  }

  /** Nothing but document `id` and its chunks differs between `before` and `after`. */
  predicate OnlyDocumentChanged(before: Tables, after: Tables, id: DocumentId) {
    && after.documents.Keys == before.documents.Keys
    && (forall other :: other in before.documents && other != id ==> after.documents[other] == before.documents[other])
    && (forall c :: c in before.chunks && before.chunks[c].documentId != id ==> c in after.chunks && after.chunks[c] == before.chunks[c])
  }

  // ---------------------------------------------------------------- the stages

  /** The `catch` block changes only the document's row. */
  lemma CatchFrame(tables: Tables, id: DocumentId, outcome: Fallible<bool, Thrown>)
    ensures var after := Catch(tables, id, outcome).0;
      after.chunks == tables.chunks && OnlyDocumentChanged(tables, after, id)
  {
  }

  /** After the `catch` block the document is failed, unless it was ready or rejected the
      update; a value it returns is the `try` block's, and a processing document records
      the caught message and the caught value is re-raised. */
  lemma CatchStatus(tables: Tables, id: DocumentId, outcome: Fallible<bool, Thrown>)
    requires id in tables.documents
    ensures var (after, r) := Catch(tables, id, outcome);
      && id in after.documents
      && (outcome.Success? ==> after == tables && r == Returned(outcome.value))
      && (outcome.Failure? ==> r.Raised?)
      && (outcome.Failure? ==> after.documents[id].status == (if tables.documents[id].status == Ready then Ready else Failed))
      && (outcome.Failure? && tables.documents[id].status == Processing ==>
            && after.documents == tables.documents[id := tables.documents[id].(status := Failed, errorReason := Some(ErrorMessage(outcome.error)))]
            && r == Raised(outcome.error))
  {
  }

  /** Replacing a batch changes no other document, and no chunk of another document. */
  lemma ReplaceFrame(tables: Tables, next: ChunkId, id: DocumentId, chunks: seq<Chunk>, insertFailure: Option<string>)
    requires forall c :: c in tables.chunks ==> c < next
    ensures OnlyDocumentChanged(tables, Replace(tables, next, id, chunks, insertFailure).0, id)
  {
    PlacedSpec(chunks, next);
  }

  /** Replacing a non-empty batch leaves the document ready exactly when it was being
      processed and the insert succeeded, and otherwise failed with the insert's error when
      it was being processed; it returns true only when the document ends ready. */
  lemma ReplaceStatus(tables: Tables, next: ChunkId, id: DocumentId, chunks: seq<Chunk>, insertFailure: Option<string>)
    requires id in tables.documents
    ensures var (after, t) := Replace(tables, next, id, chunks, insertFailure);
      var before := tables.documents[id];
      && id in after.documents
      && (after.documents[id].status == Ready && before.status != Ready <==> before.status == Processing && insertFailure.None?)
      && (t.Success? <==> before.status == Processing && insertFailure.None?)
      && (after.documents[id].status == before.status || after.documents[id].status in {Ready, Failed})
      && (insertFailure.Some? ==> after.chunks == WithoutDocument(tables.chunks, id))
      && (before.status == Processing && insertFailure.None? ==> after.documents == tables.documents[id := before.(status := Ready)])
      && (before.status == Processing && insertFailure.Some? ==>
            after.documents == tables.documents[id := before.(status := Failed, errorReason := Some(InsertFailedPrefix + insertFailure.value))])
  {
  }

  /** After a successful insert the document's chunks are exactly the batch, in order,
      under keys from `next` on. */
  lemma ReplaceStoresBatch(tables: Tables, next: ChunkId, id: DocumentId, chunks: seq<Chunk>)
    requires forall c :: c in tables.chunks ==> c < next
    requires forall k :: 0 <= k < |chunks| ==> chunks[k].documentId == id
    ensures var after := Replace(tables, next, id, chunks, None).0;
      && (forall c :: c in after.chunks && after.chunks[c].documentId == id <==> next <= c < next + |chunks|)
      && (forall k :: 0 <= k < |chunks| ==> next + k in after.chunks && after.chunks[next + k] == chunks[k])
  {
    PlacedSpec(chunks, next);
    var after := Replace(tables, next, id, chunks, None).0;
    assert after.chunks == WithoutDocument(tables.chunks, id) + Placed(chunks, next);
    forall c | next <= c < next + |chunks|
      ensures c in after.chunks && after.chunks[c].documentId == id
    {
      assert after.chunks[c] == chunks[c - next];
    }
  }

  /** The `try` block changes no other document, and no chunk of another document. */
  lemma TryBlockFrame(tables: Tables, next: ChunkId, id: DocumentId, produced: Fallible<seq<Chunk>, Thrown>,
                      insertFailure: Option<string>)
    requires forall c :: c in tables.chunks ==> c < next
    ensures OnlyDocumentChanged(tables, TryBlock(tables, next, id, produced, insertFailure).0, id)
  {
    if produced.Success? && produced.value != [] {
      ReplaceFrame(tables, next, id, produced.value, insertFailure);
    }
  }

  /** The `try` block leaves the document ready from another status exactly on the
      successful path, and then returns true; otherwise the status is unchanged or failed. */
  lemma TryBlockStatus(tables: Tables, next: ChunkId, id: DocumentId, produced: Fallible<seq<Chunk>, Thrown>,
                       insertFailure: Option<string>)
    requires id in tables.documents
    ensures var (after, t) := TryBlock(tables, next, id, produced, insertFailure);
      var before := tables.documents[id];
      && id in after.documents
      && (after.documents[id].status == Ready && before.status != Ready <==> Succeeds(before, produced, insertFailure))
      && (after.documents[id].status == Ready && before.status != Ready ==> t == Success(true))
      && (after.documents[id].status == before.status || after.documents[id].status in {Ready, Failed})
      && (t.Success? && before.status != Ready ==> after.documents[id].status in {Ready, Failed})
  {
    if produced.Success? && produced.value != [] {
      ReplaceStatus(tables, next, id, produced.value, insertFailure);
    }
  }

  // ---------------------------------------------------------------- properties

  /** Without the lock, or for a missing document, nothing changes and the call returns
      false; in every other case it never returns false. */
  lemma ProcessWithoutLock(tables: Tables, next: ChunkId, id: DocumentId, lockGranted: bool,
                           produced: Fallible<seq<Chunk>, Thrown>, insertFailure: Option<string>)
    ensures var (after, r) := Process(tables, next, id, lockGranted, produced, insertFailure);
      && (r == Returned(false) <==> !lockGranted || id !in tables.documents)
      && (r == Returned(false) ==> after == tables)
  {
    if lockGranted && id in tables.documents && !MissingPath(tables.documents[id]) {
      var (after, t) := TryBlock(tables, next, id, produced, insertFailure);
      if t.Success? {
        assert t.value;
      }
    }
  }

  /** Processing touches no other document, and no chunk of another document. */
  lemma ProcessTouchesOnlyItsDocument(tables: Tables, next: ChunkId, id: DocumentId, lockGranted: bool,
                                      produced: Fallible<seq<Chunk>, Thrown>, insertFailure: Option<string>)
    requires forall c :: c in tables.chunks ==> c < next
    ensures var (after, r) := Process(tables, next, id, lockGranted, produced, insertFailure);
      OnlyDocumentChanged(tables, after, id)
  {
    if lockGranted && id in tables.documents && !MissingPath(tables.documents[id]) {
      var (after, t) := TryBlock(tables, next, id, produced, insertFailure);
      TryBlockFrame(tables, next, id, produced, insertFailure);
      CatchFrame(after, id, t);
    }
  }

  /** A call that throws leaves the document failed, unless it was ready to begin with (a
      ready document is never moved back). */
  lemma ProcessRaisedLeavesFailed(tables: Tables, next: ChunkId, id: DocumentId, lockGranted: bool,
                                  produced: Fallible<seq<Chunk>, Thrown>, insertFailure: Option<string>)
    ensures var (after, r) := Process(tables, next, id, lockGranted, produced, insertFailure);
      r.Raised? ==>
        && lockGranted && id in tables.documents && id in after.documents
        && after.documents[id].status == (if tables.documents[id].status == Ready then Ready else Failed)
  {
    if lockGranted && id in tables.documents {
      var before := tables.documents[id];
      if MissingPath(before) {
        ProcessWithoutPath(tables, next, id, produced, insertFailure);
      } else {
        var (after, t) := TryBlock(tables, next, id, produced, insertFailure);
        TryBlockStatus(tables, next, id, produced, insertFailure);
        CatchStatus(after, id, t);
      }
    }
  }

  /** A locked document without a storage path is marked failed when its state allows,
      its chunks are untouched, and the call throws: the missing path when the mark was
      applied, the rejected update's error otherwise. */
  lemma ProcessWithoutPath(tables: Tables, next: ChunkId, id: DocumentId,
                           produced: Fallible<seq<Chunk>, Thrown>, insertFailure: Option<string>)
    requires id in tables.documents && MissingPath(tables.documents[id])
    ensures var before := tables.documents[id];
      var (after, r) := Process(tables, next, id, true, produced, insertFailure);
      && after.chunks == tables.chunks
      && (before.status in {Uploading, Processing} ==>
            && r == Raised(ErrorObject(NoPathError))
            && after.documents == tables.documents[id := before.(status := Failed, errorReason := Some(MissingPathReason))])
      && (before.status !in {Uploading, Processing} ==>
            r == Raised(ErrorObject(GuardMessage(MarkFailed(MissingPathReason)))) && after.documents == tables.documents)
  {
  }

  /** A document that was not ready ends ready exactly when it has a non-empty storage
      path and the successful path is taken, and then the call returns true. */
  lemma ProcessReadyIffSucceeds(tables: Tables, next: ChunkId, id: DocumentId,
                                produced: Fallible<seq<Chunk>, Thrown>, insertFailure: Option<string>)
    requires WellFormed(tables, next)
    requires id in tables.documents && tables.documents[id].status != Ready
    ensures var (after, r) := Process(tables, next, id, true, produced, insertFailure);
      && id in after.documents
      && (after.documents[id].status == Ready <==>
            !MissingPath(tables.documents[id]) && Succeeds(tables.documents[id], produced, insertFailure))
      && (after.documents[id].status == Ready ==> r == Returned(true))
  {
    if !MissingPath(tables.documents[id]) {
      var (after, t) := TryBlock(tables, next, id, produced, insertFailure);
      TryBlockStatus(tables, next, id, produced, insertFailure);
      CatchStatus(after, id, t);
    }
  }

  /** On the successful path the document's chunks are exactly the new ones, stored in
      order under fresh keys from `next` on. */
  lemma ProcessSuccessReplacesChunks(tables: Tables, next: ChunkId, id: DocumentId,
                                     produced: Fallible<seq<Chunk>, Thrown>, insertFailure: Option<string>)
    requires WellFormed(tables, next)
    requires id in tables.documents && !MissingPath(tables.documents[id])
    requires Succeeds(tables.documents[id], produced, insertFailure)
    requires forall k :: 0 <= k < |produced.value| ==> produced.value[k].documentId == id
    ensures var (after, r) := Process(tables, next, id, true, produced, insertFailure);
      && r == Returned(true)
      && after.documents == tables.documents[id := tables.documents[id].(status := Ready)]
      && (forall c :: c in after.chunks && after.chunks[c].documentId == id <==> next <= c < next + |produced.value|)
      && (forall k :: 0 <= k < |produced.value| ==> next + k in after.chunks && after.chunks[next + k] == produced.value[k])
  {
    ReplaceStatus(tables, next, id, produced.value, insertFailure);
    ReplaceStoresBatch(tables, next, id, produced.value);
  }

  /** A document being processed, with a storage path, whose processing fails is marked failed with the reason,
      and keeps its old chunks unless the insert failed after they were deleted. The call
      returns true only when no chunks were produced. */
  lemma ProcessFailureRecordsReason(tables: Tables, next: ChunkId, id: DocumentId,
                                    produced: Fallible<seq<Chunk>, Thrown>, insertFailure: Option<string>)
    requires WellFormed(tables, next)
    requires id in tables.documents && tables.documents[id].status == Processing
    requires !MissingPath(tables.documents[id])
    requires !Succeeds(tables.documents[id], produced, insertFailure)
    ensures var doc := tables.documents[id];
      var (after, r) := Process(tables, next, id, true, produced, insertFailure);
      && after.documents == tables.documents[id := doc.(status := Failed, errorReason := Some(FailureReason(produced, insertFailure)))]
      && (produced.Failure? ==> r == Raised(produced.error) && after.chunks == tables.chunks)
      && (produced.Success? && produced.value == [] ==> r == Returned(true) && after.chunks == tables.chunks)
      && (produced.Success? && produced.value != [] ==>
            r == Raised(ErrorObject("Document not in expected state (uploading or processing)"))
            && after.chunks == WithoutDocument(tables.chunks, id))
  {
    var (after, t) := TryBlock(tables, next, id, produced, insertFailure);
    if produced.Success? && produced.value != [] {
      ReplaceStatus(tables, next, id, produced.value, insertFailure);
    }
    CatchStatus(after, id, t);
  }

  /** What the stored file yields for a document are chunks of that document. */
  lemma PipelineChunksBelongToDocument(doc: Document, read: Fallible<FileContent, Thrown>, split: Splitter)
    requires Pipeline(doc, read, split).Success?
    ensures var chunks := Pipeline(doc, read, split).value;
      forall k :: 0 <= k < |chunks| ==> Fresh(chunks[k], doc.id, doc.conversationId) && chunks[k].chunkIndex == k
  {
    ChunkFileFresh(doc, read.value, split);
  }

  // ---------------------------------------------------------------- the methods

  /** The reading, parsing and chunking at the start of the `try` block. */
  method Produce(doc: Document, read: Fallible<FileContent, Thrown>, split: Splitter)
    returns (produced: Fallible<seq<Chunk>, Thrown>)
    ensures produced == Pipeline(doc, read, split)
  {
    if read.Failure? {
      return Failure(read.error);
    }
    var chunks := ChunkStoredFile(doc, read.value, split);
    if chunks.Err? {
      return Failure(ErrorObject(chunks.error));
    }
    return Success(chunks.value);
  }

  /** The deletion, insert and final update of the `try` block, against the store. */
  method ReplaceChunks(store: DocumentStore, id: DocumentId, chunks: seq<Chunk>, insertFailure: Option<string>)
    returns (t: Fallible<bool, Thrown>)
    requires store.Valid()
    modifies store
    ensures store.Valid()
    ensures (Tables(store.documents, store.chunks), t) ==
      Replace(Tables(old(store.documents), old(store.chunks)), old(store.nextChunkId), id, chunks, insertFailure)
  {
    store.DeleteDocumentChunks(id);
    var inserted := store.InsertChunks(chunks, insertFailure);
    if inserted.Fail? {
      var reason := InsertFailedPrefix + inserted.error;
      var marked := store.MarkDocumentFailed(id, reason);
      if marked.Fail? {
        return Failure(ErrorObject(marked.error));
      }
      return Failure(ErrorObject(reason));
    }
    var ready := store.MarkDocumentReady(id);
    if ready.Fail? {
      return Failure(ErrorObject(ready.error));
    }
    return Success(true);
  }

  /** The `try` block after reading and parsing, against the store. */
  method Attempt(store: DocumentStore, id: DocumentId, produced: Fallible<seq<Chunk>, Thrown>, insertFailure: Option<string>)
    returns (t: Fallible<bool, Thrown>)
    requires store.Valid()
    modifies store
    ensures store.Valid()
    ensures (Tables(store.documents, store.chunks), t) ==
      TryBlock(Tables(old(store.documents), old(store.chunks)), old(store.nextChunkId), id, produced, insertFailure)
  {
    if produced.Failure? {
      return Failure(produced.error);
    }
    if |produced.value| == 0 {
      var marked := store.MarkDocumentFailed(id, NoChunksReason);
      if marked.Fail? {
        return Failure(ErrorObject(marked.error));
      }
      return Success(true);
    }
    t := ReplaceChunks(store, id, produced.value, insertFailure);
  }

  /** The `catch` block, against the store. */
  method Recover(store: DocumentStore, id: DocumentId, t: Fallible<bool, Thrown>) returns (r: Completion)
    requires store.Valid()
    modifies store
    ensures store.Valid()
    ensures (Tables(store.documents, store.chunks), r) == Catch(Tables(old(store.documents), old(store.chunks)), id, t)
  {
    if t.Success? {
      return Returned(t.value);
    }
    var marked := store.MarkDocumentFailed(id, ErrorMessage(t.error));
    if marked.Fail? {
      return Raised(ErrorObject(marked.error));
    }
    return Raised(t.error);
  }

  /** `processDocument(documentId)` against the store, with the lock's answer, the file
      read and the chunk insert's error as parameters. */
  method ProcessDocument(store: DocumentStore, id: DocumentId, lockGranted: bool,
                         read: Fallible<FileContent, Thrown>, insertFailure: Option<string>, split: Splitter)
    returns (r: Completion)
    requires store.Valid()
    modifies store
    ensures store.Valid()
    ensures id !in old(store.documents) ==>
      r == Returned(false) && store.documents == old(store.documents) && store.chunks == old(store.chunks)
    ensures id in old(store.documents) ==>
      (Tables(store.documents, store.chunks), r) ==
        Process(Tables(old(store.documents), old(store.chunks)), old(store.nextChunkId), id, lockGranted,
                Pipeline(old(store.documents)[id], read, split), insertFailure)
  {
    var document := store.AcquireProcessingLock(id, lockGranted);
    if document.None? {
      return Returned(false);
    }
    var doc := document.value;
    if MissingPath(doc) {
      var marked := store.MarkDocumentFailed(id, MissingPathReason);
      if marked.Fail? {
        return Raised(ErrorObject(marked.error));
      }
      return Raised(ErrorObject(NoPathError));
    }
    var produced := Produce(doc, read, split);
    r := TryCatch(store, id, produced, insertFailure);
  }

  /** The `try` block and its `catch`, for a locked document with a storage path. */
  method TryCatch(store: DocumentStore, id: DocumentId, produced: Fallible<seq<Chunk>, Thrown>, insertFailure: Option<string>)
    returns (r: Completion)
    requires store.Valid()
    modifies store
    ensures store.Valid()
    ensures var (after, outcome) := TryBlock(Tables(old(store.documents), old(store.chunks)), old(store.nextChunkId), id, produced, insertFailure);
      (Tables(store.documents, store.chunks), r) == Catch(after, id, outcome)
  {
    var t := Attempt(store, id, produced, insertFailure);
    r := Recover(store, id, t);
  }

  /** A valid store keeps well-formed tables, and the document the lock returns is stored
      under its own id, so the chunks made from it are chunks of `id`. */
  lemma StoreWellFormed(store: DocumentStore, id: DocumentId)
    requires store.Valid()
    ensures WellFormed(Tables(store.documents, store.chunks), store.nextChunkId)
    ensures id in store.documents ==> store.documents[id].id == id
  {
  }
}
