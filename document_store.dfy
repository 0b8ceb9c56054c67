/** The `documents` and `document_chunks` tables and the queries over them. Every status
    update is a compare-and-set: it applies only when the row is in the expected state,
    and otherwise reports "not in expected state" and changes nothing. */
module DocumentQueries {
  import opened Wrappers
  import opened Schema

  // ---------------------------------------------------------------- status transitions

  /** The guarded single-row updates of a `documents` row. */
  datatype StatusOp =
    | AfterUpload(storagePath: string)
    | MarkFailed(reason: string)
    | MarkReady
    | SoftDelete(at: Timestamp)

  /** What a guarded update makes of a document: `None` when its guard rejects it. */
  function Apply(d: Document, op: StatusOp): Option<Document> {
    match op
    case AfterUpload(path) =>
      if d.status == Uploading then Some(d.(status := Processing, storagePath := Some(path))) else None
    case MarkFailed(reason) =>
      if d.status == Uploading || d.status == Processing then Some(d.(status := Failed, errorReason := Some(reason)))
      else None
    case MarkReady =>
      if d.status == Processing then Some(d.(status := Ready)) else None
    case SoftDelete(at) =>
      if d.deletedAt.None? then Some(d.(deletedAt := Some(at))) else None
  }

  /** The message an update reports when its guard rejects the row. */
  function GuardMessage(op: StatusOp): string {
    match op
    case AfterUpload(_) => "Document not in expected state (uploading)"
    case MarkFailed(_) => "Document not in expected state (uploading or processing)"
    case MarkReady => "Document not in expected state (processing)"
    case SoftDelete(_) => "Document not found or already deleted"
  }

  /** The documents table after a guarded update of row `id`, or `None` when the row is
      missing or its guard rejects the update. */
  function Updated(documents: map<DocumentId, Document>, id: DocumentId, op: StatusOp): Option<map<DocumentId, Document>> {
    if id in documents && Apply(documents[id], op).Some? then Some(documents[id := Apply(documents[id], op).value])
    else None
  }

  /** How far along its life a status is: uploading, then processing, then done. */
  function Stage(s: Status): nat {
    match s
    case Uploading => 0
    case Processing => 1
    case Ready => 2
    case Failed => 2
  }

  /** A sequence of updates applied one after another; a rejected update leaves the
      document as it was. */
  function Run(d: Document, ops: seq<StatusOp>): Document
    decreases |ops|
  {
    if ops == [] then d
    else
      var next := Apply(d, ops[0]);
      Run(if next.Some? then next.value else d, ops[1..])
  }

  /** No update moves a document back to an earlier stage, and none leaves `ready` or
      `failed`; only the soft delete applies to a finished document, and it keeps its
      status. */
  lemma ApplyStage(d: Document, op: StatusOp)
    ensures Apply(d, op).Some? ==> Stage(d.status) <= Stage(Apply(d, op).value.status)
    ensures Apply(d, op).Some? && Stage(d.status) == 2 ==> op.SoftDelete? && Apply(d, op).value.status == d.status
  {
  }

  /** Over any sequence of updates the stage never goes down, and a `ready` or `failed`
      document keeps its status for good. */
  lemma {:induction false} RunStage(d: Document, ops: seq<StatusOp>)
    ensures Stage(d.status) <= Stage(Run(d, ops).status)
    ensures Stage(d.status) == 2 ==> Run(d, ops).status == d.status
    decreases |ops|
  {
    if ops != [] {
      ApplyStage(d, ops[0]);
      var next := Apply(d, ops[0]);
      RunStage(if next.Some? then next.value else d, ops[1..]);
    }
  }

  /** A document still uploading has no storage path yet; one being processed, or ready,
      has one. */
  predicate HasPathWhenStarted(d: Document) {
    && (d.status == Uploading ==> d.storagePath.None?)
    && ((d.status == Processing || d.status == Ready) ==> d.storagePath.Some?)
  }

  /** Every update keeps the storage-path invariant. */
  lemma ApplyKeepsPath(d: Document, op: StatusOp)
    requires HasPathWhenStarted(d)
    ensures Apply(d, op).Some? ==> HasPathWhenStarted(Apply(d, op).value)
  {
  }

  /** A soft delete succeeds once and is rejected afterwards, and it touches nothing but
      `deleted_at`. */
  lemma SoftDeleteOnce(d: Document, at: Timestamp, again: Timestamp)
    requires d.deletedAt.None?
    ensures Apply(d, SoftDelete(at)) == Some(d.(deletedAt := Some(at)))
    ensures Apply(Apply(d, SoftDelete(at)).value, SoftDelete(again)) == None
  {
  }

  // ---------------------------------------------------------------- the store

  class DocumentStore {
    var documents: map<DocumentId, Document>
    var chunks: map<ChunkId, Chunk>
    /** The identifier the next inserted document gets. */
    var nextDocumentId: DocumentId
    /** The key the next inserted chunk gets. */
    var nextChunkId: ChunkId

    ghost predicate Valid()
      reads this
    {
      && (forall id :: id in documents ==> id < nextDocumentId && documents[id].id == id)
      && (forall id :: id in documents ==> HasPathWhenStarted(documents[id]))
      && (forall c :: c in chunks ==> c < nextChunkId)
    }

    constructor()
      ensures Valid()
      ensures documents == map[] && chunks == map[]
    {
      documents := map[];
      chunks := map[];
      nextDocumentId := 0;
      nextChunkId := 0;
    }

    /** `insertDocument`: a new `uploading` row with the given conversation, name and type. */
    method InsertDocument(conversationId: string, filename: string, fileType: FileType, now: Timestamp)
      returns (id: DocumentId)
      requires Valid()
      modifies this
      ensures Valid()
      ensures id !in old(documents)
      ensures documents == old(documents)[id := Document(id, conversationId, filename, fileType, Uploading,
                                                         None, None, 0, None, None, now)]
      ensures chunks == old(chunks)
    {
      id := nextDocumentId;
      documents := documents[id := Document(id, conversationId, filename, fileType, Uploading, None, None, 0, None, None, now)];
      nextDocumentId := nextDocumentId + 1;
    }

    /** One guarded update of row `id`: applied when the row exists and its guard accepts
        it, otherwise the guard's message and no change. */
    method Update(id: DocumentId, op: StatusOp) returns (r: Outcome)
      requires Valid()
      modifies this
      ensures Valid()
      ensures r.Pass? <==> id in old(documents) && Apply(old(documents)[id], op).Some?
      ensures r.Pass? ==> documents == old(documents)[id := Apply(old(documents)[id], op).value]
      ensures r.Fail? ==> r.error == GuardMessage(op) && documents == old(documents)
      ensures chunks == old(chunks) && nextDocumentId == old(nextDocumentId) && nextChunkId == old(nextChunkId)
    {
      if id in documents && Apply(documents[id], op).Some? {
        ApplyKeepsPath(documents[id], op);
        documents := documents[id := Apply(documents[id], op).value];
        r := Pass;
      } else {
        r := Fail(GuardMessage(op));
      }
    }

    /** `updateDocumentAfterUpload`: `uploading` becomes `processing` with its storage path. */
    method UpdateDocumentAfterUpload(id: DocumentId, storagePath: string) returns (r: Outcome)
      requires Valid()
      modifies this
      ensures Valid()
      ensures r.Pass? <==> id in old(documents) && old(documents)[id].status == Uploading
      ensures r.Pass? ==> documents == old(documents)[id := old(documents)[id].(status := Processing, storagePath := Some(storagePath))]
      ensures r.Fail? ==> r == Fail("Document not in expected state (uploading)") && documents == old(documents)
      ensures chunks == old(chunks) && nextDocumentId == old(nextDocumentId) && nextChunkId == old(nextChunkId)
    {
      r := Update(id, AfterUpload(storagePath));
    }

    /** `markDocumentFailed`: `uploading` or `processing` becomes `failed` with the reason. */
    method MarkDocumentFailed(id: DocumentId, reason: string) returns (r: Outcome)
      requires Valid()
      modifies this
      ensures Valid()
      ensures r.Pass? <==> id in old(documents) && old(documents)[id].status in {Uploading, Processing}
      ensures r.Pass? ==> documents == old(documents)[id := old(documents)[id].(status := Failed, errorReason := Some(reason))]
      ensures r.Fail? ==> r == Fail("Document not in expected state (uploading or processing)") && documents == old(documents)
      ensures r.Pass? <==> Updated(old(documents), id, MarkFailed(reason)).Some?
      ensures r.Pass? ==> documents == Updated(old(documents), id, MarkFailed(reason)).value
      ensures chunks == old(chunks) && nextDocumentId == old(nextDocumentId) && nextChunkId == old(nextChunkId)
    {
      r := Update(id, MarkFailed(reason));
    }

    /** `markDocumentReady`: `processing` becomes `ready`. */
    method MarkDocumentReady(id: DocumentId) returns (r: Outcome)
      requires Valid()
      modifies this
      ensures Valid()
      ensures r.Pass? <==> id in old(documents) && old(documents)[id].status == Processing
      ensures r.Pass? ==> documents == old(documents)[id := old(documents)[id].(status := Ready)]
      ensures r.Fail? ==> r == Fail("Document not in expected state (processing)") && documents == old(documents)
      ensures r.Pass? <==> Updated(old(documents), id, MarkReady).Some?
      ensures r.Pass? ==> documents == Updated(old(documents), id, MarkReady).value
      ensures chunks == old(chunks) && nextDocumentId == old(nextDocumentId) && nextChunkId == old(nextChunkId)
    {
      r := Update(id, MarkReady);
    }

    /** `softDeleteDocument`: sets `deleted_at` when it is unset; the status is untouched. */
    method SoftDeleteDocument(id: DocumentId, now: Timestamp) returns (r: Outcome)
      requires Valid()
      modifies this
      ensures Valid()
      ensures r.Pass? <==> id in old(documents) && old(documents)[id].deletedAt.None?
      ensures r.Pass? ==> documents == old(documents)[id := old(documents)[id].(deletedAt := Some(now))]
      ensures r.Fail? ==> r == Fail("Document not found or already deleted") && documents == old(documents)
      ensures chunks == old(chunks) && nextDocumentId == old(nextDocumentId) && nextChunkId == old(nextChunkId)
    {
      r := Update(id, SoftDelete(now));
    }

    /** `acquireProcessingLock`: the current row when the lock is `granted`, `None` when it
        is refused or the row does not exist. */
    method AcquireProcessingLock(id: DocumentId, granted: bool) returns (d: Option<Document>)
      ensures d.Some? <==> granted && id in documents
      ensures d.Some? ==> d.value == documents[id]
    {
      if granted && id in documents {
        d := Some(documents[id]);
      } else {
        d := None;
      }
    }

    /** `deleteDocumentChunks`: removes exactly the chunks of document `id`. */
    method DeleteDocumentChunks(id: DocumentId)
      requires Valid()
      modifies this
      ensures Valid()
      ensures chunks == WithoutDocument(old(chunks), id)
      ensures forall c :: c in chunks <==> c in old(chunks) && old(chunks)[c].documentId != id
      ensures forall c :: c in chunks ==> chunks[c] == old(chunks)[c]
      ensures documents == old(documents) && nextChunkId == old(nextChunkId)
    {
      chunks := WithoutDocument(chunks, id);
    }

    /** The chunk insert of `processDocument`: the whole batch is stored under fresh keys,
        or, when the database reports `failure`, nothing is. */
    method InsertChunks(batch: seq<Chunk>, failure: Option<string>) returns (r: Outcome)
      requires Valid()
      modifies this
      ensures Valid()
      ensures r.Fail? <==> failure.Some?
      ensures r.Fail? ==> r.error == failure.value && chunks == old(chunks)
      ensures r.Pass? ==>
        && (forall c :: c in chunks <==> c in old(chunks) || old(nextChunkId) <= c < old(nextChunkId) + |batch|)
        && (forall c :: c in old(chunks) ==> chunks[c] == old(chunks)[c])
        && (forall i :: 0 <= i < |batch| ==> chunks[old(nextChunkId) + i] == batch[i])
      ensures r.Pass? ==> chunks == old(chunks) + Placed(batch, old(nextChunkId))
      ensures documents == old(documents)
    {
      if failure.Some? {
        r := Fail(failure.value);
      } else {
        var start := nextChunkId;
        PlacedSpec(batch, start);
        chunks := chunks + Placed(batch, start);
        nextChunkId := start + |batch|;
        r := Pass;
      }
    }

    /** `updateChunkEmbedding`: sets the embedding of one chunk and nothing else; a missing
        chunk is no row to update. */
    method UpdateChunkEmbedding(chunkId: ChunkId, embedding: seq<real>)
      requires Valid()
      modifies this
      ensures Valid()
      ensures chunkId in old(chunks) ==> chunks == old(chunks)[chunkId := old(chunks)[chunkId].(embedding := Some(embedding))]
      ensures chunkId !in old(chunks) ==> chunks == old(chunks)
      ensures documents == old(documents) && nextChunkId == old(nextChunkId)
    {
      if chunkId in chunks {
        chunks := chunks[chunkId := chunks[chunkId].(embedding := Some(embedding))];
      }
    }

    /** The chunks of document `id`. */
    function ChunksOf(id: DocumentId): set<ChunkId>
      reads this
    {
      set c | c in chunks && chunks[c].documentId == id
    }

    /** `selectDocumentById`: the row, unless it is missing or soft-deleted. */
    function SelectDocumentById(id: DocumentId): (r: Option<Document>)
      reads this
      ensures r.Some? <==> id in documents && documents[id].deletedAt.None?
      ensures r.Some? ==> r.value == documents[id]
    {
      if id in documents && documents[id].deletedAt.None? then Some(documents[id]) else None
    }

    /** The rows `selectDocumentsByConversation` lists. */
    ghost predicate Listed(d: Document, conversationId: string)
      reads this
    {
      d.id in documents && documents[d.id] == d && d.conversationId == conversationId && d.deletedAt.None?
    }

    /** `selectDocumentsByConversation`: the conversation's live rows, newest first. */
    method SelectDocumentsByConversation(conversationId: string) returns (docs: seq<Document>)
      requires Valid()
      ensures forall d :: d in docs <==> Listed(d, conversationId)
      ensures NewestFirst(docs)
      ensures DistinctIds(docs)
    {
      docs := [];
      var remaining := documents.Keys;
      while remaining != {}
        invariant remaining <= documents.Keys
        invariant forall d :: d in docs <==> Listed(d, conversationId) && d.id !in remaining
        invariant NewestFirst(docs)
        invariant DistinctIds(docs)
        decreases remaining
      {
        var id :| id in remaining;
        var d := documents[id];
        if d.conversationId == conversationId && d.deletedAt.None? {
          InsertNewestFirstSpec(d, docs);
          InsertDistinct(d, docs);
          docs := InsertNewestFirst(d, docs);
        }
        remaining := remaining - {id};
      }
    }
  }

  /** The chunk table without the chunks of document `id`. */
  function WithoutDocument(chunks: map<ChunkId, Chunk>, id: DocumentId): (r: map<ChunkId, Chunk>)
    ensures forall c :: c in r <==> c in chunks && chunks[c].documentId != id
    ensures forall c :: c in r ==> r[c] == chunks[c]
  {
    map c | c in chunks && chunks[c].documentId != id :: chunks[c]
  }

  /** `batch` laid out under consecutive keys from `start`. */
  function Placed(batch: seq<Chunk>, start: ChunkId): map<ChunkId, Chunk>
    decreases |batch|
  {
    if batch == [] then map[]
    else Placed(batch[..|batch| - 1], start)[start + |batch| - 1 := batch[|batch| - 1]]
  }

  lemma {:induction false} PlacedSpec(batch: seq<Chunk>, start: ChunkId)
    ensures forall c :: c in Placed(batch, start) <==> start <= c < start + |batch|
    ensures forall i :: 0 <= i < |batch| ==> Placed(batch, start)[start + i] == batch[i]
    decreases |batch|
  {
    if batch != [] {
      PlacedSpec(batch[..|batch| - 1], start);
    }
  }

  // ---------------------------------------------------------------- ordering

  predicate DistinctIds(docs: seq<Document>) {
    forall i, j :: 0 <= i < j < |docs| ==> docs[i].id != docs[j].id
  }

  /** `created_at` never increases along `docs`. */
  predicate NewestFirst(docs: seq<Document>) {
    forall i, j :: 0 <= i < j < |docs| ==> docs[i].createdAt >= docs[j].createdAt
  }

  /** `d` placed before the first entry of `docs` that is not newer than it. */
  function InsertNewestFirst(d: Document, docs: seq<Document>): seq<Document>
    decreases |docs|
  {
    if docs == [] || docs[0].createdAt <= d.createdAt then [d] + docs
    else [docs[0]] + InsertNewestFirst(d, docs[1..])
  }

  /** Insertion adds exactly `d`, one position further along for every earlier entry. */
  lemma {:induction false} InsertNewestFirstShape(d: Document, docs: seq<Document>) returns (p: nat)
    ensures p <= |docs| && InsertNewestFirst(d, docs) == docs[..p] + [d] + docs[p..]
    ensures forall i :: 0 <= i < p ==> docs[i].createdAt > d.createdAt
    ensures p < |docs| ==> docs[p].createdAt <= d.createdAt
    decreases |docs|
  {
    if docs == [] || docs[0].createdAt <= d.createdAt {
      p := 0;
    } else {
      var q := InsertNewestFirstShape(d, docs[1..]);
      p := q + 1;
      assert docs[..p] == [docs[0]] + docs[1..][..q];
      assert docs[p..] == docs[1..][q..];
    }
  }

  /** Inserting a document whose id is not yet listed keeps the ids distinct. */
  lemma InsertDistinct(d: Document, docs: seq<Document>)
    requires DistinctIds(docs) && forall x :: x in docs ==> x.id != d.id
    ensures DistinctIds(InsertNewestFirst(d, docs))
  {
    var p := InsertNewestFirstShape(d, docs);
    var r := InsertNewestFirst(d, docs);
    forall i, j | 0 <= i < j < |r| ensures r[i].id != r[j].id {
      var a := if i < p then i else if i == p then -1 else i - 1;
      var b := if j < p then j else if j == p then -1 else j - 1;
      if a >= 0 { assert r[i] == docs[a]; } else { assert r[i] == d; }
      if b >= 0 { assert r[j] == docs[b]; } else { assert r[j] == d; }
    }
  }

  /** Insertion keeps the order and adds exactly `d`. */
  lemma InsertNewestFirstSpec(d: Document, docs: seq<Document>)
    requires NewestFirst(docs)
    ensures NewestFirst(InsertNewestFirst(d, docs))
    ensures forall x :: x in InsertNewestFirst(d, docs) <==> x == d || x in docs
  {
    var p := InsertNewestFirstShape(d, docs);
    var r := InsertNewestFirst(d, docs);
    forall i, j | 0 <= i < j < |r| ensures r[i].createdAt >= r[j].createdAt {
      if j < p {
        assert r[i] == docs[i] && r[j] == docs[j];
      } else if j == p {
        assert r[i] == docs[i] && r[j] == d;
      } else if i < p {
        assert r[i] == docs[i] && r[j] == docs[j - 1];
      } else if i == p {
        assert r[i] == d && r[j] == docs[j - 1];
        assert docs[p].createdAt >= docs[j - 1].createdAt;
      } else {
        assert r[i] == docs[i - 1] && r[j] == docs[j - 1];
      }
    }
    assert docs == docs[..p] + docs[p..];
  }
}
