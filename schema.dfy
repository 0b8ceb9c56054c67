/** The database rows the ingestion path reads and writes (`documents` and
    `document_chunks`). */
module Schema {
  import opened Wrappers

  /** A clock value (`created_at`, `deleted_at`, ...). Only its order is observed. */
  type Timestamp = nat

  /** The database-generated identifier of a `documents` row. */
  type DocumentId = nat

  /** The key under which a `document_chunks` row is stored. */
  type ChunkId = nat

  datatype FileType = Pdf | Csv

  datatype Status = Uploading | Processing | Ready | Failed

  datatype Document = Document(
    id: DocumentId,
    conversationId: string,
    filename: string,
    fileType: FileType,
    status: Status,
    storagePath: Option<string>,
    processingStartedAt: Option<Timestamp>,
    processingAttempts: nat,
    errorReason: Option<string>,
    deletedAt: Option<Timestamp>,
    createdAt: Timestamp)

  /** Where a chunk came from: a page number for PDF chunks, a row index for CSV chunks. */
  datatype ChunkMetadata = ChunkMetadata(pageNumber: Option<nat>, rowIndex: Option<nat>)

  /** A `document_chunks` row without its random identifier and creation time. */
  datatype Chunk = Chunk(
    documentId: DocumentId,
    conversationId: string,
    chunkIndex: nat,
    content: string,
    embedding: Option<seq<real>>,
    metadata: Option<ChunkMetadata>)
}
