/** The chunkers: one chunk per kept sentence of a parsed PDF, one chunk per row of a
    parsed CSV. Chunk identifiers and creation times are assigned by the store. */
module Chunking {
  import opened Wrappers
  import opened Text
  import opened Schema
  import opened CsvIngestion
  import opened PdfIngestion

  /** The node types sentence-splitter reports; only `Sentence` nodes become chunks. */
  datatype SegmentType = SentenceNode | OtherNode(name: string)

  /** A node of sentence-splitter's output, with its raw text. */
  datatype Segment = Segment(kind: SegmentType, raw: string)

  /** sentence-splitter's `split`, taken as given. */
  type Splitter = string -> seq<Segment>

  /** The sentences `chunkPDF` keeps from a page's segments: `Sentence` nodes only,
      trimmed, empty ones dropped, in splitter order. */
  function KeptSentences(segments: seq<Segment>): seq<string>
    decreases |segments|
  {
    if segments == [] then []
    else
      var s := Trim(segments[0].raw);
      (if segments[0].kind == SentenceNode && |s| > 0 then [s] else []) + KeptSentences(segments[1..])
  }

  /** A text is kept exactly when it is the non-empty trimmed raw text of some `Sentence`
      node; every kept text is trimmed. */
  lemma {:induction false} KeptSentencesMembers(segments: seq<Segment>)
    ensures forall s :: s in KeptSentences(segments) <==>
      s != [] && exists j :: 0 <= j < |segments| && segments[j].kind == SentenceNode && Trim(segments[j].raw) == s
    ensures forall k :: 0 <= k < |KeptSentences(segments)| ==> IsTrimmed(KeptSentences(segments)[k])
    decreases |segments|
  {
    if segments != [] {
      TrimSpec(segments[0].raw);
      KeptSentencesMembers(segments[1..]);
      forall s | s != [] && (exists j :: 0 <= j < |segments| && segments[j].kind == SentenceNode && Trim(segments[j].raw) == s)
        ensures s in KeptSentences(segments)
      {
        var j :| 0 <= j < |segments| && segments[j].kind == SentenceNode && Trim(segments[j].raw) == s;
        if j > 0 {
          assert segments[1..][j - 1] == segments[j];
        }
      }
      forall s | s in KeptSentences(segments[1..])
        ensures exists j :: 0 <= j < |segments| && segments[j].kind == SentenceNode && Trim(segments[j].raw) == s
      {
        var j :| 0 <= j < |segments[1..]| && segments[1..][j].kind == SentenceNode && Trim(segments[1..][j].raw) == s;
        assert segments[j + 1] == segments[1..][j];
      }
    }
  }

  // ---------------------------------------------------------------- PDF

  function PdfMetadata(page: ParsedPage): ChunkMetadata {
    ChunkMetadata(Some(page.pageNumber), None)
  }

  /** The chunk `chunkPDF` pushes for one sentence. */
  function SentenceChunk(documentId: DocumentId, conversationId: string, index: nat, sentence: string, page: ParsedPage): Chunk {
    Chunk(documentId, conversationId, index, sentence, None, Some(PdfMetadata(page)))
  }

  /** The chunks of one page whose first sentence gets index `start`. */
  function PageChunks(documentId: DocumentId, conversationId: string, page: ParsedPage, sentences: seq<string>, start: nat): seq<Chunk> {
    seq(|sentences|, j requires 0 <= j < |sentences| => SentenceChunk(documentId, conversationId, start + j, sentences[j], page))
  }

  /** The sentences of all pages, page after page. */
  function AllSentences(pages: seq<ParsedPage>, split: Splitter): seq<string>
    decreases |pages|
  {
    if pages == [] then []
    else AllSentences(pages[..|pages| - 1], split) + KeptSentences(split(pages[|pages| - 1].text))
  }

  /** The chunks `chunkPDF` returns: those of the earlier pages, then those of the last page,
      numbered on from where the earlier pages stopped. */
  function PdfChunks(documentId: DocumentId, conversationId: string, pages: seq<ParsedPage>, split: Splitter): seq<Chunk>
    decreases |pages|
  {
    if pages == [] then []
    else
      var earlier := PdfChunks(documentId, conversationId, pages[..|pages| - 1], split);
      var last := pages[|pages| - 1];
      earlier + PageChunks(documentId, conversationId, last, KeptSentences(split(last.text)), |earlier|)
  }

  /** Pushing the chunk of sentence `j` extends the page's chunks by one. */
  lemma PageChunksPush(documentId: DocumentId, conversationId: string, page: ParsedPage, sentences: seq<string>, start: nat, j: nat)
    requires j < |sentences|
    ensures PageChunks(documentId, conversationId, page, sentences[..j + 1], start)
         == PageChunks(documentId, conversationId, page, sentences[..j], start)
            + [SentenceChunk(documentId, conversationId, start + j, sentences[j], page)]
  {
  }

  /** The chunks of the first `i + 1` pages are those of the first `i` and then page `i`'s. */
  lemma PdfChunksStep(documentId: DocumentId, conversationId: string, pages: seq<ParsedPage>, split: Splitter, i: nat)
    requires i < |pages|
    ensures var earlier := PdfChunks(documentId, conversationId, pages[..i], split);
      PdfChunks(documentId, conversationId, pages[..i + 1], split)
      == earlier + PageChunks(documentId, conversationId, pages[i], KeptSentences(split(pages[i].text)), |earlier|)
  {
    assert pages[..i + 1][..i] == pages[..i];
  }

  /** `chunkPDF`: nested loops over pages and their kept sentences, pushing one chunk per
      sentence and counting the global chunk index up. */
  method ChunkPdf(parsed: ParsedPdf, documentId: DocumentId, conversationId: string, split: Splitter)
    returns (allChunks: seq<Chunk>)
    ensures allChunks == PdfChunks(documentId, conversationId, parsed.pages, split)
  {
    var pages := parsed.pages;
    allChunks := [];
    var globalChunkIndex: nat := 0;
    for i := 0 to |pages|
      invariant allChunks == PdfChunks(documentId, conversationId, pages[..i], split)
      invariant globalChunkIndex == |allChunks|
    {
      var page := pages[i];
      var sentences := KeptSentences(split(page.text));
      ghost var earlier := allChunks;
      for j := 0 to |sentences|
        invariant allChunks == earlier + PageChunks(documentId, conversationId, page, sentences[..j], |earlier|)
        invariant globalChunkIndex == |allChunks|
      {
        PageChunksPush(documentId, conversationId, page, sentences, |earlier|, j);
        allChunks := allChunks + [SentenceChunk(documentId, conversationId, globalChunkIndex, sentences[j], page)];
        globalChunkIndex := globalChunkIndex + 1;
      }
      assert sentences[..|sentences|] == sentences;
      PdfChunksStep(documentId, conversationId, pages, split, i);
    }
    assert pages[..|pages|] == pages;
  }

  /** Chunks carry the document's identifiers and no embedding yet. */
  predicate Fresh(c: Chunk, documentId: DocumentId, conversationId: string) {
    c.documentId == documentId && c.conversationId == conversationId && c.embedding == None
  }

  /** The PDF chunks are the kept sentences of all pages in order, numbered 0, 1, 2, ...
      across pages, each carrying the document's identifiers and no embedding. */
  lemma {:induction false} PdfChunksContents(documentId: DocumentId, conversationId: string, pages: seq<ParsedPage>, split: Splitter)
    ensures var chunks := PdfChunks(documentId, conversationId, pages, split);
      && |chunks| == |AllSentences(pages, split)|
      && forall k :: 0 <= k < |chunks| ==>
           chunks[k].chunkIndex == k && chunks[k].content == AllSentences(pages, split)[k]
           && Fresh(chunks[k], documentId, conversationId)
    decreases |pages|
  {
    if pages != [] {
      var n := |pages| - 1;
      PdfChunksContents(documentId, conversationId, pages[..n], split);
      var earlier := PdfChunks(documentId, conversationId, pages[..n], split);
      var before := AllSentences(pages[..n], split);
      var sentences := KeptSentences(split(pages[n].text));
      var here := PageChunks(documentId, conversationId, pages[n], sentences, |earlier|);
      var chunks := PdfChunks(documentId, conversationId, pages, split);
      assert chunks == earlier + here;
      assert AllSentences(pages, split) == before + sentences;
      forall k | 0 <= k < |chunks|
        ensures chunks[k].chunkIndex == k && chunks[k].content == AllSentences(pages, split)[k]
        ensures Fresh(chunks[k], documentId, conversationId)
      {
        if k < |earlier| {
          assert chunks[k] == earlier[k];
        } else {
          assert chunks[k] == here[k - |earlier|];
        }
      }
    }
  }

  /** `c` is a chunk of `page`: it carries the page's number and one of its kept sentences. */
  predicate ChunkOfPage(c: Chunk, page: ParsedPage, split: Splitter) {
    c.metadata == Some(PdfMetadata(page)) && c.content in KeptSentences(split(page.text))
  }

  /** `c` is a chunk of one of `pages`. */
  predicate FromSomePage(c: Chunk, pages: seq<ParsedPage>, split: Splitter) {
    exists p :: 0 <= p < |pages| && ChunkOfPage(c, pages[p], split)
  }

  /** Every chunk of `chunks` is a chunk of one of `pages`. */
  predicate FromPages(chunks: seq<Chunk>, pages: seq<ParsedPage>, split: Splitter) {
    forall k :: 0 <= k < |chunks| ==> FromSomePage(chunks[k], pages, split)
  }

  /** Chunks drawn from a prefix of the pages are drawn from the pages. */
  lemma FromPagesPrefix(earlier: seq<Chunk>, pages: seq<ParsedPage>, n: nat, split: Splitter)
    requires n <= |pages| && FromPages(earlier, pages[..n], split)
    ensures FromPages(earlier, pages, split)
  {
    forall k | 0 <= k < |earlier| ensures FromSomePage(earlier[k], pages, split) {
      var p :| 0 <= p < |pages[..n]| && ChunkOfPage(earlier[k], pages[..n][p], split);
      assert pages[..n][p] == pages[p];
      assert 0 <= p < |pages| && ChunkOfPage(earlier[k], pages[p], split);
    }
  }

  /** Every chunk of a page's kept sentences is a chunk of that page. */
  lemma PageChunksOfPage(documentId: DocumentId, conversationId: string, page: ParsedPage, split: Splitter, start: nat)
    ensures var here := PageChunks(documentId, conversationId, page, KeptSentences(split(page.text)), start);
      forall k :: 0 <= k < |here| ==> ChunkOfPage(here[k], page, split)
  {
    var sentences := KeptSentences(split(page.text));
    var here := PageChunks(documentId, conversationId, page, sentences, start);
    forall k | 0 <= k < |here| ensures ChunkOfPage(here[k], page, split) {
      assert here[k].content == sentences[k];
    }
  }

  /** Appending chunks of one of the pages keeps every chunk drawn from the pages. */
  lemma FromPagesAppend(earlier: seq<Chunk>, here: seq<Chunk>, pages: seq<ParsedPage>, n: nat, split: Splitter)
    requires n < |pages| && FromPages(earlier, pages, split)
    requires forall k :: 0 <= k < |here| ==> ChunkOfPage(here[k], pages[n], split)
    ensures FromPages(earlier + here, pages, split)
  {
    var chunks := earlier + here;
    forall k | 0 <= k < |chunks| ensures FromSomePage(chunks[k], pages, split) {
      if k < |earlier| {
        assert chunks[k] == earlier[k];
        var p :| 0 <= p < |pages| && ChunkOfPage(earlier[k], pages[p], split);
        assert 0 <= p < |pages| && ChunkOfPage(chunks[k], pages[p], split);
      } else {
        assert chunks[k] == here[k - |earlier|];
        assert 0 <= n < |pages| && ChunkOfPage(chunks[k], pages[n], split);
      }
    }
  }

  /** Every PDF chunk is a chunk of one of the pages. */
  lemma {:induction false} PdfChunksFromPages(documentId: DocumentId, conversationId: string, pages: seq<ParsedPage>, split: Splitter)
    ensures FromPages(PdfChunks(documentId, conversationId, pages, split), pages, split)
    decreases |pages|
  {
    if pages != [] {
      var n := |pages| - 1;
      PdfChunksFromPages(documentId, conversationId, pages[..n], split);
      var earlier := PdfChunks(documentId, conversationId, pages[..n], split);
      var here := PageChunks(documentId, conversationId, pages[n], KeptSentences(split(pages[n].text)), |earlier|);
      assert PdfChunks(documentId, conversationId, pages, split) == earlier + here;
      FromPagesPrefix(earlier, pages, n, split);
      PageChunksOfPage(documentId, conversationId, pages[n], split, |earlier|);
      FromPagesAppend(earlier, here, pages, n, split);
    }
  }

  /** Each PDF chunk's content is a non-empty, trimmed `Sentence` node text. */
  lemma PdfChunkIsSentence(documentId: DocumentId, conversationId: string, pages: seq<ParsedPage>, split: Splitter, k: nat)
    requires k < |PdfChunks(documentId, conversationId, pages, split)|
    ensures var c := PdfChunks(documentId, conversationId, pages, split)[k].content;
      c != [] && IsTrimmed(c)
  {
    PdfChunksFromPages(documentId, conversationId, pages, split);
    var chunks := PdfChunks(documentId, conversationId, pages, split);
    var p :| 0 <= p < |pages| && ChunkOfPage(chunks[k], pages[p], split);
    var segments := split(pages[p].text);
    KeptSentencesMembers(segments);
    var j :| 0 <= j < |KeptSentences(segments)| && KeptSentences(segments)[j] == chunks[k].content;
  }

  /** The page number a chunk's metadata names (0 when it names none). */
  function PageNumberOf(c: Chunk): nat {
    if c.metadata.Some? && c.metadata.value.pageNumber.Some? then c.metadata.value.pageNumber.value else 0
  }

  /** Chunks drawn from earlier pages name smaller page numbers than page `n`. */
  lemma EarlierPagesBelow(earlier: seq<Chunk>, pages: seq<ParsedPage>, n: nat, split: Splitter)
    requires n < |pages| && IncreasingNumbers(pages) && FromPages(earlier, pages[..n], split)
    ensures forall k :: 0 <= k < |earlier| ==> PageNumberOf(earlier[k]) < pages[n].pageNumber
  {
    forall k | 0 <= k < |earlier| ensures PageNumberOf(earlier[k]) < pages[n].pageNumber {
      var p :| 0 <= p < |pages[..n]| && ChunkOfPage(earlier[k], pages[..n][p], split);
      assert pages[..n][p] == pages[p];
    }
  }

  /** Page numbers never decrease along `chunks`. */
  predicate PageOrdered(chunks: seq<Chunk>) {
    forall k, l :: 0 <= k < l < |chunks| ==> PageNumberOf(chunks[k]) <= PageNumberOf(chunks[l])
  }

  lemma AppendPageOrdered(earlier: seq<Chunk>, here: seq<Chunk>, number: nat)
    requires PageOrdered(earlier)
    requires forall k :: 0 <= k < |earlier| ==> PageNumberOf(earlier[k]) < number
    requires forall k :: 0 <= k < |here| ==> PageNumberOf(here[k]) == number
    ensures PageOrdered(earlier + here)
  {
    var chunks := earlier + here;
    forall k, l | 0 <= k < l < |chunks| ensures PageNumberOf(chunks[k]) <= PageNumberOf(chunks[l]) {
      if l >= |earlier| {
        assert chunks[l] == here[l - |earlier|];
      }
    }
  }

  /** When page numbers increase along the pages, chunk page numbers never decrease along
      the chunks. */
  lemma {:induction false} PdfChunksPageOrder(documentId: DocumentId, conversationId: string, pages: seq<ParsedPage>, split: Splitter)
    requires IncreasingNumbers(pages)
    ensures PageOrdered(PdfChunks(documentId, conversationId, pages, split))
    decreases |pages|
  {
    if pages != [] {
      var n := |pages| - 1;
      var earlier := PdfChunks(documentId, conversationId, pages[..n], split);
      var sentences := KeptSentences(split(pages[n].text));
      var here := PageChunks(documentId, conversationId, pages[n], sentences, |earlier|);
      assert IncreasingNumbers(pages[..n]);
      PdfChunksPageOrder(documentId, conversationId, pages[..n], split);
      PdfChunksFromPages(documentId, conversationId, pages[..n], split);
      EarlierPagesBelow(earlier, pages, n, split);
      AppendPageOrdered(earlier, here, pages[n].pageNumber);
    }
  }

  // ---------------------------------------------------------------- CSV

  /** `chunkCSV`: row `i` becomes chunk `i`, with the row's text and row index. */
  function ChunkCsv(parsed: ParsedCsv, documentId: DocumentId, conversationId: string): seq<Chunk> {
    seq(|parsed.rows|, i requires 0 <= i < |parsed.rows| =>
      Chunk(documentId, conversationId, i, parsed.rows[i].serializedText, None,
            Some(ChunkMetadata(None, Some(parsed.rows[i].rowIndex)))))
  }

  /** Chunking rows numbered 1, 2, ... gives chunk `i` the text of row `i` and row index `i + 1`. */
  lemma ChunkCsvRows(value: ParsedCsv, texts: seq<string>, documentId: DocumentId, conversationId: string)
    requires |value.rows| == |texts|
    requires forall i :: 0 <= i < |value.rows| ==>
               value.rows[i].rowIndex == i + 1 && value.rows[i].serializedText == texts[i]
    ensures var chunks := ChunkCsv(value, documentId, conversationId);
      && |chunks| == |texts|
      && forall i :: 0 <= i < |chunks| ==>
           && chunks[i].chunkIndex == i
           && chunks[i].metadata == Some(ChunkMetadata(None, Some(i + 1)))
           && chunks[i].content == texts[i]
           && Fresh(chunks[i], documentId, conversationId)
  {
  }

  /** Parsing a CSV and chunking it gives one chunk per record, in record order: chunk `i`
      has index `i`, row index `i + 1`, the serialized record as content, and the
      document's identifiers. */
  lemma ParsedCsvChunks(parsed: CsvParserOutcome, entityName: string, documentId: DocumentId, conversationId: string)
    requires ParseCsv(parsed, entityName).Ok?
    ensures var chunks := ChunkCsv(ParseCsv(parsed, entityName).value, documentId, conversationId);
      && |chunks| == |parsed.records|
      && forall i :: 0 <= i < |chunks| ==>
           && chunks[i].chunkIndex == i
           && chunks[i].metadata == Some(ChunkMetadata(None, Some(i + 1)))
           && chunks[i].content == SerializeRow(parsed.records[i], Headers(parsed.records[0]), entityName)
           && Fresh(chunks[i], documentId, conversationId)
  {
    var records := parsed.records;
    var headers := Headers(records[0]);
    var texts := seq(|records|, i requires 0 <= i < |records| => SerializeRow(records[i], headers, entityName));
    ChunkCsvRows(ParseCsv(parsed, entityName).value, texts, documentId, conversationId);
  }
}
