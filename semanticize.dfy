/** `semanticizeText`: rewrites a chunk's raw text into plain sentences through a language
    model, behind an in-memory cache and the persistent `semantic_cache` table, with one
    retry and a fallback to the raw text for PDFs. */
module Semanticize {
  import opened Wrappers
  import opened Text
  import opened Schema
  import opened SemanticCache
  import opened MetadataJson

  const MaxContentLength: nat := 8000
  const SemanticizeTimeoutMs: nat := 15000
  const MaxRetries: nat := 1

  const EmptyOutputMessage: string := "Semantic enrichment failed: empty output from LLM"
  const CsvEmptyOutputMessage: string := EmptyOutputMessage + " (CSV requires semanticization)"
  const CsvFailedPrefix: string := "Semantic enrichment failed for CSV: "
  const AfterRetriesMessage: string := "Semantic enrichment failed after retries"

  function TooLargeMessage(length: nat): string {
    "Content too large for semanticization: " + NatToString(length) + " characters (max " + NatToString(MaxContentLength) + ")"
  }

  function TimeoutMessage(): string {
    "Semantic enrichment timeout after " + NatToString(SemanticizeTimeoutMs) + "ms"
  }

  // ---------------------------------------------------------------- the cache key

  /** `hashContent`: the digest of the content followed by the JSON of the metadata, an
      absent record counting as `{}`. The document type takes no part. */
  function CacheKey(content: string, metadata: Option<Metadata>, digest: string -> string): string {
    digest(content + Stringify(if metadata.Some? then metadata.value else []))
  }

  /** Records that are the same JavaScript object give the same key however their keys
      were assigned: an index key is written first whatever its place in the record. */
  lemma CacheKeyIndexKeyFirst(content: string, digest: string -> string)
    ensures CacheKey(content, Some([("b", MetaNumber(1)), ("0", MetaNumber(2))]), digest)
         == CacheKey(content, Some([("0", MetaNumber(2)), ("b", MetaNumber(1))]), digest)
         == digest(content + ("{" + Member("0", "2") + "," + Member("b", "1") + "}"))
  {
    StringifyIndexKeyFirst();
    StringifyInOrder();
  }

  /** A key assigned twice is written once, with its last value, so the record gives the
      key of the record holding only that value. */
  lemma CacheKeyLastValueWins(content: string, digest: string -> string)
    ensures CacheKey(content, Some([("a", MetaNumber(1)), ("a", MetaNumber(2))]), digest)
         == CacheKey(content, Some([("a", MetaNumber(2))]), digest)
  {
    StringifyLastValueWins();
    StringifySingle();
  }

  /** Absent metadata and an empty record give the same key, the one of `content + "{}"`. */
  lemma CacheKeyAbsentMetadata(content: string, digest: string -> string)
    ensures CacheKey(content, None, digest) == CacheKey(content, Some([]), digest) == digest(content + "{}")
  {
    assert RenderEntries([]) == [];
    assert Stringify([]) == "{" + "" + "}" == "{}";
  }

  // ---------------------------------------------------------------- the model calls

  /** What one model call gives: the reply's message text (absent when the reply has no
      choice or no content), a timeout, or another thrown value. */
  datatype Reply = Answer(content: Option<string>) | TimedOut | Threw(error: Thrown)

  /** The trimmed text of an answer; empty when it has none. */
  function AnswerText(content: Option<string>): string {
    if content.Some? then Trim(content.value) else ""
  }

  /** The in-memory cache and the persistent table. */
  datatype Caches = Caches(memory: map<string, string>, rows: map<string, string>)

  /** An invocation's effect: the caches it leaves, its result, and how many model calls
      it made. */
  datatype Run = Run(caches: Caches, result: Fallible<string, Thrown>, calls: nat)

  /** The last-attempt fallback: a PDF keeps its raw text, a CSV throws `csvError`. */
  function Fallback(documentType: FileType, content: string, csvError: Thrown): Fallible<string, Thrown> {
    if documentType == Pdf then Success(content) else Failure(csvError)
  }

  /** The `catch` branch for a thrown value that is not a timeout, including the errors
      thrown inside the `try` block itself: before the last attempt it is re-thrown; on the
      last attempt an `Error` falls back by document type. */
  function Caught(error: Thrown, attempt: nat, documentType: FileType, content: string): Fallible<string, Thrown> {
    if attempt >= MaxRetries && error.ErrorObject? then
      Fallback(documentType, content, ErrorObject(CsvFailedPrefix + error.message))
    else Failure(error)
  }

  /** The retry loop from `attempt` on, with `lastError` the error kept so far. */
  function Loop(attempt: nat, lastError: Option<Thrown>, caches: Caches, key: string, content: string,
                documentType: FileType, setFault: Option<string>, reply: nat -> Reply): Run
    decreases MaxRetries + 1 - attempt
  {
    if attempt > MaxRetries then
      Run(caches, Failure(if lastError.Some? then lastError.value else ErrorObject(AfterRetriesMessage)), 0)
    else
      match reply(attempt)
      case TimedOut =>
        var rest := Loop(attempt + 1, Some(ErrorObject(TimeoutMessage())), caches, key, content, documentType, setFault, reply);
        rest.(calls := rest.calls + 1)
      case Threw(error) =>
        Run(caches, Caught(error, attempt, documentType, content), 1)
      case Answer(raw) =>
        var text := AnswerText(raw);
        if text == "" then
          if attempt < MaxRetries then
            var rest := Loop(attempt + 1, Some(ErrorObject(EmptyOutputMessage)), caches, key, content, documentType, setFault, reply);
            rest.(calls := rest.calls + 1)
          else Run(caches, Caught(ErrorObject(CsvEmptyOutputMessage), attempt, documentType, content), 1)
        else
          var memory := caches.memory[key := text];
          if setFault.Some? then
            Run(Caches(memory, caches.rows), Caught(ErrorObject(SetFailedPrefix + setFault.value), attempt, documentType, content), 1)
          else Run(Caches(memory, PutIfAbsent(caches.rows, key, text)), Success(text), 1)
  }

  /** Whether an invocation gets past the size check and both caches to the model. */
  predicate ReachesModel(caches: Caches, content: string, metadata: Option<Metadata>, digest: string -> string,
                         getFault: Option<string>) {
    var key := CacheKey(content, metadata, digest);
    && Utf16Length(content) <= MaxContentLength
    && !(key in caches.memory && caches.memory[key] != "")
    && getFault.None?
    && Lookup(caches.rows, key).None?
  }

  /** `semanticizeText`: the size check, the in-memory cache, the table, then the model. */
  function Semanticize(caches: Caches, content: string, documentType: FileType, metadata: Option<Metadata>,
                       digest: string -> string, getFault: Option<string>, setFault: Option<string>,
                       reply: nat -> Reply): Run
  {
    if Utf16Length(content) > MaxContentLength then Run(caches, Failure(ErrorObject(TooLargeMessage(Utf16Length(content)))), 0)
    else
      var key := CacheKey(content, metadata, digest);
      if key in caches.memory && caches.memory[key] != "" then Run(caches, Success(caches.memory[key]), 0)
      else if getFault.Some? then Run(caches, Failure(ErrorObject(GetFailedPrefix + getFault.value)), 0)
      else
        match Lookup(caches.rows, key)
        case Some(text) => Run(caches.(memory := caches.memory[key := text]), Success(text), 0)
        case None => Loop(0, None, caches, key, content, documentType, setFault, reply)
  }

  // ---------------------------------------------------------------- properties

  /** The loop makes at most one model call per remaining attempt. */
  lemma {:induction false} LoopCalls(attempt: nat, lastError: Option<Thrown>, caches: Caches, key: string, content: string,
                                     documentType: FileType, setFault: Option<string>, reply: nat -> Reply)
    ensures Loop(attempt, lastError, caches, key, content, documentType, setFault, reply).calls
            <= if attempt > MaxRetries then 0 else MaxRetries + 1 - attempt
    decreases MaxRetries + 1 - attempt
  {
    if attempt <= MaxRetries {
      LoopCalls(attempt + 1, Some(ErrorObject(TimeoutMessage())), caches, key, content, documentType, setFault, reply);
      LoopCalls(attempt + 1, Some(ErrorObject(EmptyOutputMessage)), caches, key, content, documentType, setFault, reply);
    }
  }

  /** An invocation calls the model at most `MaxRetries + 1` times, and not at all when
      the content is too large, a cache holds the text, or the table read fails. */
  lemma SemanticizeCalls(caches: Caches, content: string, documentType: FileType, metadata: Option<Metadata>,
                         digest: string -> string, getFault: Option<string>, setFault: Option<string>, reply: nat -> Reply)
    ensures var run := Semanticize(caches, content, documentType, metadata, digest, getFault, setFault, reply);
      && run.calls <= MaxRetries + 1
      && (!ReachesModel(caches, content, metadata, digest, getFault) ==> run.calls == 0)
  {
    LoopCalls(0, None, caches, CacheKey(content, metadata, digest), content, documentType, setFault, reply);
  }

  /** Too-large content throws before any cache or model use. */
  lemma SemanticizeTooLarge(caches: Caches, content: string, documentType: FileType, metadata: Option<Metadata>,
                            digest: string -> string, getFault: Option<string>, setFault: Option<string>, reply: nat -> Reply)
    requires Utf16Length(content) > MaxContentLength
    ensures Semanticize(caches, content, documentType, metadata, digest, getFault, setFault, reply)
            == Run(caches, Failure(ErrorObject(TooLargeMessage(Utf16Length(content)))), 0)
  {
  }

  /** A non-empty in-memory entry is returned with nothing else done; a table hit is
      copied into memory and returned without a model call. */
  lemma SemanticizeCacheHits(caches: Caches, content: string, documentType: FileType, metadata: Option<Metadata>,
                             digest: string -> string, getFault: Option<string>, setFault: Option<string>, reply: nat -> Reply)
    requires Utf16Length(content) <= MaxContentLength
    ensures var key := CacheKey(content, metadata, digest);
      var run := Semanticize(caches, content, documentType, metadata, digest, getFault, setFault, reply);
      && (key in caches.memory && caches.memory[key] != "" ==> run == Run(caches, Success(caches.memory[key]), 0))
      && (!(key in caches.memory && caches.memory[key] != "") && getFault.None? && Lookup(caches.rows, key).Some? ==>
            run == Run(Caches(caches.memory[key := caches.rows[key]], caches.rows), Success(caches.rows[key]), 0))
  {
  }

  /** A non-empty answer to the first call is stored in both caches and returned. */
  lemma SemanticizeStoresAnswer(caches: Caches, content: string, documentType: FileType, metadata: Option<Metadata>,
                                digest: string -> string, reply: nat -> Reply)
    requires ReachesModel(caches, content, metadata, digest, None)
    requires reply(0).Answer? && AnswerText(reply(0).content) != ""
    ensures var key := CacheKey(content, metadata, digest);
      var text := AnswerText(reply(0).content);
      Semanticize(caches, content, documentType, metadata, digest, None, None, reply)
        == Run(Caches(caches.memory[key := text], PutIfAbsent(caches.rows, key, text)), Success(text), 1)
  {
  }

  /** Two empty answers: a PDF gets its raw text back; a CSV throws, and since the CSV error
      is raised inside the `try` block, the `catch` re-raises it with the CSV prefix in
      front. Nothing is cached. */
  lemma SemanticizeEmptyAnswers(caches: Caches, content: string, documentType: FileType, metadata: Option<Metadata>,
                                digest: string -> string, setFault: Option<string>, reply: nat -> Reply)
    requires ReachesModel(caches, content, metadata, digest, None)
    requires reply(0).Answer? && AnswerText(reply(0).content) == ""
    requires reply(1).Answer? && AnswerText(reply(1).content) == ""
    ensures Semanticize(caches, content, documentType, metadata, digest, None, setFault, reply)
      == Run(caches, if documentType == Pdf then Success(content) else Failure(ErrorObject(CsvFailedPrefix + CsvEmptyOutputMessage)), 2)
  {
  }

  /** A timeout is retried, and a timeout on the last attempt throws the timeout error for
      both document types. */
  lemma SemanticizeTimeouts(caches: Caches, content: string, documentType: FileType, metadata: Option<Metadata>,
                            digest: string -> string, setFault: Option<string>, reply: nat -> Reply)
    requires ReachesModel(caches, content, metadata, digest, None)
    requires (reply(0).Answer? && AnswerText(reply(0).content) == "") || reply(0).TimedOut?
    requires reply(1).TimedOut?
    ensures Semanticize(caches, content, documentType, metadata, digest, None, setFault, reply)
      == Run(caches, Failure(ErrorObject(TimeoutMessage())), 2)
  {
  }

  /** Another error on the first call is re-thrown without a retry. */
  lemma SemanticizeFirstErrorNotRetried(caches: Caches, content: string, documentType: FileType, metadata: Option<Metadata>,
                                        digest: string -> string, setFault: Option<string>, reply: nat -> Reply)
    requires ReachesModel(caches, content, metadata, digest, None)
    requires reply(0).Threw?
    ensures Semanticize(caches, content, documentType, metadata, digest, None, setFault, reply)
      == Run(caches, Failure(reply(0).error), 1)
  {
  }

  /** On the last attempt, another `Error` falls back by type: a PDF gets its raw text, a
      CSV throws with the error's message. */
  lemma SemanticizeLastErrorFallsBack(caches: Caches, content: string, documentType: FileType, metadata: Option<Metadata>,
                                      digest: string -> string, setFault: Option<string>, reply: nat -> Reply)
    requires ReachesModel(caches, content, metadata, digest, None)
    requires reply(0).TimedOut? || (reply(0).Answer? && AnswerText(reply(0).content) == "")
    requires reply(1).Threw? && reply(1).error.ErrorObject?
    ensures Semanticize(caches, content, documentType, metadata, digest, None, setFault, reply)
      == Run(caches, Fallback(documentType, content, ErrorObject(CsvFailedPrefix + reply(1).error.message)), 2)
  {
  }

  /** The in-memory cache never holds an empty text. */
  predicate MemoryNonEmpty(memory: map<string, string>) {
    forall k :: k in memory ==> memory[k] != ""
  }

  /** The loop keeps the in-memory cache free of empty texts, and what it returns is the
      raw content or a non-empty text. */
  lemma {:induction false} LoopKeepsMemoryNonEmpty(attempt: nat, lastError: Option<Thrown>, caches: Caches, key: string,
                                                  content: string, documentType: FileType, setFault: Option<string>,
                                                  reply: nat -> Reply)
    requires MemoryNonEmpty(caches.memory)
    ensures var run := Loop(attempt, lastError, caches, key, content, documentType, setFault, reply);
      && MemoryNonEmpty(run.caches.memory)
      && (run.result.Success? ==> run.result.value == content || run.result.value != "")
    decreases MaxRetries + 1 - attempt
  {
    if attempt <= MaxRetries {
      LoopKeepsMemoryNonEmpty(attempt + 1, Some(ErrorObject(TimeoutMessage())), caches, key, content, documentType, setFault, reply);
      LoopKeepsMemoryNonEmpty(attempt + 1, Some(ErrorObject(EmptyOutputMessage)), caches, key, content, documentType, setFault, reply);
    }
  }

  /** Every invocation keeps the in-memory cache free of empty texts, and what it returns
      is the raw content or a non-empty text. */
  lemma SemanticizeKeepsMemoryNonEmpty(caches: Caches, content: string, documentType: FileType, metadata: Option<Metadata>,
                                       digest: string -> string, getFault: Option<string>, setFault: Option<string>,
                                       reply: nat -> Reply)
    requires MemoryNonEmpty(caches.memory)
    ensures var run := Semanticize(caches, content, documentType, metadata, digest, getFault, setFault, reply);
      && MemoryNonEmpty(run.caches.memory)
      && (run.result.Success? ==> run.result.value == content || run.result.value != "")
  {
    var key := CacheKey(content, metadata, digest);
    if Utf16Length(content) <= MaxContentLength && !(key in caches.memory && caches.memory[key] != "") && getFault.None? {
      var found := Lookup(caches.rows, key);
      if found.Some? {
        assert found.value != "";
      } else {
        LoopKeepsMemoryNonEmpty(0, None, caches, key, content, documentType, setFault, reply);
      }
    }
  }

  // ---------------------------------------------------------------- the normaliser

  /** The module's in-memory cache together with the persistent table. */
  class Normalizer {
    var memory: map<string, string>
    const table: SemanticCacheTable

    constructor(table: SemanticCacheTable)
      ensures memory == map[] && this.table == table
    {
      memory := map[];
      this.table := table;
    }

    /** `semanticizeText(content, documentType, metadata)`, with the hash function, the
        table's errors and the model's replies, by attempt, as parameters; `calls` is the
        number of model calls made. */
    method SemanticizeText(content: string, documentType: FileType, metadata: Option<Metadata>,
                           digest: string -> string, getFault: Option<string>, setFault: Option<string>,
                           reply: nat -> Reply)
      returns (result: Fallible<string, Thrown>, calls: nat)
      modifies this, table
      ensures Run(Caches(memory, table.rows), result, calls) ==
        Semanticize(Caches(old(memory), old(table.rows)), content, documentType, metadata, digest, getFault, setFault, reply)
    {
      calls := 0;
      if Utf16Length(content) > MaxContentLength {
        return Failure(ErrorObject(TooLargeMessage(Utf16Length(content)))), 0;
      }
      var key := CacheKey(content, metadata, digest);
      if key in memory && memory[key] != "" {
        return Success(memory[key]), 0;
      }
      var stored := table.GetSemanticCache(key, getFault);
      if stored.Err? {
        return Failure(ErrorObject(stored.error)), 0;
      }
      if stored.value.Some? {
        memory := memory[key := stored.value.value];
        return Success(stored.value.value), 0;
      }
      result, calls := RetryLoop(key, content, documentType, setFault, reply);
    }

    /** The retry loop: up to `MaxRetries + 1` model calls. */
    method RetryLoop(key: string, content: string, documentType: FileType, setFault: Option<string>, reply: nat -> Reply)
      returns (result: Fallible<string, Thrown>, calls: nat)
      modifies this, table
      ensures Run(Caches(memory, table.rows), result, calls) ==
        Loop(0, None, Caches(old(memory), old(table.rows)), key, content, documentType, setFault, reply)
    {
      ghost var start := Caches(memory, table.rows);
      var lastError: Option<Thrown> := None;
      var attempt: nat := 0;
      calls := 0;
      while attempt <= MaxRetries
        invariant attempt <= MaxRetries + 1
        invariant calls == attempt
        invariant attempt == 0 ==> lastError.None? && Caches(memory, table.rows) == start
        invariant var rest := Loop(attempt, lastError, Caches(memory, table.rows), key, content, documentType, setFault, reply);
          rest.(calls := rest.calls + calls) == Loop(0, None, start, key, content, documentType, setFault, reply)
        decreases MaxRetries + 1 - attempt
      {
        var answer := reply(attempt);
        calls := calls + 1;
        if answer.TimedOut? {
          lastError := Some(ErrorObject(TimeoutMessage()));
          attempt := attempt + 1;
        } else if answer.Threw? {
          return Caught(answer.error, attempt, documentType, content), calls;
        } else {
          var text := AnswerText(answer.content);
          if text == "" {
            lastError := Some(ErrorObject(EmptyOutputMessage));
            if attempt < MaxRetries {
              attempt := attempt + 1;
            } else {
              return Caught(ErrorObject(CsvEmptyOutputMessage), attempt, documentType, content), calls;
            }
          } else {
            memory := memory[key := text];
            var written := table.SetSemanticCache(key, text, setFault);
            if written.Fail? {
              return Caught(ErrorObject(written.error), attempt, documentType, content), calls;
            }
            return Success(text), calls;
          }
        }
      }
      result := Failure(if lastError.Some? then lastError.value else ErrorObject(AfterRetriesMessage));
    }
  }
}
