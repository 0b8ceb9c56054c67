/** The `semantic_cache` table: normalised text keyed by the hash of its raw input. Reads
    find nothing for a missing key or an empty text; writes insert only when the key is
    absent, so the first text written for a key is the one that stays. */
module SemanticCache {
  import opened Wrappers

  const GetFailedPrefix: string := "Failed to get semantic cache: "
  const SetFailedPrefix: string := "Failed to set semantic cache: "

  /** The table after an insert of `text` under `key`: a duplicate key keeps its row. */
  function PutIfAbsent(rows: map<string, string>, key: string, text: string): map<string, string> {
    if key in rows then rows else rows[key := text]
  }

  /** What a read of `key` finds: nothing for a missing row or an empty text. */
  function Lookup(rows: map<string, string>, key: string): Option<string> {
    if key in rows && rows[key] != "" then Some(rows[key]) else None
  }

  class SemanticCacheTable {
    var rows: map<string, string>

    constructor()
      ensures rows == map[]
    {
      rows := map[];
    }

    /** `getSemanticCache`: a database error other than "no row" is thrown with its
        message; otherwise the stored text, with a missing row or an empty text read as
        nothing. */
    function GetSemanticCache(rawHash: string, fault: Option<string>): (r: Result<Option<string>>)
      reads this
      ensures r.Err? <==> fault.Some?
      ensures r.Err? ==> r.error == GetFailedPrefix + fault.value
      ensures r.Ok? ==> (r.value.Some? <==> rawHash in rows && rows[rawHash] != "")
      ensures r.Ok? && r.value.Some? ==> r.value.value == rows[rawHash] && r.value.value != ""
    {
      if fault.Some? then Err(GetFailedPrefix + fault.value) else Ok(Lookup(rows, rawHash))
    }

    /** `setSemanticCache`: inserts the row when the key is absent; a duplicate key is a
        silent success that keeps the stored text; any other error is thrown and nothing
        is written. */
    method SetSemanticCache(rawHash: string, semanticText: string, fault: Option<string>) returns (r: Outcome)
      modifies this
      ensures r.Fail? <==> fault.Some?
      ensures r.Fail? ==> r.error == SetFailedPrefix + fault.value && rows == old(rows)
      ensures r.Pass? ==> rows == PutIfAbsent(old(rows), rawHash, semanticText)
    {
      if fault.Some? {
        return Fail(SetFailedPrefix + fault.value);
      }
      if rawHash !in rows {
        rows := rows[rawHash := semanticText];
      }
      return Pass;
    }
  }

  /** The table after a series of successful writes, in order. */
  function Replay(rows: map<string, string>, writes: seq<(string, string)>): map<string, string>
    decreases |writes|
  {
    if writes == [] then rows
    else Replay(PutIfAbsent(rows, writes[0].0, writes[0].1), writes[1..])
  }

  /** A key already stored keeps its text through any later writes. */
  lemma {:induction false} ReplayKeepsStored(rows: map<string, string>, writes: seq<(string, string)>, key: string)
    requires key in rows
    ensures key in Replay(rows, writes) && Replay(rows, writes)[key] == rows[key]
    decreases |writes|
  {
    if writes != [] {
      ReplayKeepsStored(PutIfAbsent(rows, writes[0].0, writes[0].1), writes[1..], key);
    }
  }

  /** For a key not yet stored, the text that stays is the one of the first write to it. */
  lemma {:induction false} FirstWriteWins(rows: map<string, string>, writes: seq<(string, string)>, key: string, i: nat)
    requires key !in rows
    requires i < |writes| && writes[i].0 == key
    requires forall j :: 0 <= j < i ==> writes[j].0 != key
    ensures key in Replay(rows, writes) && Replay(rows, writes)[key] == writes[i].1
    decreases i
  {
    var next := PutIfAbsent(rows, writes[0].0, writes[0].1);
    if i == 0 {
      ReplayKeepsStored(next, writes[1..], key);
    } else {
      FirstWriteWins(next, writes[1..], key, i - 1);
    }
  }

  /** A read after a write finds the stored text when the key was present (nothing if that
      text is empty), else the new text (nothing if it is empty). */
  lemma LookupAfterPut(rows: map<string, string>, key: string, text: string)
    ensures Lookup(PutIfAbsent(rows, key, text), key) ==
      (if key in rows then Lookup(rows, key) else if text == "" then None else Some(text))
    ensures forall other :: other != key ==> Lookup(PutIfAbsent(rows, key, text), other) == Lookup(rows, other)
  {
  }
}
