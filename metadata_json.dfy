/** `JSON.stringify` of the metadata record `hashContent` hashes: the members are
    written in `Object.keys` order, one per own property. */
module MetadataJson {
  import opened Wrappers
  import opened Text
  import CsvIngestion

  /** A metadata value: a string or an integer. */
  datatype MetaValue = MetaText(text: string) | MetaNumber(number: int)

  /** A metadata record as the code builds it: its assignments in order. A key assigned
      twice is one property, holding the later value. */
  type Metadata = seq<(string, MetaValue)>

  function RenderValue(v: MetaValue): string {
    match v
    case MetaText(text) => "\"" + text + "\""
    case MetaNumber(n) => if n < 0 then "-" + NatToString(-n) else NatToString(n)
  }

  /** The object the assignments build, each value held as its JSON text; it has the same
      keys, in the same `Object.keys` order, as a parsed CSV record. */
  function MetaRecord(metadata: Metadata): CsvIngestion.Record {
    seq(|metadata|, i requires 0 <= i < |metadata| => CsvIngestion.Field(metadata[i].0, RenderValue(metadata[i].1)))
  }

  /** One `"key":value` member per own property, in `Object.keys` order (array indices
      ascending, then the other keys by first assignment), with the last value assigned. */
  function RenderEntries(metadata: Metadata): seq<string> {
    var record := MetaRecord(metadata);
    var keys := CsvIngestion.Headers(record);
    seq(|keys|, i requires 0 <= i < |keys| => Member(keys[i], CsvIngestion.Lookup(record, keys[i]).GetOr("")))
  }

  /** One JSON object member, `"key":value`. */
  function Member(key: string, valueText: string): string {
    "\"" + key + "\":" + valueText
  }

  /** `JSON.stringify` of a metadata record, without white space. */
  function Stringify(metadata: Metadata): string {
    "{" + Join(RenderEntries(metadata), ",") + "}"
  }

  /** A key is a property of the record exactly when some entry assigns it. */
  lemma MetaRecordKeys(metadata: Metadata)
    ensures forall k :: CsvIngestion.Assigned(MetaRecord(metadata), k) <==> exists j :: 0 <= j < |metadata| && metadata[j].0 == k
  {
    var record := MetaRecord(metadata);
    forall k ensures CsvIngestion.Assigned(record, k) <==> exists j :: 0 <= j < |metadata| && metadata[j].0 == k {
      if CsvIngestion.Assigned(record, k) {
        var j :| 0 <= j < |record| && record[j].header == k;
        assert metadata[j].0 == k;
      }
      if exists j :: 0 <= j < |metadata| && metadata[j].0 == k {
        var j :| 0 <= j < |metadata| && metadata[j].0 == k;
        assert record[j].header == k;
      }
    }
  }

  /** The member written for a property holds the value of the key's last assignment. */
  lemma MetaMemberIsLast(metadata: Metadata, key: string)
    requires CsvIngestion.Assigned(MetaRecord(metadata), key)
    ensures exists j :: 0 <= j < |metadata| && metadata[j].0 == key
              && (forall l :: j < l < |metadata| ==> metadata[l].0 != key)
              && Member(key, CsvIngestion.Lookup(MetaRecord(metadata), key).GetOr("")) == Member(key, RenderValue(metadata[j].1))
  {
    var record := MetaRecord(metadata);
    var v := CsvIngestion.Lookup(record, key).value;
    var j :| 0 <= j < |record| && record[j] == CsvIngestion.Field(key, v)
             && forall l :: j < l < |record| ==> record[l].header != key;
    assert v == RenderValue(metadata[j].1);
    forall l | j < l < |metadata| ensures metadata[l].0 != key {
      assert record[l].header == metadata[l].0;
    }
  }

  /** The JSON text holds one member per distinct key assigned, each with the value of
      that key's last assignment; the keys are distinct, array indices come first in
      ascending order, and the other keys follow in order of first assignment. */
  lemma RenderEntriesSpec(metadata: Metadata)
    ensures var keys := CsvIngestion.Headers(MetaRecord(metadata));
      && |RenderEntries(metadata)| == |keys|
      && (forall k :: k in keys <==> exists j :: 0 <= j < |metadata| && metadata[j].0 == k)
      && CsvIngestion.Distinct(keys)
      && (forall i, j :: 0 <= i < j < |keys| && CsvIngestion.IsArrayIndex(keys[j]) ==>
            CsvIngestion.IsArrayIndex(keys[i]) && CsvIngestion.DigitsValue(keys[i]) <= CsvIngestion.DigitsValue(keys[j]))
      && (forall i, j :: 0 <= i < j < |keys| && !CsvIngestion.IsArrayIndex(keys[i]) ==>
            !CsvIngestion.IsArrayIndex(keys[j]) && CsvIngestion.AssignedBefore(MetaRecord(metadata), keys[i], keys[j]))
      && forall i :: 0 <= i < |keys| ==>
           exists j :: 0 <= j < |metadata| && metadata[j].0 == keys[i]
             && (forall l :: j < l < |metadata| ==> metadata[l].0 != keys[i])
             && RenderEntries(metadata)[i] == Member(keys[i], RenderValue(metadata[j].1))
  {
    var record := MetaRecord(metadata);
    var keys := CsvIngestion.Headers(record);
    CsvIngestion.HeadersSpec(record);
    MetaRecordKeys(metadata);
    forall i | 0 <= i < |keys|
      ensures exists j :: 0 <= j < |metadata| && metadata[j].0 == keys[i]
                && (forall l :: j < l < |metadata| ==> metadata[l].0 != keys[i])
                && RenderEntries(metadata)[i] == Member(keys[i], RenderValue(metadata[j].1))
    {
      assert keys[i] in keys;
      MetaMemberIsLast(metadata, keys[i]);
    }
  }

  /** The JSON members, given the record's keys and the text of each key's value. */
  lemma RenderEntriesOf(metadata: Metadata, keys: seq<string>, texts: seq<string>)
    requires CsvIngestion.Headers(MetaRecord(metadata)) == keys
    requires |texts| == |keys|
    requires forall i :: 0 <= i < |keys| ==> CsvIngestion.Lookup(MetaRecord(metadata), keys[i]) == Some(texts[i])
    ensures |RenderEntries(metadata)| == |keys|
    ensures forall i :: 0 <= i < |keys| ==> RenderEntries(metadata)[i] == Member(keys[i], texts[i])
  {
  }

  lemma SmallNumbers()
    ensures RenderValue(MetaNumber(1)) == "1" && RenderValue(MetaNumber(2)) == "2"
  {
    assert NatToString(1) == [DigitChar(1)] == "1";
    assert NatToString(2) == [DigitChar(2)] == "2";
  }

  lemma JoinPair(x: string, y: string)
    ensures "{" + Join([x, y], ",") + "}" == "{" + x + "," + y + "}"
  {
    assert [x, y][1..] == [y];
  }

  // Generic facts about one- and two-field records, so that the examples below need no
  // evaluation of the key functions on literal text.

  lemma KeysOfOne(f: CsvIngestion.Field)
    requires !CsvIngestion.IsArrayIndex(f.header)
    ensures CsvIngestion.Headers([f]) == [f.header]
    ensures CsvIngestion.Lookup([f], f.header) == Some(f.cell)
  {
    assert [f][..0] == [];
    assert CsvIngestion.FirstSeen([f]) == [f.header];
    assert [f.header][..0] == [];
    assert CsvIngestion.IndexKeys([f.header]) == [];
    assert CsvIngestion.NamedKeys([f.header]) == [f.header];
    assert CsvIngestion.SortIndexKeys([]) == [];
  }

  lemma FirstSeenOfTwo(f: CsvIngestion.Field, g: CsvIngestion.Field)
    ensures CsvIngestion.FirstSeen([f, g]) == if g.header == f.header then [f.header] else [f.header, g.header]
  {
    assert [f, g][..1] == [f];
    assert [f][..0] == [];
    assert CsvIngestion.FirstSeen([f]) == [f.header];
  }

  lemma LookupOfTwo(f: CsvIngestion.Field, g: CsvIngestion.Field, h: string)
    requires h == f.header || h == g.header
    ensures CsvIngestion.Lookup([f, g], h) == if g.header == h then Some(g.cell) else Some(f.cell)
  {
    assert [f, g][..1] == [f];
    assert [f][..0] == [];
    if g.header != h {
      assert CsvIngestion.Lookup([f], h) == Some(f.cell);
    }
  }

  lemma KeysOfRepeated(f: CsvIngestion.Field, g: CsvIngestion.Field)
    requires f.header == g.header && !CsvIngestion.IsArrayIndex(f.header)
    ensures CsvIngestion.Headers([f, g]) == [f.header]
    ensures CsvIngestion.Lookup([f, g], f.header) == Some(g.cell)
  {
    FirstSeenOfTwo(f, g);
    LookupOfTwo(f, g, f.header);
    assert [f.header][..0] == [];
    assert CsvIngestion.IndexKeys([f.header]) == [];
    assert CsvIngestion.NamedKeys([f.header]) == [f.header];
    assert CsvIngestion.SortIndexKeys([]) == [];
  }

  /** An index key and a name, in either order: the index key comes first. */
  lemma SplitIndexAndName(x: string, y: string)
    requires CsvIngestion.IsArrayIndex(x) != CsvIngestion.IsArrayIndex(y)
    ensures var index, name := if CsvIngestion.IsArrayIndex(x) then x else y, if CsvIngestion.IsArrayIndex(x) then y else x;
      CsvIngestion.IndexKeys([x, y]) == [index] && CsvIngestion.NamedKeys([x, y]) == [name]
  {
    assert [x, y][..1] == [x];
    assert [x][..0] == [];
    assert CsvIngestion.IndexKeys([x]) == (if CsvIngestion.IsArrayIndex(x) then [x] else []);
    assert CsvIngestion.NamedKeys([x]) == (if CsvIngestion.IsArrayIndex(x) then [] else [x]);
  }

  lemma KeysOfIndexThenName(f: CsvIngestion.Field, g: CsvIngestion.Field)
    requires CsvIngestion.IsArrayIndex(f.header) && !CsvIngestion.IsArrayIndex(g.header)
    ensures CsvIngestion.Headers([f, g]) == [f.header, g.header]
    ensures CsvIngestion.Lookup([f, g], f.header) == Some(f.cell)
    ensures CsvIngestion.Lookup([f, g], g.header) == Some(g.cell)
  {
    FirstSeenOfTwo(f, g);
    SplitIndexAndName(f.header, g.header);
    LookupOfTwo(f, g, f.header);
    LookupOfTwo(f, g, g.header);
    SortOne(f.header);
  }

  lemma KeysOfNameThenIndex(f: CsvIngestion.Field, g: CsvIngestion.Field)
    requires !CsvIngestion.IsArrayIndex(f.header) && CsvIngestion.IsArrayIndex(g.header)
    ensures CsvIngestion.Headers([f, g]) == [g.header, f.header]
    ensures CsvIngestion.Lookup([f, g], f.header) == Some(f.cell)
    ensures CsvIngestion.Lookup([f, g], g.header) == Some(g.cell)
  {
    FirstSeenOfTwo(f, g);
    SplitIndexAndName(f.header, g.header);
    LookupOfTwo(f, g, f.header);
    LookupOfTwo(f, g, g.header);
    SortOne(g.header);
  }

  lemma SortOne(k: string)
    ensures CsvIngestion.SortIndexKeys([k]) == [k]
  {
    assert [k][..0] == [];
  }

  lemma ZeroIsIndex()
    ensures CsvIngestion.IsArrayIndex("0")
    ensures !CsvIngestion.IsArrayIndex("a") && !CsvIngestion.IsArrayIndex("b")
  {
    assert "0"[..0] == "";
    assert CsvIngestion.DigitsValue("0") == 0;
  }

  /** `{b: 1, "0": 2}` is written `{"0":2,"b":1}`: the array index goes first. */
  lemma StringifyIndexKeyFirst()
    ensures Stringify([("b", MetaNumber(1)), ("0", MetaNumber(2))]) == "{" + Member("0", "2") + "," + Member("b", "1") + "}"
  {
    var m := [("b", MetaNumber(1)), ("0", MetaNumber(2))];
    var f, g := CsvIngestion.Field("b", "1"), CsvIngestion.Field("0", "2");
    SmallNumbers();
    assert MetaRecord(m) == [f, g];
    ZeroIsIndex();
    KeysOfNameThenIndex(f, g);
    RenderEntriesOf(m, ["0", "b"], ["2", "1"]);
    assert RenderEntries(m) == [Member("0", "2"), Member("b", "1")];
    JoinPair(Member("0", "2"), Member("b", "1"));
  }

  /** `{"0": 2, b: 1}` is written the same way. */
  lemma StringifyInOrder()
    ensures Stringify([("0", MetaNumber(2)), ("b", MetaNumber(1))]) == "{" + Member("0", "2") + "," + Member("b", "1") + "}"
  {
    var m := [("0", MetaNumber(2)), ("b", MetaNumber(1))];
    var f, g := CsvIngestion.Field("0", "2"), CsvIngestion.Field("b", "1");
    SmallNumbers();
    assert MetaRecord(m) == [f, g];
    ZeroIsIndex();
    KeysOfIndexThenName(f, g);
    RenderEntriesOf(m, ["0", "b"], ["2", "1"]);
    assert RenderEntries(m) == [Member("0", "2"), Member("b", "1")];
    JoinPair(Member("0", "2"), Member("b", "1"));
  }

  /** `{a: 1, a: 2}` is the object `{a: 2}` and is written `{"a":2}`. */
  lemma StringifyLastValueWins()
    ensures Stringify([("a", MetaNumber(1)), ("a", MetaNumber(2))]) == "{" + Member("a", "2") + "}"
  {
    var m := [("a", MetaNumber(1)), ("a", MetaNumber(2))];
    var f, g := CsvIngestion.Field("a", "1"), CsvIngestion.Field("a", "2");
    SmallNumbers();
    assert MetaRecord(m) == [f, g];
    ZeroIsIndex();
    KeysOfRepeated(f, g);
    RenderEntriesOf(m, ["a"], ["2"]);
    assert RenderEntries(m) == [Member("a", "2")];
  }

  /** `{a: 2}` is written `{"a":2}`. */
  lemma StringifySingle()
    ensures Stringify([("a", MetaNumber(2))]) == "{" + Member("a", "2") + "}"
  {
    var m := [("a", MetaNumber(2))];
    var f := CsvIngestion.Field("a", "2");
    SmallNumbers();
    assert MetaRecord(m) == [f];
    ZeroIsIndex();
    KeysOfOne(f);
    RenderEntriesOf(m, ["a"], ["2"]);
    assert RenderEntries(m) == [Member("a", "2")];
  }
}
