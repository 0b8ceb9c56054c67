/** CSV ingestion: turns the records csv-parse produced into one prose sentence
    block per row, `This record describes a <entity>. <Header>: <value>. ...`. */
module CsvIngestion {
  import opened Wrappers
  import opened Text

  /** The row ceiling shared with upload validation. */
  const MaxCsvRows: nat := 2000

  const EmptyCsvMessage: string := "CSV file is empty or has no data rows"
  const NoHeadersMessage: string := "CSV file has no headers"

  /** One assignment csv-parse makes while it builds a record object with `columns: true`:
      the (trimmed) column name and the (trimmed) cell. */
  datatype Field = Field(header: string, cell: string)

  /** The assignments that built one record object, in column order. A name assigned a
      second time keeps its place among the keys and takes the later cell. */
  type Record = seq<Field>

  /** What csv-parse did with the file text: produced records, or threw. */
  datatype CsvParserOutcome = Records(records: seq<Record>) | ParserThrew(thrown: Thrown)

  datatype ParsedRow = ParsedRow(rowIndex: nat, serializedText: string)

  datatype ParsedCsv = ParsedCsv(rows: seq<ParsedRow>)

  // ---------------------------------------------------------------- object keys

  /** The value of a string read as decimal digits. */
  function DigitsValue(k: string): int
    decreases |k|
  {
    if k == [] then 0 else DigitsValue(k[..|k| - 1]) * 10 + (k[|k| - 1] as int - '0' as int)
  }

  /** A property key that is an array index: the canonical decimal form of an integer
      below 2^32 - 1. `Object.keys` lists these keys first, in ascending numeric order. */
  predicate IsArrayIndex(k: string) {
    && k != []
    && (forall i :: 0 <= i < |k| ==> IsAsciiDigit(k[i]))
    && (k == "0" || k[0] != '0')
    && DigitsValue(k) < 0xFFFF_FFFF
  }

  predicate Distinct(ks: seq<string>) {
    forall i, j :: 0 <= i < j < |ks| ==> ks[i] != ks[j]
  }

  /** Some field of `record` has header `h`. */
  predicate Assigned(record: Record, h: string) {
    exists k :: 0 <= k < |record| && record[k].header == h
  }

  /** `a` is assigned before `b` is assigned for the first time. */
  predicate AssignedBefore(record: Record, a: string, b: string) {
    exists p :: 0 <= p < |record| && record[p].header == a && forall q :: 0 <= q <= p ==> record[q].header != b
  }

  predicate InAssignmentOrder(record: Record, ks: seq<string>) {
    forall i, j :: 0 <= i < j < |ks| ==> AssignedBefore(record, ks[i], ks[j])
  }

  /** The distinct headers of `record`, in the order of their first assignment. */
  function FirstSeen(record: Record): seq<string>
    decreases |record|
  {
    if record == [] then []
    else
      var prev := FirstSeen(record[..|record| - 1]);
      var h := record[|record| - 1].header;
      if h in prev then prev else prev + [h]
  }

  lemma {:induction false} FirstSeenMembers(record: Record)
    ensures forall h :: h in FirstSeen(record) <==> Assigned(record, h)
    ensures Distinct(FirstSeen(record))
    decreases |record|
  {
    if record != [] {
      var n := |record| - 1;
      var front := record[..n];
      FirstSeenMembers(front);
      forall x ensures Assigned(record, x) <==> x == record[n].header || Assigned(front, x) {
        if Assigned(record, x) && x != record[n].header {
          var k :| 0 <= k < |record| && record[k].header == x;
          assert front[k] == record[k];
        }
        if Assigned(front, x) {
          var k :| 0 <= k < |front| && front[k].header == x;
          assert record[k] == front[k];
        }
      }
    }
  }

  /** An order between two names seen in a prefix of the assignments still holds. */
  lemma AssignedBeforeGrows(record: Record, n: nat, a: string, b: string)
    requires n <= |record| && AssignedBefore(record[..n], a, b)
    ensures AssignedBefore(record, a, b)
  {
    var front := record[..n];
    var p :| 0 <= p < |front| && front[p].header == a && forall q :: 0 <= q <= p ==> front[q].header != b;
    assert record[p] == front[p];
    forall q | 0 <= q <= p ensures record[q].header != b {
      assert record[q] == front[q];
    }
  }

  /** A name seen in a prefix is assigned before a name the prefix never assigns. */
  lemma AssignedBeforeUnseen(record: Record, n: nat, a: string, b: string)
    requires n <= |record| && Assigned(record[..n], a) && !Assigned(record[..n], b)
    ensures AssignedBefore(record, a, b)
  {
    var front := record[..n];
    var p :| 0 <= p < |front| && front[p].header == a;
    assert record[p] == front[p];
    forall q | 0 <= q <= p ensures record[q].header != b {
      assert record[q] == front[q];
    }
  }

  lemma {:induction false} FirstSeenOrdered(record: Record)
    ensures InAssignmentOrder(record, FirstSeen(record))
    decreases |record|
  {
    if record != [] {
      var n := |record| - 1;
      var prev := FirstSeen(record[..n]);
      var h := record[n].header;
      FirstSeenOrdered(record[..n]);
      FirstSeenMembers(record[..n]);
      forall i, j | 0 <= i < j < |prev| ensures AssignedBefore(record, prev[i], prev[j]) {
        AssignedBeforeGrows(record, n, prev[i], prev[j]);
      }
      if h !in prev {
        forall i | 0 <= i < |prev| ensures AssignedBefore(record, prev[i], h) {
          assert prev[i] in prev;
          AssignedBeforeUnseen(record, n, prev[i], h);
        }
        var ks := prev + [h];
        forall i, j | 0 <= i < j < |ks| ensures AssignedBefore(record, ks[i], ks[j]) {
          assert ks[i] == prev[i];
          if j < |prev| {
            assert ks[j] == prev[j];
          }
        }
      }
    }
  }

  /** The keys of `ks` that are array indices, in their order. */
  function IndexKeys(ks: seq<string>): seq<string>
    decreases |ks|
  {
    if ks == [] then []
    else IndexKeys(ks[..|ks| - 1]) + (if IsArrayIndex(ks[|ks| - 1]) then [ks[|ks| - 1]] else [])
  }

  /** The keys of `ks` that are not array indices, in their order. */
  function NamedKeys(ks: seq<string>): seq<string>
    decreases |ks|
  {
    if ks == [] then []
    else NamedKeys(ks[..|ks| - 1]) + (if IsArrayIndex(ks[|ks| - 1]) then [] else [ks[|ks| - 1]])
  }

  lemma {:induction false} IndexKeysSpec(ks: seq<string>)
    ensures forall k :: k in IndexKeys(ks) <==> k in ks && IsArrayIndex(k)
    ensures Distinct(ks) ==> Distinct(IndexKeys(ks))
    decreases |ks|
  {
    if ks != [] {
      var n := |ks| - 1;
      var front := ks[..n];
      assert ks == front + [ks[n]];
      IndexKeysSpec(front);
      if Distinct(ks) {
        assert Distinct(front) by {
          assert forall i, j :: 0 <= i < j < |front| ==> front[i] == ks[i] && front[j] == ks[j];
        }
        assert ks[n] !in front;
      }
    }
  }

  lemma {:induction false} NamedKeysMembers(ks: seq<string>)
    ensures forall k :: k in NamedKeys(ks) <==> k in ks && !IsArrayIndex(k)
    ensures Distinct(ks) ==> Distinct(NamedKeys(ks))
    decreases |ks|
  {
    if ks != [] {
      var n := |ks| - 1;
      var front := ks[..n];
      assert ks == front + [ks[n]];
      NamedKeysMembers(front);
      if Distinct(ks) {
        assert Distinct(front) by {
          assert forall i, j :: 0 <= i < j < |front| ==> front[i] == ks[i] && front[j] == ks[j];
        }
        assert ks[n] !in front;
      }
    }
  }

  lemma {:induction false} NamedKeysOrdered(record: Record, ks: seq<string>)
    requires InAssignmentOrder(record, ks)
    ensures InAssignmentOrder(record, NamedKeys(ks))
    decreases |ks|
  {
    if ks != [] {
      var n := |ks| - 1;
      var front := ks[..n];
      assert InAssignmentOrder(record, front) by {
        assert forall i, j :: 0 <= i < j < |front| ==> front[i] == ks[i] && front[j] == ks[j];
      }
      NamedKeysOrdered(record, front);
      NamedKeysMembers(front);
      var named := NamedKeys(front);
      if !IsArrayIndex(ks[n]) {
        forall i | 0 <= i < |named| ensures AssignedBefore(record, named[i], ks[n]) {
          assert named[i] in front;
          var i' :| 0 <= i' < |front| && front[i'] == named[i];
          assert ks[i'] == named[i];
        }
        var r := named + [ks[n]];
        assert NamedKeys(ks) == r;
        forall i, j | 0 <= i < j < |r| ensures AssignedBefore(record, r[i], r[j]) {
          assert r[i] == named[i];
          if j < |named| {
            assert r[j] == named[j];
          }
        }
      }
    }
  }

  predicate AscendingIndices(ks: seq<string>) {
    forall i, j :: 0 <= i < j < |ks| ==> DigitsValue(ks[i]) <= DigitsValue(ks[j])
  }

  /** `k` placed before the first key of larger or equal value. */
  function InsertIndexKey(k: string, ks: seq<string>): seq<string>
    decreases |ks|
  {
    if ks == [] || DigitsValue(k) <= DigitsValue(ks[0]) then [k] + ks
    else [ks[0]] + InsertIndexKey(k, ks[1..])
  }

  lemma {:induction false} InsertIndexKeyMembers(k: string, ks: seq<string>)
    ensures forall x :: x in InsertIndexKey(k, ks) <==> x == k || x in ks
    decreases |ks|
  {
    if ks != [] && DigitsValue(k) > DigitsValue(ks[0]) {
      InsertIndexKeyMembers(k, ks[1..]);
      assert ks == [ks[0]] + ks[1..];
    }
  }

  lemma {:induction false} InsertIndexKeyDistinct(k: string, ks: seq<string>)
    requires k !in ks && Distinct(ks)
    ensures Distinct(InsertIndexKey(k, ks))
    decreases |ks|
  {
    if ks != [] && DigitsValue(k) > DigitsValue(ks[0]) {
      var rest := InsertIndexKey(k, ks[1..]);
      assert ks == [ks[0]] + ks[1..];
      assert Distinct(ks[1..]);
      InsertIndexKeyDistinct(k, ks[1..]);
      InsertIndexKeyMembers(k, ks[1..]);
      assert ks[0] !in rest;
      var r := [ks[0]] + rest;
      forall i, j | 0 <= i < j < |r| ensures r[i] != r[j] {
        if i == 0 {
          assert r[j] == rest[j - 1];
        } else {
          assert r[i] == rest[i - 1] && r[j] == rest[j - 1];
        }
      }
    }
  }

  /** A key no larger than every key of an ascending list can go in front of it. */
  lemma ConsAscending(h: string, rest: seq<string>)
    requires AscendingIndices(rest)
    requires forall x :: x in rest ==> DigitsValue(h) <= DigitsValue(x)
    ensures AscendingIndices([h] + rest)
  {
    var r := [h] + rest;
    forall i, j | 0 <= i < j < |r| ensures DigitsValue(r[i]) <= DigitsValue(r[j]) {
      assert r[j] == rest[j - 1];
      if i == 0 {
        assert r[j] in rest;
      } else {
        assert r[i] == rest[i - 1];
      }
    }
  }

  lemma {:induction false} InsertIndexKeyAscending(k: string, ks: seq<string>)
    requires AscendingIndices(ks)
    ensures AscendingIndices(InsertIndexKey(k, ks))
    decreases |ks|
  {
    if ks == [] || DigitsValue(k) <= DigitsValue(ks[0]) {
      forall x | x in ks ensures DigitsValue(k) <= DigitsValue(x) {
        var j :| 0 <= j < |ks| && ks[j] == x;
        assert DigitsValue(ks[0]) <= DigitsValue(ks[j]) || j == 0;
      }
      ConsAscending(k, ks);
    } else {
      var rest := InsertIndexKey(k, ks[1..]);
      assert AscendingIndices(ks[1..]);
      InsertIndexKeyAscending(k, ks[1..]);
      InsertIndexKeyMembers(k, ks[1..]);
      forall x | x in rest ensures DigitsValue(ks[0]) <= DigitsValue(x) {
        if x != k {
          var j :| 0 <= j < |ks[1..]| && ks[1..][j] == x;
          assert ks[1 + j] == x;
        }
      }
      ConsAscending(ks[0], rest);
    }
  }

  /** The keys of `ks` in ascending numeric order. */
  function SortIndexKeys(ks: seq<string>): seq<string>
    decreases |ks|
  {
    if ks == [] then [] else InsertIndexKey(ks[|ks| - 1], SortIndexKeys(ks[..|ks| - 1]))
  }

  lemma {:induction false} SortIndexKeysSpec(ks: seq<string>)
    ensures forall x :: x in SortIndexKeys(ks) <==> x in ks
    ensures AscendingIndices(SortIndexKeys(ks))
    ensures Distinct(ks) ==> Distinct(SortIndexKeys(ks))
    decreases |ks|
  {
    if ks != [] {
      var n := |ks| - 1;
      var front := ks[..n];
      assert ks == front + [ks[n]];
      SortIndexKeysSpec(front);
      InsertIndexKeyMembers(ks[n], SortIndexKeys(front));
      InsertIndexKeyAscending(ks[n], SortIndexKeys(front));
      if Distinct(ks) {
        assert Distinct(front) by {
          assert forall i, j :: 0 <= i < j < |front| ==> front[i] == ks[i] && front[j] == ks[j];
        }
        assert ks[n] !in front;
        InsertIndexKeyDistinct(ks[n], SortIndexKeys(front));
      }
    }
  }

  /** `Object.keys(record)`: every assigned name once, the array indices first in
      ascending numeric order, then the other names in the order of first assignment. */
  function Headers(record: Record): seq<string> {
    var ks := FirstSeen(record);
    SortIndexKeys(IndexKeys(ks)) + NamedKeys(ks)
  }

  /** Array indices followed by names: the concatenation keeps the properties of each part. */
  lemma IndicesThenNames(record: Record, idx: seq<string>, named: seq<string>)
    requires forall i :: 0 <= i < |idx| ==> IsArrayIndex(idx[i])
    requires forall i :: 0 <= i < |named| ==> !IsArrayIndex(named[i])
    requires Distinct(idx) && Distinct(named) && AscendingIndices(idx)
    requires InAssignmentOrder(record, named)
    ensures Distinct(idx + named)
    ensures forall i, j :: 0 <= i < j < |idx + named| && IsArrayIndex((idx + named)[j]) ==>
              IsArrayIndex((idx + named)[i]) && DigitsValue((idx + named)[i]) <= DigitsValue((idx + named)[j])
    ensures forall i, j :: 0 <= i < j < |idx + named| && !IsArrayIndex((idx + named)[i]) ==>
              !IsArrayIndex((idx + named)[j]) && AssignedBefore(record, (idx + named)[i], (idx + named)[j])
  {
    var hs := idx + named;
    forall k | 0 <= k < |idx| ensures hs[k] == idx[k] && IsArrayIndex(hs[k]) {
    }
    forall k | |idx| <= k < |hs| ensures hs[k] == named[k - |idx|] && !IsArrayIndex(hs[k]) {
    }
    forall i, j | 0 <= i < j < |hs| ensures hs[i] != hs[j] {
      if j < |idx| {
        assert hs[i] == idx[i] && hs[j] == idx[j];
      } else if i >= |idx| {
        assert hs[i] == named[i - |idx|] && hs[j] == named[j - |idx|];
      }
    }
  }

  /** The keys of a record object are exactly its assigned names, each once; the array
      indices come first, in ascending numeric order; the other names follow in the order
      they were first assigned. */
  lemma HeadersSpec(record: Record)
    ensures forall h :: h in Headers(record) <==> Assigned(record, h)
    ensures Distinct(Headers(record))
    ensures forall i, j :: 0 <= i < j < |Headers(record)| && IsArrayIndex(Headers(record)[j]) ==>
              IsArrayIndex(Headers(record)[i]) && DigitsValue(Headers(record)[i]) <= DigitsValue(Headers(record)[j])
    ensures forall i, j :: 0 <= i < j < |Headers(record)| && !IsArrayIndex(Headers(record)[i]) ==>
              !IsArrayIndex(Headers(record)[j]) && AssignedBefore(record, Headers(record)[i], Headers(record)[j])
  {
    var ks := FirstSeen(record);
    FirstSeenMembers(record);
    FirstSeenOrdered(record);
    IndexKeysSpec(ks);
    NamedKeysMembers(ks);
    NamedKeysOrdered(record, ks);
    var idx := SortIndexKeys(IndexKeys(ks));
    SortIndexKeysSpec(IndexKeys(ks));
    assert forall i :: 0 <= i < |idx| ==> idx[i] in idx;
    var named := NamedKeys(ks);
    assert forall i :: 0 <= i < |named| ==> named[i] in named;
    IndicesThenNames(record, idx, named);
  }

  /** `record[header]`: the cell of the last assignment to that name, or `undefined`. */
  function Lookup(record: Record, header: string): (v: Option<string>)
    ensures v.Some? <==> Assigned(record, header)
    ensures v.Some? ==> exists k :: 0 <= k < |record| && record[k] == Field(header, v.value)
                          && forall l :: k < l < |record| ==> record[l].header != header
    decreases |record|
  {
    if record == [] then None
    else if record[|record| - 1].header == header then Some(record[|record| - 1].cell)
    else
      var front := record[..|record| - 1];
      assert forall k :: 0 <= k < |front| ==> front[k] == record[k];
      Lookup(front, header)
  }

  lemma YearIsArrayIndex()
    ensures IsArrayIndex("2023") && !IsArrayIndex("name")
  {
    assert "2023"[..3] == "202" && "202"[..2] == "20" && "20"[..1] == "2" && "2"[..0] == "";
    assert DigitsValue("2023") == 2023;
  }

  lemma NameYearSeen()
    ensures FirstSeen([Field("name", "x"), Field("2023", "5")]) == ["name", "2023"]
  {
    var r := [Field("name", "x"), Field("2023", "5")];
    assert r[..1] == [Field("name", "x")];
    assert FirstSeen(r[..1]) == ["name"];
  }

  lemma NameYearFiltered()
    ensures IndexKeys(["name", "2023"]) == ["2023"] && NamedKeys(["name", "2023"]) == ["name"]
  {
    YearIsArrayIndex();
    assert ["name", "2023"][..1] == ["name"];
    assert IndexKeys(["name"]) == [] && NamedKeys(["name"]) == ["name"];
  }

  /** In a file headed `name,2023`, `Object.keys` lists `2023` first. */
  lemma IndexKeyListedFirst()
    ensures Headers([Field("name", "x"), Field("2023", "5")]) == ["2023", "name"]
  {
    NameYearSeen();
    NameYearFiltered();
    assert SortIndexKeys(["2023"]) == ["2023"];
  }

  lemma RepeatedNameSeenOnce()
    ensures FirstSeen([Field("a", "1"), Field("a", "2")]) == ["a"]
  {
    var d := [Field("a", "1"), Field("a", "2")];
    assert d[..1] == [Field("a", "1")];
    assert FirstSeen(d[..1]) == ["a"];
  }

  /** In a file headed `a,a`, the record has one key `a`, holding the second cell. */
  lemma RepeatedNameOneKey()
    ensures Headers([Field("a", "1"), Field("a", "2")]) == ["a"]
    ensures Lookup([Field("a", "1"), Field("a", "2")], "a") == Some("2")
  {
    RepeatedNameSeenOnce();
    assert !IsArrayIndex("a");
    assert IndexKeys(["a"]) == [] && NamedKeys(["a"]) == ["a"];
  }

  // ---------------------------------------------------------------- names

  /** The space camelCase splitting puts between `a` and `b`: one exactly when `a` ends in
      a lower-case ASCII letter and `b` starts with an upper-case one. */
  function Seam(a: string, b: string): string {
    if a != [] && b != [] && IsAsciiLower(a[|a| - 1]) && IsAsciiUpper(b[0]) then " " else ""
  }

  /** `replace(/([a-z])([A-Z])/g, '$1 $2')`: a space between every lower-case ASCII
      letter and an upper-case ASCII letter right after it. The upper-case letter of a
      match can never start another match, so scanning from it is the same as the
      regular expression resuming after the match. */
  function SplitCamel(s: string): string
    decreases |s|
  {
    if s == [] then [] else [s[0]] + Seam([s[0]], s[1..]) + SplitCamel(s[1..])
  }

  /** `s` with every occurrence of `c` removed. */
  function Without(s: string, c: char): (r: string)
    ensures c !in r
  {
    if s == [] then [] else (if s[0] == c then [] else [s[0]]) + Without(s[1..], c)
  }

  lemma {:induction false} WithoutAppend(a: string, b: string, c: char)
    ensures Without(a + b, c) == Without(a, c) + Without(b, c)
    decreases |a|
  {
    if a == [] {
      assert a + b == b;
    } else {
      assert (a + b)[1..] == a[1..] + b;
      WithoutAppend(a[1..], b, c);
    }
  }

  /** SplitCamel only inserts spaces: with spaces removed, output and input agree, and
      every output character comes from the input or is a space. */
  lemma {:induction false} SplitCamelKeepsText(s: string)
    ensures Without(SplitCamel(s), ' ') == Without(s, ' ')
    ensures forall c :: c in SplitCamel(s) ==> c in s || c == ' '
    decreases |s|
  {
    if s != [] {
      var t := s[1..];
      var seam := Seam([s[0]], t);
      SplitCamelKeepsText(t);
      WithoutAppend([s[0]] + seam, SplitCamel(t), ' ');
      WithoutAppend([s[0]], seam, ' ');
      assert Without(seam, ' ') == [] by {
        if seam != [] {
          assert seam == [' '];
        }
      }
      assert s == [s[0]] + t;
      WithoutAppend([s[0]], t, ' ');
    }
  }

  /** SplitCamel leaves no lower-upper pair in its output, and keeps the first character. */
  lemma {:induction false} SplitCamelLeavesNoPair(s: string)
    ensures forall i :: 0 <= i < |SplitCamel(s)| - 1 ==>
              !(IsAsciiLower(SplitCamel(s)[i]) && IsAsciiUpper(SplitCamel(s)[i + 1]))
    ensures s != [] ==> SplitCamel(s) != [] && SplitCamel(s)[0] == s[0]
    decreases |s|
  {
    if s != [] {
      var t := s[1..];
      var rest := SplitCamel(t);
      var seam := Seam([s[0]], t);
      SplitCamelLeavesNoPair(t);
      var r := [s[0]] + seam + rest;
      forall i | 0 <= i < |r| - 1 ensures !(IsAsciiLower(r[i]) && IsAsciiUpper(r[i + 1])) {
        if i >= |seam| + 1 {
          assert r[i] == rest[i - 1 - |seam|] && r[i + 1] == rest[i - |seam|];
        } else if i == 0 && seam == [] {
          assert r[1] == rest[0] == t[0];
        } else if i == 1 {
          assert r[1] == ' ';
        }
      }
    }
  }

  /** Both halves: SplitCamel only inserts spaces, keeps the first character and leaves
      no lower-upper pair. */
  lemma SplitCamelSpec(s: string)
    ensures Without(SplitCamel(s), ' ') == Without(s, ' ')
    ensures forall c :: c in SplitCamel(s) ==> c in s || c == ' '
    ensures forall i :: 0 <= i < |SplitCamel(s)| - 1 ==>
              !(IsAsciiLower(SplitCamel(s)[i]) && IsAsciiUpper(SplitCamel(s)[i + 1]))
    ensures |s| > 0 ==> |SplitCamel(s)| > 0 && SplitCamel(s)[0] == s[0]
  {
    SplitCamelKeepsText(s);
    SplitCamelLeavesNoPair(s);
  }

  /** A lower-case ASCII letter directly followed by an upper-case one. */
  predicate CamelPairAt(s: string, i: nat)
    requires i + 1 < |s|
  {
    IsAsciiLower(s[i]) && IsAsciiUpper(s[i + 1])
  }

  /** Text without a lower-upper pair is left as it is. */
  lemma {:induction false} SplitCamelNoPair(s: string)
    requires forall i :: 0 <= i < |s| - 1 ==> !CamelPairAt(s, i)
    ensures SplitCamel(s) == s
    decreases |s|
  {
    if s != [] {
      if |s| >= 2 {
        assert !CamelPairAt(s, 0);
      }
      forall i | 0 <= i < |s[1..]| - 1 ensures !CamelPairAt(s[1..], i) {
        assert !CamelPairAt(s, i + 1);
      }
      SplitCamelNoPair(s[1..]);
      assert s == [s[0]] + s[1..];
    }
  }

  /** Splitting works piece by piece: across the seam of `a + b` one space is inserted
      exactly when `a` ends in a lower-case letter and `b` starts with an upper-case one. */
  lemma {:induction false} SplitCamelAppend(a: string, b: string)
    ensures SplitCamel(a + b) == SplitCamel(a) + Seam(a, b) + SplitCamel(b)
    decreases |a|
  {
    if a == [] {
      assert a + b == b;
    } else {
      var x, t := a[0], a[1..];
      var ab := a + b;
      assert ab[0] == x && ab[1..] == t + b;
      SplitCamelHead(ab);
      SplitCamelHead(a);
      if t == [] {
        assert t + b == b;
      } else {
        SplitCamelAppend(t, b);
        SeamDropFirst(a, b);
        SeamKeepFirst(x, t, b);
        ConcatRegroup([x] + Seam([x], t), SplitCamel(t), Seam(a, b), SplitCamel(b));
      }
    }
  }

  lemma SplitCamelHead(s: string)
    requires s != []
    ensures SplitCamel(s) == [s[0]] + Seam([s[0]], s[1..]) + SplitCamel(s[1..])
  {
  }

  lemma SeamDropFirst(a: string, b: string)
    requires |a| >= 2
    ensures Seam(a[1..], b) == Seam(a, b)
  {
    assert a[1..][|a| - 2] == a[|a| - 1];
  }

  lemma SeamKeepFirst(x: char, t: string, b: string)
    requires t != []
    ensures Seam([x], t + b) == Seam([x], t)
  {
    assert (t + b)[0] == t[0];
  }

  lemma ConcatRegroup(p: string, q: string, r: string, u: string)
    ensures p + (q + r + u) == (p + q) + r + u
  {
  }

  /** A `\w` character that starts a word: the position `\b\w` matches. */
  predicate IsWordStart(s: string, i: nat)
    requires i < |s|
  {
    IsWordChar(s[i]) && (i == 0 || !IsWordChar(s[i - 1]))
  }

  /** `replace(/\b\w/g, c => c.toUpperCase())`. */
  function CapitalizeWords(s: string): (r: string)
    ensures |r| == |s|
  {
    seq(|s|, i requires 0 <= i < |s| => if IsWordStart(s, i) then UpperChar(s[i]) else s[i])
  }

  /** Capitalizing changes letter case only: the lower-cased text is the same, every
      word start is no longer a lower-case letter, and every other character is kept. */
  lemma CapitalizeWordsSpec(s: string)
    ensures ToLower(CapitalizeWords(s)) == ToLower(s)
    ensures forall i :: 0 <= i < |s| && IsWordStart(s, i) ==> !IsAsciiLower(CapitalizeWords(s)[i])
    ensures forall i :: 0 <= i < |s| && !IsWordStart(s, i) ==> CapitalizeWords(s)[i] == s[i]
  {
    var r := CapitalizeWords(s);
    forall i | 0 <= i < |s| ensures LowerChar(r[i]) == LowerChar(s[i]) {
      if IsWordStart(s, i) && IsAsciiLower(s[i]) {
        assert r[i] == (s[i] as int - 32) as char;
      }
    }
  }

  /** Lower-casing twice is lower-casing once. */
  lemma ToLowerTwice(s: string)
    ensures ToLower(ToLower(s)) == ToLower(s)
  {
  }

  /** `s` with every occurrence of `c` removed, lower-cased, is `s` lower-cased with every
      space removed, for `c` the space. */
  lemma {:induction false} WithoutSpaceToLower(s: string)
    ensures Without(ToLower(s), ' ') == ToLower(Without(s, ' '))
    decreases |s|
  {
    if s != [] {
      WithoutSpaceToLower(s[1..]);
      assert ToLower(s) == [LowerChar(s[0])] + ToLower(s[1..]);
      var head := if s[0] == ' ' then [] else [s[0]];
      assert ToLower(head + Without(s[1..], ' ')) == ToLower(head) + ToLower(Without(s[1..], ' '));
    }
  }

  /** `normalizeHeader`: underscores to spaces, camelCase split, lower-cased, then every
      word start upper-cased. */
  function NormalizeHeader(header: string): string {
    CapitalizeWords(ToLower(SplitCamel(ReplaceChars(header, {'_'}, ' '))))
  }

  /** `normalizeEntity`: trimmed, `_` and `-` to spaces, camelCase split, lower-cased. */
  function NormalizeEntity(entity: string): string {
    ToLower(SplitCamel(ReplaceChars(Trim(entity), {'_', '-'}, ' ')))
  }

  /** Up to letter case, a normalized header is the header with underscores read as
      spaces and camelCase split. */
  lemma NormalizeHeaderLowered(header: string)
    ensures ToLower(NormalizeHeader(header)) == ToLower(SplitCamel(ReplaceChars(header, {'_'}, ' ')))
  {
    var b := SplitCamel(ReplaceChars(header, {'_'}, ' '));
    CapitalizeWordsSpec(ToLower(b));
    ToLowerTwice(b);
  }

  /** Capitalizing keeps every character other than a word start, and changes only the
      case of a word start, so it keeps the word starts themselves. */
  lemma CapitalizeWordsKeepsWordStarts(c: string)
    ensures forall i :: 0 <= i < |c| ==> (IsWordStart(CapitalizeWords(c), i) <==> IsWordStart(c, i))
  {
    var r := CapitalizeWords(c);
    forall i | 0 <= i < |c| ensures IsWordChar(r[i]) <==> IsWordChar(c[i]) {
    }
  }

  /** Capitalizing a text with no upper-case letter leaves an ASCII letter upper case
      exactly when it starts a word. */
  lemma CapitalizeLoweredTitleCase(c: string)
    requires forall i :: 0 <= i < |c| ==> !IsAsciiUpper(c[i])
    ensures forall i :: 0 <= i < |c| && IsAsciiLetter(CapitalizeWords(c)[i]) ==>
              (IsAsciiUpper(CapitalizeWords(c)[i]) <==> IsWordStart(CapitalizeWords(c), i))
  {
    CapitalizeWordsKeepsWordStarts(c);
  }

  /** A normalized header has no underscore. */
  lemma NormalizeHeaderNoUnderscore(header: string)
    ensures '_' !in NormalizeHeader(header)
  {
    var b := SplitCamel(ReplaceChars(header, {'_'}, ' '));
    var c := ToLower(b);
    var r := CapitalizeWords(c);
    SplitCamelSpec(ReplaceChars(header, {'_'}, ' '));
    forall i | 0 <= i < |r| ensures r[i] != '_' {
      assert b[i] in b;
      assert c[i] == LowerChar(b[i]);
    }
  }

  /** An ASCII letter in a normalized header is upper case exactly when it starts a word. */
  lemma NormalizeHeaderWordStarts(header: string)
    ensures forall i :: 0 <= i < |NormalizeHeader(header)| && IsAsciiLetter(NormalizeHeader(header)[i]) ==>
              (IsAsciiUpper(NormalizeHeader(header)[i]) <==> IsWordStart(NormalizeHeader(header), i))
  {
    var c := ToLower(SplitCamel(ReplaceChars(header, {'_'}, ' ')));
    CapitalizeLoweredTitleCase(c);
  }

  /** A normalized header is, up to letter case, the header with underscores read as
      spaces and camelCase split; and it is in title case: it has no underscore, and an
      ASCII letter in it is upper case exactly when it starts a word. */
  lemma NormalizeHeaderTitleCase(header: string)
    ensures ToLower(NormalizeHeader(header)) == ToLower(SplitCamel(ReplaceChars(header, {'_'}, ' ')))
    ensures '_' !in NormalizeHeader(header)
    ensures forall i :: 0 <= i < |NormalizeHeader(header)| && IsAsciiLetter(NormalizeHeader(header)[i]) ==>
              (IsAsciiUpper(NormalizeHeader(header)[i]) <==> IsWordStart(NormalizeHeader(header), i))
  {
    NormalizeHeaderLowered(header);
    NormalizeHeaderNoUnderscore(header);
    NormalizeHeaderWordStarts(header);
  }

  /** A normalized entity name has no `_`, no `-` and no upper-case ASCII letter. */
  lemma NormalizeEntityLowerSpaced(entity: string)
    ensures '_' !in NormalizeEntity(entity) && '-' !in NormalizeEntity(entity)
    ensures forall i :: 0 <= i < |NormalizeEntity(entity)| ==> !IsAsciiUpper(NormalizeEntity(entity)[i])
  {
    var a := ReplaceChars(Trim(entity), {'_', '-'}, ' ');
    var b := SplitCamel(a);
    var r := ToLower(b);
    SplitCamelSpec(a);
    forall i | 0 <= i < |r| ensures r[i] != '_' && r[i] != '-' {
      assert b[i] in b;
    }
  }

  /** Apart from the spaces camelCase splitting adds, a normalized entity name is the
      trimmed name with `_` and `-` read as spaces, lower-cased; a name without a
      lower-upper pair gets no space added. */
  lemma NormalizeEntityContent(entity: string)
    ensures var a := ReplaceChars(Trim(entity), {'_', '-'}, ' ');
      Without(NormalizeEntity(entity), ' ') == ToLower(Without(a, ' '))
    ensures var a := ReplaceChars(Trim(entity), {'_', '-'}, ' ');
      (forall i :: 0 <= i < |a| - 1 ==> !CamelPairAt(a, i)) ==> NormalizeEntity(entity) == ToLower(a)
  {
    var a := ReplaceChars(Trim(entity), {'_', '-'}, ' ');
    SplitCamelSpec(a);
    WithoutSpaceToLower(SplitCamel(a));
    if forall i :: 0 <= i < |a| - 1 ==> !CamelPairAt(a, i) {
      SplitCamelNoPair(a);
    }
  }

  lemma ProductIdSpaced()
    ensures ReplaceChars("PRODUCT_ID", {'_'}, ' ') == "PRODUCT ID"
  {
  }

  lemma ProductIdUnsplit()
    ensures SplitCamel("PRODUCT ID") == "PRODUCT ID"
  {
    assert forall i :: 0 <= i < |"PRODUCT ID"| - 1 ==> !CamelPairAt("PRODUCT ID", i);
    SplitCamelNoPair("PRODUCT ID");
  }

  lemma ProductIdLowered()
    ensures ToLower("PRODUCT ID") == "product id"
  {
  }

  lemma ProductIdCapitalized()
    ensures CapitalizeWords("product id") == "Product Id"
  {
    var s := "product id";
    assert IsWordStart(s, 0) && IsWordStart(s, 8);
    assert forall i :: 0 < i < |s| && i != 8 ==> !IsWordStart(s, i);
  }

  /** The header `PRODUCT_ID` reads `Product Id`. */
  lemma NormalizeHeaderExample()
    ensures NormalizeHeader("PRODUCT_ID") == "Product Id"
  {
    ProductIdSpaced();
    ProductIdUnsplit();
    ProductIdLowered();
    ProductIdCapitalized();
  }

  lemma OrderLineItemTrimmed()
    ensures Trim("order_line-item") == "order_line-item"
  {
    var e := "order_line-item";
    assert TrimFrom(e) == 0;
    assert TrimTo(e) == |e|;
  }

  lemma OrderLineItemSpaced()
    ensures ReplaceChars("order_line-item", {'_', '-'}, ' ') == "order line item"
  {
  }

  lemma OrderLineItemUnsplit()
    ensures SplitCamel("order line item") == "order line item"
  {
    assert forall i :: 0 <= i < |"order line item"| - 1 ==> !CamelPairAt("order line item", i);
    SplitCamelNoPair("order line item");
  }

  lemma OrderLineItemLowered()
    ensures ToLower("order line item") == "order line item"
  {
  }

  /** The entity `order_line-item` reads `order line item`. */
  lemma NormalizeEntityExample()
    ensures NormalizeEntity("order_line-item") == "order line item"
  {
    OrderLineItemTrimmed();
    OrderLineItemSpaced();
    OrderLineItemUnsplit();
    OrderLineItemLowered();
  }

  // ---------------------------------------------------------------- rows

  /** The opening sentence of every serialized row. */
  function Intro(entity: string): string {
    "This record describes a " + entity + "."
  }

  /** The sentence for one non-empty cell. */
  function FieldPart(header: string, value: string): string {
    NormalizeHeader(header) + ": " + value + "."
  }

  /** A cell that is neither `undefined` nor `''`. */
  predicate Filled(cell: Option<string>) {
    cell.Some? && cell.value != ""
  }

  /** The field sentences for `headers`, in order, skipping cells that are not filled. */
  function FieldParts(record: Record, headers: seq<string>): seq<string>
    decreases |headers|
  {
    if headers == [] then []
    else
      var last := headers[|headers| - 1];
      var prev := FieldParts(record, headers[..|headers| - 1]);
      if Filled(Lookup(record, last)) then prev + [FieldPart(last, Lookup(record, last).value)] else prev
  }

  /** Every filled cell contributes its sentence. */
  lemma {:induction false} FilledCellContributes(record: Record, headers: seq<string>, k: nat)
    requires k < |headers| && Filled(Lookup(record, headers[k]))
    ensures FieldPart(headers[k], Lookup(record, headers[k]).value) in FieldParts(record, headers)
    decreases |headers|
  {
    var n := |headers| - 1;
    if k < n {
      assert headers[..n][k] == headers[k];
      FilledCellContributes(record, headers[..n], k);
    }
  }

  /** Every sentence comes from a filled cell: `k` is the header it was made from. */
  lemma {:induction false} FieldPartSource(record: Record, headers: seq<string>, p: string) returns (k: nat)
    requires p in FieldParts(record, headers)
    ensures k < |headers| && Filled(Lookup(record, headers[k]))
    ensures p == FieldPart(headers[k], Lookup(record, headers[k]).value)
    decreases |headers|
  {
    var n := |headers| - 1;
    if p in FieldParts(record, headers[..n]) {
      k := FieldPartSource(record, headers[..n], p);
      assert headers[..n][k] == headers[k];
    } else {
      k := n;
    }
  }

  /** `serializeCSVRow` as a value. */
  function SerializeRow(record: Record, headers: seq<string>, entityName: string): string {
    Join([Intro(NormalizeEntity(entityName))] + FieldParts(record, headers), " ")
  }

  lemma JoinStartsWithFirst(parts: seq<string>, sep: string)
    requires parts != []
    ensures StartsWith(Join(parts, sep), parts[0])
  {
  }

  /** Every serialized row opens with `This record describes a <normalized entity>.`. */
  lemma SerializeRowIntro(record: Record, headers: seq<string>, entityName: string)
    ensures StartsWith(SerializeRow(record, headers, entityName), Intro(NormalizeEntity(entityName)))
  {
    JoinStartsWithFirst([Intro(NormalizeEntity(entityName))] + FieldParts(record, headers), " ");
  }

  /** `serializeCSVRow`: collects the sentences in `parts`, then joins them with single spaces. */
  method SerializeCsvRow(record: Record, headers: seq<string>, entityName: string) returns (text: string)
    ensures text == SerializeRow(record, headers, entityName)
  {
    var parts := [Intro(NormalizeEntity(entityName))];
    for i := 0 to |headers|
      invariant parts == [Intro(NormalizeEntity(entityName))] + FieldParts(record, headers[..i])
    {
      assert headers[..i + 1][..i] == headers[..i];
      var value := Lookup(record, headers[i]);
      if value.None? || value.value == "" {
        continue;
      }
      parts := parts + [FieldPart(headers[i], value.value)];
    }
    assert headers[..|headers|] == headers;
    text := Join(parts, " ");
  }

  // ---------------------------------------------------------------- parseCSV

  /** The row-limit error, for the rendered limit and count. */
  function RowLimitText(limit: string, found: string): string {
    RowLimitHead + limit + ". Found " + found + " rows."
  }

  function RowLimitMessage(found: nat): string {
    RowLimitText(NatToString(MaxCsvRows), NatToString(found))
  }

  /** The opening of the row-limit error, which states the violation. */
  const RowLimitHead: string := "CSV file " + RowLimitViolation + " of "

  const RowLimitViolation: string := "exceeds maximum row limit"

  /** A string that contains `sub` still does after text is appended. */
  lemma {:induction false} ContainsAppend(s: string, t: string, sub: string)
    requires Contains(s, sub)
    ensures Contains(s + t, sub)
    decreases |s|
  {
    if StartsWith(s, sub) {
      assert (s + t)[..|sub|] == s[..|sub|];
    } else {
      assert (s + t)[1..] == s[1..] + t;
      ContainsAppend(s[1..], t, sub);
    }
  }

  /** The row-limit error names the limit and the number of records found. */
  lemma RowLimitTextNamesCounts(limit: string, found: string)
    ensures Contains(RowLimitText(limit, found), RowLimitViolation)
    ensures Contains(RowLimitText(limit, found), limit)
    ensures Contains(RowLimitText(limit, found), found)
  {
    var tail := ". Found " + found + " rows.";
    assert RowLimitText(limit, found) == RowLimitHead + limit + tail;
    ContainsInfix("CSV file ", RowLimitViolation, " of ");
    ContainsAppend(RowLimitHead, limit + tail, RowLimitViolation);
    assert RowLimitHead + limit + tail == RowLimitHead + (limit + tail);
    ContainsInfix(RowLimitHead, limit, tail);
    assert RowLimitHead + limit + tail == (RowLimitHead + limit + ". Found ") + found + " rows.";
    ContainsInfix(RowLimitHead + limit + ". Found ", found, " rows.");
  }

  lemma RowLimitMessageNamesCounts(found: nat)
    ensures Contains(RowLimitMessage(found), RowLimitViolation)
    ensures Contains(RowLimitMessage(found), NatToString(MaxCsvRows))
    ensures Contains(RowLimitMessage(found), NatToString(found))
  {
    RowLimitTextNamesCounts(NatToString(MaxCsvRows), NatToString(found));
  }

  /** What the catch block of `parseCSV` makes of an error thrown by csv-parse. */
  function ParserFailureMessage(thrown: Thrown): string {
    match thrown
    case ErrorObject(m) =>
      if Contains(m, "Invalid") || Contains(m, "parse") then "Invalid CSV format: " + m
      else "Failed to parse CSV: " + m
    case NonError => "Failed to parse CSV: Unknown error"
  }

  /** `parseCSV(csvText, entityName)`, given what csv-parse made of `csvText`.
      An `Err` is a thrown CSVParseError with that message. */
  function ParseCsv(parsed: CsvParserOutcome, entityName: string): (r: Result<ParsedCsv>)
    ensures parsed.Records? && parsed.records == [] ==> r == Err(EmptyCsvMessage)
    ensures parsed.Records? && |parsed.records| > MaxCsvRows && parsed.records[0] != [] ==>
              r == Err(RowLimitMessage(|parsed.records|))
    ensures parsed.ParserThrew? ==> r.Err?
    ensures r.Ok? <==> parsed.Records? && 1 <= |parsed.records| <= MaxCsvRows && parsed.records[0] != []
    ensures r.Ok? ==> |r.value.rows| == |parsed.records|
    ensures r.Ok? ==> forall i :: 0 <= i < |r.value.rows| ==>
              r.value.rows[i].rowIndex == i + 1 &&
              r.value.rows[i].serializedText == SerializeRow(parsed.records[i], Headers(parsed.records[0]), entityName)
  {
    match parsed
    case ParserThrew(t) => Err(ParserFailureMessage(t))
    case Records(records) =>
      if |records| == 0 then Err(EmptyCsvMessage)
      else
        var headers := Headers(records[0]);
        if |headers| == 0 then Err(NoHeadersMessage)
        else if |records| > MaxCsvRows then Err(RowLimitMessage(|records|))
        else Ok(ParsedCsv(seq(|records|, i requires 0 <= i < |records| =>
                                ParsedRow(i + 1, SerializeRow(records[i], headers, entityName)))))
  }

  /** Every parse error carries a non-empty message. */
  lemma ParseCsvErrorNonEmpty(parsed: CsvParserOutcome, entityName: string)
    ensures ParseCsv(parsed, entityName).Err? ==> ParseCsv(parsed, entityName).error != ""
  {
  }
}
