/** The lifecycle reshaper `TransformApplicationLifecycle`: a scan that turns each
    input row's compound column `key]timestamp|key]timestamp|…` into one column per
    sub-key occurrence, and a projection that lays the collected rows out under one
    header list. Input rows are already-read CSV records (column name to text); the
    output is the table that would be written. */
module Lifecycle {
  import opened Results
  import opened Text
  import opened OrderedSet
  import opened Ordering
  import opened Timestamps
  import opened ColumnNames

  /** One CSV record, or one collected data row: column name to cell text. */
  type Row = map<string, string>

  /** The exceptions the scan and the projection raise. */
  datatype Error =
    | MissingColumn(column: string)      // `KeyError` on `row[...]`
    | MalformedSegment(segment: string)  // `IndexError` on `i.split(']')[1]`
    | BadTimestamp(value: string)        // `ValueError` from `strptime`, on the value with `:00` appended
    | HeaderMismatch                     // the forced headers are not a permutation of the found ones

  /** The object's state. `rows` are the data lines of `self.result`; its first line is
      always the current header list (`self.result = [self.headers]` shares the list),
      so the whole table is `Table(t)`. */
  datatype Transformer = Transformer(
    idColumn: string,
    stringColumn: string,
    forcedHeaders: Option<seq<string>>,
    headers: seq<string>,
    data: seq<Row>,
    rows: seq<seq<string>>)

  function Table(t: Transformer): seq<seq<string>> {
    [t.headers] + t.rows
  }

  /** What every state reachable from `Init` satisfies: headers without duplicates
      that include the id column, and every key of every data row among the headers. */
  predicate Consistent(t: Transformer) {
    && NoDup(t.headers)
    && t.idColumn in t.headers
    && forall i, k :: 0 <= i < |t.data| && k in t.data[i] ==> k in t.headers
  }

  /** The constructor: the header list starts as the id column alone, no data is
      collected, and the table is just that header line. */
  function Init(idColumn: string, stringColumn: string, forcedHeaders: Option<seq<string>>): (t: Transformer)
    ensures Consistent(t)
    ensures t.headers == [idColumn] && Table(t) == [[idColumn]]
    ensures t.data == [] && t.forcedHeaders == forcedHeaders
  {
    Transformer(idColumn, stringColumn, forcedHeaders, [idColumn], [], [])
  }

  // ---------------------------------------------------------------------------
  // One segment: `key]timestamp`

  /** `key` is the text before the first `]` of `segment`, and `raw` the text from
      there up to the next `]` or the end. */
  predicate SegmentAt(segment: string, key: string, raw: string) {
    var k := |key|;
    var e := k + 1 + |raw|;
    && e <= |segment|
    && segment[..k] == key && ']' !in key
    && segment[k] == ']'
    && segment[k + 1..e] == raw && ']' !in raw
    && (e < |segment| ==> segment[e] == ']')
  }

  /** `(i.split(']')[0], i.split(']')[1])`: fails exactly when the segment holds no `]`;
      anything after a second `]` is dropped. */
  function ParseSegment(segment: string): (r: Result<(string, string), Error>)
    ensures r.Failure? <==> ']' !in segment
    ensures r.Failure? ==> r.error == MalformedSegment(segment)
  {
    var parts := Split(segment, ']');
    if |parts| < 2 then Failure(MalformedSegment(segment)) else Success((parts[0], parts[1]))
  }

  /** The key is the text before the first `]` and the raw value runs from there to
      the second `]`; anything after that is dropped. */
  lemma ParseSegmentAt(segment: string)
    requires ']' in segment
    ensures SegmentAt(segment, ParseSegment(segment).value.0, ParseSegment(segment).value.1)
  {
    JoinFirstTwo(Split(segment, ']'), ']');
  }

  /** A segment determines its key and raw value. */
  lemma SegmentAtUnique(segment: string, k1: string, r1: string, k2: string, r2: string)
    requires SegmentAt(segment, k1, r1) && SegmentAt(segment, k2, r2)
    ensures k1 == k2 && r1 == r2
  {
    FirstSeparator(segment, |k1|, |k2|);
    FirstSeparator(segment[|k1| + 1..], |r1|, |r2|);
  }

  /** Two positions each holding the first `]` of `s` (or standing at its end) coincide. */
  lemma FirstSeparator(s: string, a: nat, b: nat)
    requires a <= |s| && b <= |s|
    requires ']' !in s[..a] && (a < |s| ==> s[a] == ']')
    requires ']' !in s[..b] && (b < |s| ==> s[b] == ']')
    ensures a == b
  {
    assert forall i :: 0 <= i < a ==> s[i] != ']' by {
      assert forall i :: 0 <= i < a ==> s[..a][i] == s[i];
    }
    assert forall i :: 0 <= i < b ==> s[i] != ']' by {
      assert forall i :: 0 <= i < b ==> s[..b][i] == s[i];
    }
  }

  /** Writing a key and a timestamp around `]` (optionally followed by more `]`-led
      text) and parsing the segment gives them back. */
  lemma ParseWrittenSegment(key: string, raw: string, tail: string)
    requires ']' !in key && ']' !in raw
    requires |tail| > 0 ==> tail[0] == ']'
    ensures ParseSegment(key + [']'] + raw + tail) == Success((key, raw))
  {
    var s := key + [']'] + raw + tail;
    assert s[..|key|] == key;
    assert s[|key| + 1..|key| + 1 + |raw|] == raw;
    assert SegmentAt(s, key, raw);
    var r := ParseSegment(s);
    assert ']' in s by {
      assert s[|key|] == ']';
    }
    ParseSegmentAt(s);
    SegmentAtUnique(s, key, raw, r.value.0, r.value.1);
  }

  // ---------------------------------------------------------------------------
  // One row

  /** The list comprehension of `fetch_data` over `string_value.split('|')`: every
      segment is taken apart before any is used. On failure the result is the
      position of the first segment without `]`, the one whose `IndexError` escapes. */
  function ParseSegments(segments: seq<string>): (r: Result<seq<(string, string)>, nat>)
    ensures r.Success? <==> forall i :: 0 <= i < |segments| ==> ']' in segments[i]
    ensures r.Success? ==> |r.value| == |segments|
    ensures r.Success? ==> forall i :: 0 <= i < |segments| ==> ParseSegment(segments[i]) == Success(r.value[i])
    ensures r.Failure? ==> r.error < |segments| && ']' !in segments[r.error]
    ensures r.Failure? ==> forall j :: 0 <= j < r.error ==> ']' in segments[j]
    decreases |segments|
  {
    if |segments| == 0 then
      Success([])
    else
      match ParseSegment(segments[0])
      case Failure(_) => Failure(0)
      case Success(pair) =>
        match ParseSegments(segments[1..])
        case Failure(i) => Failure(i + 1)
        case Success(rest) => Success([pair] + rest)
  }

  /** The sub-keys of the parsed segments, in order. */
  function KeysOf(pairs: seq<(string, string)>): (keys: seq<string>)
    ensures |keys| == |pairs| && forall i :: 0 <= i < |pairs| ==> keys[i] == pairs[i].0
  {
    seq(|pairs|, i requires 0 <= i < |pairs| => pairs[i].0)
  }

  /** The raw timestamps of the parsed segments, in order. */
  function RawsOf(pairs: seq<(string, string)>): (raws: seq<string>)
    ensures |raws| == |pairs| && forall i :: 0 <= i < |pairs| ==> raws[i] == pairs[i].1
  {
    seq(|pairs|, i requires 0 <= i < |pairs| => pairs[i].1)
  }

  /** Applies `f` to each element in turn. On failure the result is the position of
      the first element `f` rejects. */
  function Traverse(f: string -> Option<string>, xs: seq<string>): (r: Result<seq<string>, nat>)
    ensures r.Success? <==> forall i :: 0 <= i < |xs| ==> f(xs[i]).Some?
    ensures r.Success? ==> |r.value| == |xs|
    ensures r.Success? ==> forall i :: 0 <= i < |xs| ==> f(xs[i]) == Some(r.value[i])
    ensures r.Failure? ==> r.error < |xs| && f(xs[r.error]).None?
    ensures r.Failure? ==> forall j :: 0 <= j < r.error ==> f(xs[j]).Some?
    decreases |xs|
  {
    if |xs| == 0 then
      Success([])
    else
      match f(xs[0])
      case None => Failure(0)
      case Some(value) =>
        match Traverse(f, xs[1..])
        case Failure(i) => Failure(i + 1)
        case Success(rest) => Success([value] + rest)
  }

  /** `data_row`: the id entry first, then `data_row[column_name] = value` for each
      generated column in turn (a later write to the same key wins). */
  function RowFields(idColumn: string, idValue: string, names: seq<string>, values: seq<string>): (fields: Row)
    requires |names| == |values|
    ensures forall k :: k in fields <==> k == idColumn || k in names
    ensures idColumn !in names ==> fields[idColumn] == idValue
    ensures NoDup(names) ==> forall j :: 0 <= j < |names| ==> fields[names[j]] == values[j]
    decreases |names|
  {
    if |names| == 0 then
      map[idColumn := idValue]
    else
      var n := |names| - 1;
      var init := RowFields(idColumn, idValue, names[..n], values[..n]);
      assert forall k :: k in names <==> k in names[..n] || k == names[n] by {
        assert names == names[..n] + [names[n]];
      }
      init[names[n] := values[n]]
  }

  /** The compound column of one row taken apart: the sub-key and the stored
      (re-rendered) timestamp of each segment, in order. All segments are split
      first (the list comprehension), then the timestamps are read one by one. */
  function ParseCompound(value: string): (r: Result<(seq<string>, seq<string>), Error>)
    ensures r.Success? ==> |r.value.0| == |r.value.1| == |Split(value, '|')|
  {
    var segments := Split(value, '|');
    match ParseSegments(segments)
    case Failure(i) => Failure(MalformedSegment(segments[i]))
    case Success(pairs) =>
      match Traverse(Normalize, RawsOf(pairs))
      case Failure(i) => Failure(BadTimestamp(RawsOf(pairs)[i] + ":00"))
      case Success(values) => Success((KeysOf(pairs), values))
  }

  /** A segment the row loop gets through: it holds a `]` and its timestamp parses. */
  predicate SegmentOk(segment: string) {
    ParseSegment(segment).Success? && Normalize(ParseSegment(segment).value.1).Some?
  }

  /** The compound column is taken apart without an exception exactly when every
      segment holds a `]` and every timestamp parses. */
  lemma {:induction false} ParseCompoundSucceeds(value: string)
    ensures ParseCompound(value).Success? ==>
      forall i :: 0 <= i < |Split(value, '|')| ==> SegmentOk(Split(value, '|')[i])
    ensures (forall i :: 0 <= i < |Split(value, '|')| ==> SegmentOk(Split(value, '|')[i])) ==>
      ParseCompound(value).Success?
  {
    var segments := Split(value, '|');
    var parsed := ParseSegments(segments);
    if parsed.Success? {
      RawsParse(segments);
      var values := Traverse(Normalize, RawsOf(parsed.value));
      if values.Failure? {
        assert !SegmentOk(segments[values.error]);
      }
    } else {
      assert !SegmentOk(segments[parsed.error]);
    }
  }

  /** Once every segment is taken apart, a segment is fine exactly when its raw
      timestamp parses. */
  lemma RawsParse(segments: seq<string>)
    requires ParseSegments(segments).Success?
    ensures var raws := RawsOf(ParseSegments(segments).value);
      forall i :: 0 <= i < |segments| ==> (SegmentOk(segments[i]) <==> Normalize(raws[i]).Some?)
  {
  }

  /** The first segment without `]` decides the error, whatever the timestamps before
      it look like: the comprehension runs over the whole row first. */
  lemma MalformedSegmentFirst(value: string, i: nat)
    requires i < |Split(value, '|')| && ']' !in Split(value, '|')[i]
    requires forall j :: 0 <= j < i ==> ']' in Split(value, '|')[j]
    ensures ParseCompound(value) == Failure(MalformedSegment(Split(value, '|')[i]))
  {
    var parsed := ParseSegments(Split(value, '|'));
    assert parsed.Failure?;
    assert parsed.error == i;
  }

  /** An empty compound value is one empty segment, which has no `]`. */
  lemma EmptyCompoundFails()
    ensures ParseCompound("") == Failure(MalformedSegment(""))
  {
    assert Split("", '|') == [""];
  }

  /** With every segment holding a `]`, the first timestamp that does not parse
      decides the error, which names the value with `:00` appended. */
  lemma BadTimestampFirst(value: string, i: nat)
    requires forall j :: 0 <= j < |Split(value, '|')| ==> ']' in Split(value, '|')[j]
    requires i < |Split(value, '|')|
    requires Normalize(ParseSegment(Split(value, '|')[i]).value.1).None?
    requires forall j :: 0 <= j < i ==> SegmentOk(Split(value, '|')[j])
    ensures ParseCompound(value) == Failure(BadTimestamp(ParseSegment(Split(value, '|')[i]).value.1 + ":00"))
  {
    var segments := Split(value, '|');
    var raws := RawsOf(ParseSegments(segments).value);
    var values := Traverse(Normalize, raws);
    assert values.Failure?;
    assert values.error == i;
  }

  /** What the scan keeps of one row: the data row and the column names it produced,
      in segment order. */
  datatype ParsedRow = ParsedRow(fields: Row, names: seq<string>)

  /** Every key of a parsed row is the id column or one of the row's columns. */
  predicate KeysListed(idColumn: string, p: ParsedRow) {
    forall k :: k in p.fields ==> k == idColumn || k in p.names
  }

  /** The body of the `for row in csvreader` loop for one row, in the order the code
      raises: the id column, the compound column, then the segments and timestamps. */
  function ParseRow(row: Row, idColumn: string, stringColumn: string): Result<ParsedRow, Error> {
    if idColumn !in row then
      Failure(MissingColumn(idColumn))
    else if stringColumn !in row then
      Failure(MissingColumn(stringColumn))
    else
      var compound :- ParseCompound(row[stringColumn]);
      var names := NameColumns(compound.0).0;
      Success(ParsedRow(RowFields(idColumn, row[idColumn], names, compound.1), names))
  }

  /** The exceptions of one row, in the order the code raises them, and the shape of
      a scanned row: its columns are pairwise distinct, and its keys are the id
      column and those columns. */
  lemma ParseRowShape(row: Row, idColumn: string, stringColumn: string)
    ensures var r := ParseRow(row, idColumn, stringColumn);
      && (idColumn !in row ==> r == Failure(MissingColumn(idColumn)))
      && (idColumn in row && stringColumn !in row ==> r == Failure(MissingColumn(stringColumn)))
      && (idColumn in row && stringColumn in row && ParseCompound(row[stringColumn]).Failure? ==>
            r == Failure(ParseCompound(row[stringColumn]).error))
      && (r.Success? <==> idColumn in row && stringColumn in row && ParseCompound(row[stringColumn]).Success?)
      && (r.Success? ==> NoDup(r.value.names))
      && (r.Success? ==> forall k :: k in r.value.fields <==> k == idColumn || k in r.value.names)
  {
    if idColumn in row && stringColumn in row && ParseCompound(row[stringColumn]).Success? {
      NamesDistinct(ParseCompound(row[stringColumn]).value.0);
    }
  }

  /** What a parsed compound column holds: segment by segment, the sub-key before the
      first `]` and the re-rendered timestamp. */
  lemma CompoundContents(value: string)
    requires ParseCompound(value).Success?
    ensures var c := ParseCompound(value).value;
      var segments := Split(value, '|');
      forall j :: 0 <= j < |segments| ==>
        && ParseSegment(segments[j]).Success?
        && c.0[j] == ParseSegment(segments[j]).value.0
        && Normalize(ParseSegment(segments[j]).value.1) == Some(c.1[j])
  {
  }

  /** The data row of a scanned row: the n-th occurrence of a sub-key (counted from
      zero, within this row only) becomes the column `{key}_{n}` holding that
      segment's stored timestamp, and the id value stays unless a generated column has
      the id column's name. */
  lemma ParseRowContents(row: Row, idColumn: string, stringColumn: string)
    requires ParseRow(row, idColumn, stringColumn).Success?
    ensures stringColumn in row && ParseCompound(row[stringColumn]).Success?
    ensures var p := ParseRow(row, idColumn, stringColumn).value;
      var c := ParseCompound(row[stringColumn]).value;
      && |p.names| == |c.0| == |c.1|
      && (forall j :: 0 <= j < |c.0| ==> p.names[j] == ColumnName(c.0[j], multiset(c.0[..j])[c.0[j]]))
      && (forall j :: 0 <= j < |c.0| ==> p.fields[p.names[j]] == c.1[j])
      && (idColumn !in p.names ==> p.fields[idColumn] == row[idColumn])
  {
    var c := ParseCompound(row[stringColumn]).value;
    var names := NameColumns(c.0).0;
    assert ParseRow(row, idColumn, stringColumn).value
        == ParsedRow(RowFields(idColumn, row[idColumn], names, c.1), names);
    NamesDistinct(c.0);
  }

  /** Numbering restarts in every row: the first occurrence of a sub-key within a
      row is always numbered 0, whatever earlier rows held. */
  lemma FirstOccurrenceIsZero(keys: seq<string>, j: nat)
    requires j < |keys| && keys[j] !in keys[..j]
    ensures NameColumns(keys).0[j] == ColumnName(keys[j], 0)
  {
    assert multiset(keys[..j])[keys[j]] == 0;
  }

  // ---------------------------------------------------------------------------
  // The scan: `fetch_data`

  /** The per-row step of `fetch_data` for the configured columns. */
  function Parser(idColumn: string, stringColumn: string): Row -> Result<ParsedRow, Error> {
    row => ParseRow(row, idColumn, stringColumn)
  }

  /** The columns of all rows, one row after the other, repeats included (a row that
      fails contributes none). */
  function DiscoveredNames(rows: seq<Row>, parse: Row -> Result<ParsedRow, Error>): seq<string>
    decreases |rows|
  {
    if |rows| == 0 then
      []
    else
      var last := parse(rows[|rows| - 1]);
      DiscoveredNames(rows[..|rows| - 1], parse) + (if last.Success? then last.value.names else [])
  }

  /** The `for row in csvreader` loop with a given per-row step: each row's columns
      are appended to the header list unless already listed, and its data row is
      appended to the data. The first row that fails aborts the whole scan. */
  function Scan(t: Transformer, rows: seq<Row>, parse: Row -> Result<ParsedRow, Error>): (r: Result<Transformer, Error>)
    ensures r.Success? ==> forall i :: 0 <= i < |rows| ==> parse(rows[i]).Success?
    ensures (forall i :: 0 <= i < |rows| ==> parse(rows[i]).Success?) ==> r.Success?
    ensures r.Success? ==> r.value.(headers := t.headers, data := t.data) == t
    decreases |rows|
  {
    if |rows| == 0 then
      Success(t)
    else
      var n := |rows| - 1;
      var s :- Scan(t, rows[..n], parse);
      var p :- parse(rows[n]);
      Success(s.(headers := AppendAll(s.headers, p.names), data := s.data + [p.fields]))
  }

  /** The header list after the scan is the one before it with every discovered
      column appended at its first discovery, across rows. */
  lemma {:induction false} ScanHeaders(t: Transformer, rows: seq<Row>, parse: Row -> Result<ParsedRow, Error>)
    requires Scan(t, rows, parse).Success?
    ensures Scan(t, rows, parse).value.headers == AppendAll(t.headers, DiscoveredNames(rows, parse))
    decreases |rows|
  {
    if |rows| > 0 {
      var n := |rows| - 1;
      ScanHeaders(t, rows[..n], parse);
      AppendAllConcat(t.headers, DiscoveredNames(rows[..n], parse), parse(rows[n]).value.names);
    }
  }

  /** The scan keeps the earlier data and appends one data row per input row, in
      input order. */
  lemma {:induction false} ScanData(t: Transformer, rows: seq<Row>, parse: Row -> Result<ParsedRow, Error>)
    requires Scan(t, rows, parse).Success?
    ensures var data := Scan(t, rows, parse).value.data;
      && |data| == |t.data| + |rows|
      && data[..|t.data|] == t.data
      && forall i :: 0 <= i < |rows| ==> data[|t.data| + i] == parse(rows[i]).value.fields
    decreases |rows|
  {
    if |rows| > 0 {
      var n := |rows| - 1;
      ScanData(t, rows[..n], parse);
      var data := Scan(t, rows, parse).value.data;
      var prev := Scan(t, rows[..n], parse).value.data;
      assert data == prev + [parse(rows[n]).value.fields];
      assert data[..|t.data|] == prev[..|t.data|];
      forall i | 0 <= i < |rows|
        ensures data[|t.data| + i] == parse(rows[i]).value.fields
      {
        if i < n {
          assert data[|t.data| + i] == prev[|t.data| + i];
          assert rows[..n][i] == rows[i];
        }
      }
    }
  }

  /** The scan stops at the first row that fails, with that row's error. */
  lemma {:induction false} ScanFirstError(t: Transformer, rows: seq<Row>, parse: Row -> Result<ParsedRow, Error>, i: nat)
    requires i < |rows| && parse(rows[i]).Failure?
    requires forall j :: 0 <= j < i ==> parse(rows[j]).Success?
    ensures Scan(t, rows, parse) == Failure(parse(rows[i]).error)
    decreases |rows|
  {
    var n := |rows| - 1;
    if i < n {
      ScanFirstError(t, rows[..n], parse, i);
    } else {
      assert Scan(t, rows[..n], parse).Success?;
    }
  }

  /** `fetch_data` over already-read records. */
  function FetchData(t: Transformer, rows: seq<Row>): (r: Result<Transformer, Error>)
    ensures r.Success? ==> forall i :: 0 <= i < |rows| ==> ParseRow(rows[i], t.idColumn, t.stringColumn).Success?
    ensures (forall i :: 0 <= i < |rows| ==> ParseRow(rows[i], t.idColumn, t.stringColumn).Success?) ==> r.Success?
    ensures r.Success? ==> r.value.(headers := t.headers, data := t.data) == t
  {
    Scan(t, rows, Parser(t.idColumn, t.stringColumn))
  }

  /** The first row that raises ends the scan with its exception. */
  lemma FetchDataFirstError(t: Transformer, rows: seq<Row>, i: nat)
    requires i < |rows| && ParseRow(rows[i], t.idColumn, t.stringColumn).Failure?
    requires forall j :: 0 <= j < i ==> ParseRow(rows[j], t.idColumn, t.stringColumn).Success?
    ensures FetchData(t, rows) == Failure(ParseRow(rows[i], t.idColumn, t.stringColumn).error)
  {
    ScanFirstError(t, rows, Parser(t.idColumn, t.stringColumn), i);
  }

  /** A scan from a consistent state leaves a consistent state, given a per-row step
      whose data rows only use the id column and the row's own columns. */
  lemma {:induction false} ScanConsistent(t: Transformer, rows: seq<Row>, parse: Row -> Result<ParsedRow, Error>)
    requires Consistent(t) && Scan(t, rows, parse).Success?
    requires forall i :: 0 <= i < |rows| ==> KeysListed(t.idColumn, parse(rows[i]).value)
    ensures Consistent(Scan(t, rows, parse).value)
    decreases |rows|
  {
    if |rows| > 0 {
      var n := |rows| - 1;
      ScanConsistent(t, rows[..n], parse);
      var s := Scan(t, rows[..n], parse).value;
      var p := parse(rows[n]).value;
      assert KeysListed(t.idColumn, p);
      AppendAllMembers(s.headers, p.names);
      var r := Scan(t, rows, parse).value;
      assert r.headers == AppendAll(s.headers, p.names) && r.data == s.data + [p.fields];
      forall i, k | 0 <= i < |r.data| && k in r.data[i]
        ensures k in r.headers
      {
        if i < |s.data| {
          assert r.data[i] == s.data[i];
        }
      }
    }
  }

  /** A scan from a consistent state leaves a consistent state: the header list stays
      duplicate-free and keeps the id column, and every key of every data row,
      old or new, is a header. */
  lemma FetchDataConsistent(t: Transformer, rows: seq<Row>)
    requires Consistent(t) && FetchData(t, rows).Success?
    ensures Consistent(FetchData(t, rows).value)
  {
    var parse := Parser(t.idColumn, t.stringColumn);
    forall i | 0 <= i < |rows|
      ensures KeysListed(t.idColumn, parse(rows[i]).value)
    {
      assert parse(rows[i]) == ParseRow(rows[i], t.idColumn, t.stringColumn);
      ParseRowShape(rows[i], t.idColumn, t.stringColumn);
    }
    ScanConsistent(t, rows, parse);
  }

  /** The data after `fetch_data`: the earlier data rows, then the data row of each
      input row, in input order. */
  lemma FetchDataRows(t: Transformer, rows: seq<Row>)
    requires FetchData(t, rows).Success?
    ensures var data := FetchData(t, rows).value.data;
      && |data| == |t.data| + |rows|
      && data[..|t.data|] == t.data
      && forall i :: 0 <= i < |rows| ==> data[|t.data| + i] == ParseRow(rows[i], t.idColumn, t.stringColumn).value.fields
  {
    var parse := Parser(t.idColumn, t.stringColumn);
    ScanData(t, rows, parse);
    forall i | 0 <= i < |rows|
      ensures parse(rows[i]) == ParseRow(rows[i], t.idColumn, t.stringColumn)
    {
    }
  }

  /** `fetch_data` on a fresh object: the header list is the id column followed by the
      distinct discovered columns in first-discovery order, without duplicates, and
      there is one data row per input row. */
  lemma ScanFromInit(idColumn: string, stringColumn: string, forced: Option<seq<string>>, rows: seq<Row>)
    requires FetchData(Init(idColumn, stringColumn, forced), rows).Success?
    ensures var r := FetchData(Init(idColumn, stringColumn, forced), rows).value;
      && r.headers == Firsts([idColumn] + DiscoveredNames(rows, Parser(idColumn, stringColumn)))
      && r.headers[0] == idColumn
      && Consistent(r)
      && |r.data| == |rows|
  {
    var t := Init(idColumn, stringColumn, forced);
    var parse := Parser(idColumn, stringColumn);
    var names := DiscoveredNames(rows, parse);
    ScanHeaders(t, rows, parse);
    ScanData(t, rows, parse);
    AppendAllIsFirsts([idColumn], names);
    AppendAllMembers([idColumn], names);
    FetchDataConsistent(t, rows);
  }

  // ---------------------------------------------------------------------------
  // The projection: `transform`

  /** `row.get(h, '')`. */
  function Lookup(row: Row, h: string): string {
    if h in row then row[h] else ""
  }

  /** A Python `dict` from strings to strings: its entries, and its keys in insertion
      order. */
  datatype Dict = Dict(keys: seq<string>, entries: map<string, string>)

  /** The entries of `{i: row.get(i, '') for i in headers}`: every header maps to the
      row's value for it, or `''`. */
  function Entries(row: Row, headers: seq<string>): (m: map<string, string>)
    ensures forall h :: h in m <==> h in headers
    ensures forall h :: h in m ==> m[h] == Lookup(row, h)
    decreases |headers|
  {
    if |headers| == 0 then
      map[]
    else
      var n := |headers| - 1;
      assert forall h :: h in headers <==> h in headers[..n] || h == headers[n] by {
        assert headers == headers[..n] + [headers[n]];
      }
      Entries(row, headers[..n])[headers[n] := Lookup(row, headers[n])]
  }

  /** `{i: row.get(i, '') for i in headers}`, built one header at a time: a key is
      placed when first inserted, so a repeated header keeps its first position. */
  function NewRow(row: Row, headers: seq<string>): (d: Dict)
    ensures d.keys == Firsts(headers)
    ensures forall h :: h in d.entries <==> h in headers
    ensures forall h :: h in d.entries ==> d.entries[h] == Lookup(row, h)
  {
    assert [] + headers == headers;
    AppendAllIsFirsts([], headers);
    Dict(AppendAll([], headers), Entries(row, headers))
  }

  /** `[new_row[i] for i in new_row]`: the values in key order. */
  function Values(d: Dict): seq<string>
    requires forall j :: 0 <= j < |d.keys| ==> d.keys[j] in d.entries
  {
    seq(|d.keys|, j requires 0 <= j < |d.keys| => d.entries[d.keys[j]])
  }

  /** One output line for one data row. */
  function ProjectRow(row: Row, headers: seq<string>): seq<string> {
    var d := NewRow(row, headers);
    Values(d)
  }

  /** An output line has one cell per distinct header, in header order, holding the
      row's value for that header or `''`. For a header list without duplicates that
      is exactly one cell per header. */
  lemma ProjectRowCells(row: Row, headers: seq<string>)
    ensures |ProjectRow(row, headers)| == |Firsts(headers)|
    ensures forall j :: 0 <= j < |Firsts(headers)| ==> ProjectRow(row, headers)[j] == Lookup(row, Firsts(headers)[j])
    ensures NoDup(headers) ==> |ProjectRow(row, headers)| == |headers|
    ensures NoDup(headers) ==> forall j :: 0 <= j < |headers| ==> ProjectRow(row, headers)[j] == Lookup(row, headers[j])
  {
    if NoDup(headers) {
      FirstsOfNoDup(headers);
    }
  }

  /** The header list `transform` lays the table out under: the forced one, if given
      and equal to the found one once both are sorted; otherwise the found one. */
  function SelectHeaders(t: Transformer): (r: Result<seq<string>, Error>)
    ensures r.Failure? ==> t.forcedHeaders.Some? && multiset(t.forcedHeaders.value) != multiset(t.headers)
    ensures t.forcedHeaders.Some? && multiset(t.forcedHeaders.value) != multiset(t.headers) ==> r.Failure?
    ensures r.Failure? ==> r.error == HeaderMismatch
  {
    match t.forcedHeaders
    case None => Success(t.headers)
    case Some(forced) =>
      SortEqualIffSameMultiset(forced, t.headers);
      if Sort(forced) != Sort(t.headers) then Failure(HeaderMismatch) else Success(forced)
  }

  /** `transform`: the header line followed by one output line per data row. A
      rejected forced header list leaves the object as it was. */
  function Transform(t: Transformer): (r: Result<Transformer, Error>)
    ensures r.Failure? ==> t.forcedHeaders.Some? && multiset(t.forcedHeaders.value) != multiset(t.headers)
    ensures t.forcedHeaders.Some? && multiset(t.forcedHeaders.value) != multiset(t.headers) ==> r.Failure?
    ensures r.Failure? ==> r.error == HeaderMismatch
    ensures r.Success? ==> r.value.headers == (if t.forcedHeaders.Some? then t.forcedHeaders.value else t.headers)
    ensures r.Success? ==> r.value.(headers := t.headers, rows := t.rows) == t
    ensures r.Success? ==> |r.value.rows| == |t.data|
  {
    var headers :- SelectHeaders(t);
    Success(t.(headers := headers, rows := seq(|t.data|, i requires 0 <= i < |t.data| => ProjectRow(t.data[i], headers))))
  }

  /** The table after `transform` from a state with a duplicate-free header list: the
      new header list has no duplicates either, and line `i + 1` holds, for each
      header in turn, data row `i`'s value for it or `''`. */
  lemma TransformTable(t: Transformer)
    requires NoDup(t.headers) && Transform(t).Success?
    ensures var r := Transform(t).value;
      && NoDup(r.headers)
      && |Table(r)| == |t.data| + 1
      && forall i :: 0 <= i < |t.data| ==>
        && |Table(r)[i + 1]| == |r.headers|
        && forall j :: 0 <= j < |r.headers| ==> Table(r)[i + 1][j] == Lookup(t.data[i], r.headers[j])
  {
    var r := Transform(t).value;
    if t.forcedHeaders.Some? {
      NoDupPermutation(r.headers, t.headers);
    }
    forall i | 0 <= i < |t.data|
      ensures |Table(r)[i + 1]| == |r.headers|
      ensures forall j :: 0 <= j < |r.headers| ==> Table(r)[i + 1][j] == Lookup(t.data[i], r.headers[j])
    {
      TransformLine(t, i);
    }
  }

  /** Line `i + 1` of the table after `transform`, for a duplicate-free header list:
      one cell per header, holding data row `i`'s value for it or `''`. */
  lemma TransformLine(t: Transformer, i: nat)
    requires Transform(t).Success? && NoDup(Transform(t).value.headers)
    requires i < |t.data|
    ensures var r := Transform(t).value;
      && |Table(r)[i + 1]| == |r.headers|
      && forall j :: 0 <= j < |r.headers| ==> Table(r)[i + 1][j] == Lookup(t.data[i], r.headers[j])
  {
    var r := Transform(t).value;
    assert Table(r)[i + 1] == r.rows[i] == ProjectRow(t.data[i], r.headers);
    ProjectRowCells(t.data[i], r.headers);
  }

  /** `transform` keeps a consistent state consistent: an accepted forced list is a
      permutation of the found headers, so it has no duplicates and lists the id column
      and every data key. */
  lemma TransformConsistent(t: Transformer)
    requires Consistent(t) && Transform(t).Success?
    ensures Consistent(Transform(t).value)
  {
    var r := Transform(t).value;
    if t.forcedHeaders.Some? {
      NoDupPermutation(r.headers, t.headers);
      assert forall h :: h in t.headers ==> h in r.headers by {
        assert forall h :: h in t.headers <==> h in multiset(t.headers);
        assert forall h :: h in r.headers <==> h in multiset(r.headers);
      }
    }
  }

  /** Running `transform` a second time changes nothing. */
  lemma TransformIdempotent(t: Transformer)
    requires Transform(t).Success?
    ensures Transform(Transform(t).value) == Transform(t)
  {
    var r := Transform(t).value;
    if t.forcedHeaders.Some? {
      SortEqualIffSameMultiset(r.headers, r.headers);
    }
  }

  // ---------------------------------------------------------------------------
  // The whole run: construct, `fetch_data`, `transform`

  /** The object's life as `main` drives it, minus the file I/O: the table that
      `output_result` would write. */
  function Run(idColumn: string, stringColumn: string, forced: Option<seq<string>>, rows: seq<Row>): Result<seq<seq<string>>, Error> {
    var scanned :- FetchData(Init(idColumn, stringColumn, forced), rows);
    var projected :- Transform(scanned);
    Success(Table(projected))
  }

  /** The header line of a successful run has no duplicates, holds the id column and
      is a permutation of the columns found by the scan (exactly those, in
      first-discovery order, when no order is forced). */
  lemma RunHeader(idColumn: string, stringColumn: string, forced: Option<seq<string>>, rows: seq<Row>,
                  table: seq<seq<string>>)
    requires Run(idColumn, stringColumn, forced, rows) == Success(table)
    ensures var found := Firsts([idColumn] + DiscoveredNames(rows, Parser(idColumn, stringColumn)));
      && |table| == |rows| + 1
      && NoDup(table[0]) && idColumn in table[0]
      && multiset(table[0]) == multiset(found)
      && (forced.None? ==> table[0] == found)
      && (forced.Some? ==> table[0] == forced.value)
  {
    var t := Init(idColumn, stringColumn, forced);
    var scanned := FetchData(t, rows).value;
    ScanFromInit(idColumn, stringColumn, forced, rows);
    TransformConsistent(scanned);
  }

  /** Line `i + 1` of a successful run's table belongs to input row `i`: it is as wide
      as the header line and holds that row's stored value for each header, or `''`. */
  lemma RunLine(idColumn: string, stringColumn: string, forced: Option<seq<string>>, rows: seq<Row>,
                table: seq<seq<string>>, i: nat)
    requires Run(idColumn, stringColumn, forced, rows) == Success(table)
    requires i < |rows|
    ensures |table| == |rows| + 1
    ensures |table[i + 1]| == |table[0]|
    ensures forall j :: 0 <= j < |table[0]| ==>
      table[i + 1][j] == Lookup(ParseRow(rows[i], idColumn, stringColumn).value.fields, table[0][j])
  {
    var t := Init(idColumn, stringColumn, forced);
    var scanned := FetchData(t, rows).value;
    FetchDataConsistent(t, rows);
    FetchDataRows(t, rows);
    TransformTable(scanned);
    assert scanned.data[|t.data| + i] == ParseRow(rows[i], idColumn, stringColumn).value.fields;
  }
}
