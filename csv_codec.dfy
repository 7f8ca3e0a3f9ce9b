/**
 * The CSV codec of handlers/csv/plugin.go at the level of rows of cells: a
 * file is the sequence of rows Go's `encoding/csv` reads or writes, so the
 * quoting and the delimiter's byte-level role are below this model.
 */
module CsvCodec {
  import opened Wrappers
  import opened Text
  import opened Model
  import OptionalBools

  /** What `csv.Reader` reports: no header at all (`io.EOF`), a row whose
      field count differs from the header's (`csv.ErrFieldCount`, with the
      1-based line of the row), or text that is not rows of cells. */
  datatype CsvError = Eof | FieldCount(line: nat) | Malformed

  const DefaultDelimiter := ","
  const DelimiterKey := "delimiter"
  const BlankMessage := "cannot be blank"
  const LengthMessage := "the length must be exactly 1"

  /** Bytes in the UTF-8 encoding of one character. */
  function Utf8Size(c: char): (n: nat)
    ensures 1 <= n <= 4
    ensures n == 1 <==> c as int < 0x80
  {
    if c as int < 0x80 then 1
    else if c as int < 0x800 then 2
    else if c as int < 0x10000 then 3
    else 4
  }

  /** `len(s)` in Go: the UTF-8 byte count, which ozzo's `Length` rule
      measures. */
  function Utf8Length(s: string): (n: nat)
    ensures |s| <= n <= 4 * |s|
  {
    if s == [] then 0 else Utf8Size(s[0]) + Utf8Length(s[1..])
  }

  /** A string is one byte long exactly when it is one ASCII character. */
  lemma {:induction false} OneByte(s: string)
    ensures Utf8Length(s) == 1 <==> |s| == 1 && s[0] as int < 0x80
  {
    if |s| >= 2 {
      assert Utf8Length(s) >= 2;
    }
  }

  /** The shape of PocketBase's default layout "2006-01-02 15:04:05.000Z":
      digits, with the separators at their places. */
  predicate IsDateText(s: string) {
    && |s| == 24
    && s[4] == '-' && s[7] == '-' && s[10] == ' ' && s[13] == ':' && s[16] == ':'
    && s[19] == '.' && s[23] == 'Z'
    && forall i :: 0 <= i < 23 && i !in {4, 7, 10, 13, 16, 19} ==> '0' <= s[i] <= '9'
  }

  /** `types.ParseDateTime`: nil and "" give the zero time, text in the
      default layout gives that time, anything else is an error. */
  function ParseDateTime(v: Value): (r: Option<DateTime>)
    ensures r.Some? ==> r.value == ZeroDateTime || IsDateText(r.value.text)
    ensures v == Nil || v == Str("") ==> r == Some(ZeroDateTime)
    ensures v.Str? && IsDateText(v.s) ==> r == Some(DateTime(v.s))
  {
    match v
    case Nil => Some(ZeroDateTime)
    case Str(s) => if s == "" then Some(ZeroDateTime) else if IsDateText(s) then Some(DateTime(s)) else None
    case _ => None
  }

  /** A cell as the decoder hands it on: the two-character text `""`
      stands for nil, every other cell is its string. */
  function CellValue(cell: string): (v: Value)
    ensures v == Nil <==> cell == "\"\""
    ensures v != Nil ==> v == Str(cell)
  {
    if cell == "\"\"" then Nil else Str(cell)
  }

  /** The value `record.Set` stores for a field of type `t`: text fields
      keep the string (nil becomes ""), bool fields parse it (what does not
      parse is false), a password field takes it as the new plain password;
      autodate and other types keep the value given (their own
      normalisation is not part of this model). */
  function PrepareValue(t: FieldType, v: Value): (r: Value)
    ensures t == TextField ==> r == Str(if v.Str? then v.s else "")
    ensures t == BoolField ==> r == Bool(OptionalBools.ParseBool(if v.Str? then v.s else "") == Some(true))
    ensures t == BoolField && v.Str? && v.s !in {"1", "t", "T", "TRUE", "true", "True"} ==> r == Bool(false)
    ensures t == PasswordField ==> r.Password? && r.plain == (if v.Str? then v.s else "")
    ensures t.OtherField? || t == AutodateField ==> r == v
  {
    var text := if v.Str? then v.s else "";
    match t
    case TextField => Str(text)
    case BoolField => Bool(OptionalBools.ParseBool(text) == Some(true))
    case PasswordField => Password(text, text)
    case AutodateField => v
    case OtherField(_) => v
  }

  /** The text a cell gets for `record.Get(name)`: strings verbatim,
      date-times through `String()`, everything else as its JSON. A password
      value never reaches a cell, since password fields are not exported. */
  function CellText(v: Value): (cell: string)
    ensures v.Str? ==> cell == v.s
    ensures v.Date? ==> cell == v.d.text
    ensures v == Nil ==> cell == "null"
  {
    match v
    case Nil => "null"
    case Str(s) => s
    case Date(d) => d.text
    case Bool(b) => if b then "true" else "false"
    case Json(text) => text
    case Password(_, _) => ""
  }

  /** A name the header carries: a field of the collection (as
      `Fields.AsMap` sees it) that is not a password field and, in an auth
      collection, not the token key. */
  predicate Exported(c: Collection, name: string) {
    var types := FieldTypes(c.fields);
    name in types && types[name] != PasswordField && !(c.kind == Auth && name == TokenKeyName)
  }

  ghost predicate Distinct(s: seq<string>) {
    forall i, j :: 0 <= i < j < |s| ==> s[i] != s[j]
  }

  /** A header for `c`: every exported name once, in any order. */
  ghost predicate IsHeader(header: seq<string>, c: Collection) {
    Distinct(header) && forall n :: n in header <==> Exported(c, n)
  }

  /** The cells of one record under `header`. */
  function DataRow(header: seq<string>, r: Record): (row: seq<string>)
    ensures |row| == |header|
  {
    seq(|header|, k requires 0 <= k < |header| => CellText(Get(r, header[k])))
  }

  function DataRows(header: seq<string>, records: seq<Record>): (rows: seq<seq<string>>)
    ensures |rows| == |records|
  {
    seq(|records|, i requires 0 <= i < |records| => DataRow(header, records[i]))
  }

  /** What `EncodeRecords` may write: nothing for no records; otherwise a
      header for the first record's collection, then one row per record. */
  ghost predicate IsEncoding(records: seq<Record>, content: Content) {
    if records == [] then content == Rows([])
    else
      && content.Rows?
      && |content.rows| == |records| + 1
      && IsHeader(content.rows[0], records[0].collection)
      && content.rows[1..] == DataRows(content.rows[0], records)
  }

  /** One header cell applied to a record under construction: an unknown
      name is skipped, an autodate cell is set only when it parses, any
      other cell goes through `record.Set`. */
  function ApplyCell(rec: Record, c: Collection, name: string, cell: string): Record {
    match GetByName(c.fields, name)
    case None => rec
    case Some(f) =>
      var v := CellValue(cell);
      if f.typ == AutodateField then
        match ParseDateTime(v)
        case None => rec
        case Some(d) => rec.(data := rec.data[name := Date(d)])
      else rec.(data := rec.data[name := PrepareValue(f.typ, v)])
  }

  /** The cells of a row applied in header order. */
  function ApplyCells(rec: Record, c: Collection, header: seq<string>, row: seq<string>): (r: Record)
    requires |row| == |header|
    ensures r.collection == rec.collection && r.isNew == rec.isNew
    ensures forall n :: n in r.data ==> n in rec.data || n in header
  {
    if header == [] then rec
    else
      var k := |header| - 1;
      ApplyCell(ApplyCells(rec, c, header[..k], row[..k]), c, header[k], row[k])
  }

  /** The record one data row decodes to. */
  function RecordOf(c: Collection, header: seq<string>, row: seq<string>): Record
    requires |row| == |header|
  {
    ApplyCells(NewRecord(c), c, header, row)
  }

  /** The first row (from index `from`) whose width is not `width`. */
  function FirstBadRow(rows: seq<seq<string>>, width: nat, from: nat): (r: Option<nat>)
    requires from <= |rows|
    ensures r.Some? ==> from <= r.value < |rows| && |rows[r.value]| != width
    ensures r.Some? ==> forall i :: from <= i < r.value ==> |rows[i]| == width
    ensures r.None? ==> forall i :: from <= i < |rows| ==> |rows[i]| == width
    decreases |rows| - from
  {
    if from == |rows| then None
    else if |rows[from]| != width then Some(from)
    else FirstBadRow(rows, width, from + 1)
  }

  /** Decoding as handlers/csv/plugin.go:64-101 does it: the first row is
      the header (none at all is `io.EOF`), every row must have the
      header's width, and each data row becomes one record. */
  function DecodeRowsAsWritten(c: Collection, content: Content): (r: Result<seq<Record>, CsvError>)
    ensures content == Rows([]) ==> r == Err(Eof)
    ensures r.Ok? ==> content.Rows? && |r.value| == |content.rows| - 1
    ensures r.Ok? ==> forall i :: 0 <= i < |r.value| ==> r.value[i].collection == c && r.value[i].isNew
  {
    match content
    case Text(_) => Err(Malformed)
    case Rows(rows) =>
      if rows == [] then Err(Eof)
      else
        match FirstBadRow(rows, |rows[0]|, 1)
        case Some(i) => Err(FieldCount(i + 1))
        case None => Ok(seq(|rows| - 1, i requires 0 <= i < |rows| - 1 => RecordOf(c, rows[0], rows[i + 1])))
  }

  /** An export of a collection with no records writes an empty file, and
      decoding that file as written fails with `io.EOF`. */
  lemma EmptyExportNotImportable(c: Collection, content: Content)
    requires IsEncoding([], content)
    ensures DecodeRowsAsWritten(c, content) == Err(Eof)
  {
  }

  /** Decoding with an empty file read as no records, which is what
      `EncodeRecords` writes for none; every other input as written. */
  function DecodeRows(c: Collection, content: Content): (r: Result<seq<Record>, CsvError>)
    ensures content == Rows([]) ==> r == Ok([])
    ensures content != Rows([]) ==> r == DecodeRowsAsWritten(c, content)
  {
    if content == Rows([]) then Ok([]) else DecodeRowsAsWritten(c, content)
  }

  /** What a cell decodes to, name by name, for a header without repeats:
      unknown names leave no value, an autodate value is kept only when it
      parses, every other value goes through `record.Set`. */
  lemma {:induction false} CellRule(c: Collection, header: seq<string>, row: seq<string>, k: nat)
    requires |row| == |header| && Distinct(header) && k < |header|
    ensures var rec := RecordOf(c, header, row);
      match GetByName(c.fields, header[k])
      case None => header[k] !in rec.data
      case Some(f) =>
        if f.typ == AutodateField then
          match ParseDateTime(CellValue(row[k]))
          case None => header[k] !in rec.data
          case Some(d) => header[k] in rec.data && rec.data[header[k]] == Date(d)
        else header[k] in rec.data && rec.data[header[k]] == PrepareValue(f.typ, CellValue(row[k]))
  {
    var m := |header| - 1;
    if k == m {
      assert header[k] !in header[..m];
    } else {
      assert header[..m][k] == header[k];
      assert Distinct(header[..m]);
      CellRule(c, header[..m], row[..m], k);
    }
  }

  /** The values whose cells read back as themselves under a field type. */
  predicate RoundTrips(t: FieldType, v: Value) {
    match t
    case TextField => v.Str? && v.s != "\"\""
    case BoolField => v.Bool?
    case AutodateField => v.Date? && (v.d == ZeroDateTime || IsDateText(v.d.text))
    case PasswordField => false
    case OtherField(_) => v.Str? && v.s != "\"\""
  }

  /** The cell of a round-trippable value decodes to the value itself. */
  lemma CellRoundTrip(t: FieldType, v: Value)
    requires RoundTrips(t, v)
    ensures t == AutodateField ==> ParseDateTime(CellValue(CellText(v))) == Some(v.d)
    ensures t != AutodateField ==> PrepareValue(t, CellValue(CellText(v))) == v
  {
  }

  /** A record keeping only its exported values. */
  ghost function ExportedPart(c: Collection, r: Record): Record {
    Record(c, map n | n in FieldTypes(c.fields) && Exported(c, n) :: Get(r, n), true)
  }

  /** The row written for a record reads back as its exported values,
      when field names are unique and those values round-trip. */
  lemma RecordRoundTrip(c: Collection, header: seq<string>, r: Record)
    requires UniqueNames(c.fields) && IsHeader(header, c)
    requires forall n :: Exported(c, n) ==> RoundTrips(FieldTypes(c.fields)[n], Get(r, n))
    ensures RecordOf(c, header, DataRow(header, r)) == ExportedPart(c, r)
  {
    var row := DataRow(header, r);
    var rec := RecordOf(c, header, row);
    var want := ExportedPart(c, r);
    forall n | n in rec.data
      ensures n in want.data
    {
      var k :| 0 <= k < |header| && header[k] == n;
      assert Exported(c, n);
    }
    forall n | n in want.data
      ensures n in rec.data && rec.data[n] == want.data[n]
    {
      var k :| 0 <= k < |header| && header[k] == n;
      LookupsAgree(c.fields, n);
      CellRoundTrip(FieldTypes(c.fields)[n], Get(r, n));
      CellRule(c, header, row, k);
    }
    assert rec.data == want.data;
  }

  /** Decoding what `EncodeRecords` wrote for records of one collection
      gives back, in order, each record's exported values, provided field
      names are unique and the values round-trip; no records give none.
      For at least one record the decoder as written gives the same. */
  lemma EncodeDecode(c: Collection, records: seq<Record>, content: Content)
    requires UniqueNames(c.fields)
    requires forall i :: 0 <= i < |records| ==> records[i].collection == c
    requires forall i, n :: 0 <= i < |records| && Exported(c, n) ==> RoundTrips(FieldTypes(c.fields)[n], Get(records[i], n))
    requires IsEncoding(records, content)
    ensures DecodeRows(c, content).Ok?
    ensures |DecodeRows(c, content).value| == |records|
    ensures forall i :: 0 <= i < |records| ==> DecodeRows(c, content).value[i] == ExportedPart(c, records[i])
    ensures records != [] ==> DecodeRowsAsWritten(c, content) == DecodeRows(c, content)
  {
    if records != [] {
      var rows := content.rows;
      assert forall i :: 1 <= i < |rows| ==> rows[i] == rows[1..][i - 1];
      assert FirstBadRow(rows, |rows[0]|, 1).None?;
      forall i | 0 <= i < |records|
        ensures DecodeRows(c, content).value[i] == ExportedPart(c, records[i])
      {
        assert rows[i + 1] == DataRow(rows[0], records[i]);
        RecordRoundTrip(c, rows[0], records[i]);
      }
    }
  }

  class CsvPlugin {
    var delimiter: string

    /** The zero value, before `PreValidate`. */
    constructor ()
      ensures delimiter == ""
    {
      delimiter := "";
    }

    /** `PreValidate`: the delimiter becomes ",". */
    method PreValidate()
      modifies this
      ensures delimiter == DefaultDelimiter
    {
      delimiter := DefaultDelimiter;
    }

    /** `Validate`: ozzo's `Required` and `Length(1, 1)` on the delimiter,
        keyed by its JSON name; the delimiter must be one byte. */
    function Validate(): (errs: map<string, string>)
      reads this
      ensures errs == map[] <==> |delimiter| == 1 && delimiter[0] as int < 0x80
      ensures delimiter == "" ==> errs == map[DelimiterKey := BlankMessage]
      ensures delimiter != "" && errs != map[] ==> errs == map[DelimiterKey := LengthMessage]
    {
      OneByte(delimiter);
      if delimiter == "" then
        assert DelimiterKey in map[DelimiterKey := BlankMessage];
        map[DelimiterKey := BlankMessage]
      else if Utf8Length(delimiter) != 1 then
        assert DelimiterKey in map[DelimiterKey := LengthMessage];
        map[DelimiterKey := LengthMessage]
      else map[]
    }

    /** `FileExtension`. */
    function FileExtension(): (ext: string)
      ensures ext == "csv" && '.' !in ext
    {
      "csv"
    }

    /** `EncodeRecords`: nothing for no records; otherwise a header of the
        first record's exported field names, in the order the field map is
        ranged over, then one row per record. The delimiter is read (and
        must be non-empty) only when there are records. */
    method EncodeRecords(records: seq<Record>) returns (content: Content)
      requires records != [] ==> delimiter != ""
      ensures IsEncoding(records, content)
    {
      if |records| == 0 {
        return Rows([]);
      }
      var header := Header(records[0].collection);
      var rows := [header];
      for i := 0 to |records|
        invariant |rows| == i + 1 && rows[0] == header
        invariant rows[1..] == DataRows(header, records[..i])
      {
        var row := EncodeRow(header, records[i]);
        rows := rows + [row];
        assert rows[1..] == rows[1..|rows| - 1] + [row];
      }
      assert records[..|records|] == records;
      content := Rows(rows);
    }

    /** `DecodeRecords`: reads the header (an empty file is `io.EOF`),
        then all rows, then builds one record per row, cell by cell. The
        delimiter's first byte is read, so it must be non-empty. */
    method DecodeRecords(c: Collection, content: Content) returns (r: Result<seq<Record>, CsvError>)
      requires delimiter != ""
      ensures r == DecodeRowsAsWritten(c, content)
    {
      if content.Text? {
        return Err(Malformed);
      }
      var rows := content.rows;
      if |rows| == 0 {
        return Err(Eof);
      }
      var header := rows[0];
      var i := 1;
      while i < |rows|
        invariant 1 <= i <= |rows|
        invariant FirstBadRow(rows, |header|, 1) == FirstBadRow(rows, |header|, i)
      {
        if |rows[i]| != |header| {
          assert FirstBadRow(rows, |header|, i) == Some(i);
          return Err(FieldCount(i + 1));
        }
        i := i + 1;
      }
      var records: seq<Record> := [];
      for j := 1 to |rows|
        invariant |records| == j - 1
        invariant forall k :: 0 <= k < j - 1 ==> records[k] == RecordOf(c, header, rows[k + 1])
      {
        var record := DecodeRow(c, header, rows[j]);
        records := records + [record];
      }
      assert FirstBadRow(rows, |header|, |rows|).None?;
      assert records == seq(|rows| - 1, k requires 0 <= k < |rows| - 1 => RecordOf(c, header, rows[k + 1]));
      r := Ok(records);
    }
  }

  /** The header loop: each name of the field map, taken in an arbitrary
      order, is kept unless it is a password field or the auth token key. */
  method Header(c: Collection) returns (header: seq<string>)
    ensures IsHeader(header, c)
  {
    var types := FieldTypes(c.fields);
    var remaining := types.Keys;
    header := [];
    while remaining != {}
      invariant remaining <= types.Keys
      invariant Distinct(header)
      invariant forall n :: n in header ==> n !in remaining
      invariant forall n :: n in header <==> Exported(c, n) && n !in remaining
      decreases remaining
    {
      var name :| name in remaining;
      if types[name] == PasswordField {
      } else if name == TokenKeyName && c.kind == Auth {
      } else {
        header := header + [name];
      }
      remaining := remaining - {name};
    }
  }

  /** The cells of one record, one per header name. */
  method EncodeRow(header: seq<string>, r: Record) returns (row: seq<string>)
    ensures row == DataRow(header, r)
  {
    row := [];
    for k := 0 to |header|
      invariant row == DataRow(header[..k], r)
    {
      row := row + [CellText(Get(r, header[k]))];
    }
    assert header[..|header|] == header;
  }

  /** A new record with the cells of one row set on it, in header order. */
  method DecodeRow(c: Collection, header: seq<string>, row: seq<string>) returns (record: Record)
    requires |row| == |header|
    ensures record == RecordOf(c, header, row)
  {
    record := NewRecord(c);
    for k := 0 to |header|
      invariant record == ApplyCells(NewRecord(c), c, header[..k], row[..k])
    {
      assert header[..k + 1][..k] == header[..k] && row[..k + 1][..k] == row[..k];
      record := ApplyCell(record, c, header[k], row[k]);
    }
    assert header[..|header|] == header && row[..|row|] == row;
  }
}
