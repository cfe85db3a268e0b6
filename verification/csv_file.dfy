/** The CSV export (functions.py:613-630) and import (functions.py:633-672).
    The export goes through `csv.writer` with its default dialect: fields
    joined by `,`, a field quoted only when it must be, rows ended by `\r\n`.
    The import does not use `csv.reader`: it skips the first line and splits
    every other line on `,` itself. */
module CsvFile {
  import opened Options
  import opened Text
  import opened Decimals
  import opened Stamps
  import opened Patients
  import opened Ingestion
  import opened RecordFile

  // ---------------------------------------------------------------------------
  // Writing
  // ---------------------------------------------------------------------------

  /** The characters that make `csv.writer` quote a field: the delimiter,
      the quote character and the two line-break characters. */
  predicate QuoteChar(c: char) {
    c == ',' || c == '"' || c == '\r' || c == '\n'
  }

  predicate NeedsQuotes(s: string) {
    exists i :: 0 <= i < |s| && QuoteChar(s[i])
  }

  /** A quote character inside a quoted field is written twice. */
  function Doubled(s: string): (r: string)
    ensures |r| >= |s|
    decreases |s|
  {
    if s == [] then []
    else (if s[0] == '"' then "\"\"" else [s[0]]) + Doubled(s[1..])
  }

  /** One field as the writer emits it. */
  function CsvField(s: string): string {
    if NeedsQuotes(s) then "\"" + Doubled(s) + "\"" else s
  }

  function CsvRow(fields: seq<string>): string {
    Join(seq(|fields|, i requires 0 <= i < |fields| => CsvField(fields[i])), ",")
  }

  const Header: seq<string> := ["Patient ID", "Abbreviation", "Test Date", "Result Value", "Unit", "Status", "Result Date"]

  /** The seven fields of one record's row: the id as `str` writes it, the
      stored texts, the value as `str(float)`, and the result date or an
      empty field when there is none (`None` is written as an empty field). */
  function ExportFields(e: Entry): (fs: seq<string>)
    ensures |fs| == 7
  {
    [ShowInt(e.id), e.abbr, ShowStamp(e.testDate), ShowDecimal(e.value), e.unit, e.status,
     if e.resultDate.Some? then ShowStamp(e.resultDate.value) else ""]
  }

  /** The rows written, without their `\r\n` terminators: the header, then
      one row per record, patients in mapping order and records in list
      order. */
  function ExportRows(store: Store): (rows: seq<string>)
    ensures |rows| == 1 + |Flatten(store)|
  {
    var es := Flatten(store);
    [CsvRow(Header)] + seq(|es|, i requires 0 <= i < |es| => CsvRow(ExportFields(es[i])))
  }

  /** The lines a text-mode reader gets back from the written rows: universal
      newlines turn each `\r\n` into `\n`. This is the file's line structure
      as long as no row holds a line break of its own. */
  function ReadBack(rows: seq<string>): (lines: seq<string>)
    ensures |lines| == |rows|
  {
    seq(|rows|, i requires 0 <= i < |rows| => rows[i] + "\n")
  }

  // ---------------------------------------------------------------------------
  // What `csv.reader` would make of a field
  // ---------------------------------------------------------------------------

  /** Reading the inside of a quoted field: a doubled quote is one quote. */
  function Undoubled(t: string): string
    decreases |t|
  {
    if t == [] then []
    else if |t| >= 2 && t[0] == '"' && t[1] == '"' then "\"" + Undoubled(t[2..])
    else [t[0]] + Undoubled(t[1..])
  }

  /** A field as `csv.reader` takes it: a quoted field loses its quotes and
      its doubled quotes; any other field is taken as it is. */
  function ReadCsvField(t: string): string {
    if |t| >= 2 && t[0] == '"' && t[|t| - 1] == '"' then Undoubled(t[1..|t| - 1]) else t
  }

  lemma {:induction false} UndoubleDoubled(s: string)
    ensures Undoubled(Doubled(s)) == s
    decreases |s|
  {
    if s != [] {
      var rest := Doubled(s[1..]);
      UndoubleDoubled(s[1..]);
      if s[0] == '"' {
        var t := "\"\"" + rest;
        assert t[2..] == rest;
      } else {
        var t := [s[0]] + rest;
        assert t[1..] == rest;
        assert !(|t| >= 2 && t[0] == '"');
      }
      assert s == [s[0]] + s[1..];
    }
  }

  /** Every field the writer emits reads back as the text it was given, and
      a field that needs no quotes is written unchanged. */
  lemma CsvFieldReads(s: string)
    ensures ReadCsvField(CsvField(s)) == s
    ensures !NeedsQuotes(s) ==> CsvField(s) == s
  {
    if NeedsQuotes(s) {
      var t := "\"" + Doubled(s) + "\"";
      assert t[1..|t| - 1] == Doubled(s);
      UndoubleDoubled(s);
    } else if |s| >= 2 && s[0] == '"' {
      assert QuoteChar(s[0]);
    }
  }

  // ---------------------------------------------------------------------------
  // Reading
  // ---------------------------------------------------------------------------

  /** Functions.py:639-649: the stripped line split on `,`; the id read by
      `int`, the dates by `strptime`, the value by `float`, the texts
      stripped. A seventh field that is blank after stripping means no
      result date. `None` is any exception the line raises. */
  function ParseCsvLine(line: string): Option<Entry> {
    var parts := Split(Strip(line), ",");
    var id :- ParseInt(Strip(parts[0]));
    var abbrText :- Item(parts, 1);
    var dateText :- Item(parts, 2);
    var testDate :- ParseStamp(Strip(dateText));
    var valueText :- Item(parts, 3);
    var value :- ParseFloat(Strip(valueText));
    var unitText :- Item(parts, 4);
    var statusText :- Item(parts, 5);
    var resultDate :- if |parts| > 6 && Strip(parts[6]) != [] then ParseResultDate(parts[6]) else Some(None);
    Some(Entry(id, Strip(abbrText), testDate, value, Strip(unitText), Strip(statusText), resultDate))
  }

  /** A parsed row has a result date exactly when it has a seventh field
      that is not blank. */
  lemma CsvResultDateNeedsField(line: string)
    requires ParseCsvLine(line).Some?
    ensures var parts := Split(Strip(line), ",");
      ParseCsvLine(line).value.resultDate.Some? <==> |parts| > 6 && Strip(parts[6]) != []
  {
  }

  /** `import_medical_records` over the lines of a file: the first line is
      skipped, and an empty file raises `StopIteration` out of `next(file)`,
      which nothing catches (`None`). */
  function ImportCsv(cat: Catalog, store: Store, lines: seq<string>): (r: Option<Store>)
    ensures r.None? <==> lines == []
  {
    if lines == [] then None else Some(IngestParsed(cat, store, ParseLines(lines[1..])))
  }

  function ParseLines(lines: seq<string>): (parsed: seq<Option<Entry>>)
    ensures |parsed| == |lines|
  {
    seq(|lines|, i requires 0 <= i < |lines| => ParseCsvLine(lines[i]))
  }

  /** Importing never makes two patients share an id. */
  lemma ImportDistinct(cat: Catalog, store: Store, lines: seq<string>)
    requires DistinctIds(store) && lines != []
    ensures DistinctIds(ImportCsv(cat, store, lines).value)
  {
    IngestParsedDistinct(cat, store, ParseLines(lines[1..]));
  }

  // ---------------------------------------------------------------------------
  // The round trip
  // ---------------------------------------------------------------------------

  /** A text field that the writer leaves unquoted and the reader's `strip`
      leaves unchanged. */
  predicate PlainField(s: string) {
    Stripped(s) && !NeedsQuotes(s)
  }

  /** The entries whose row reads back. Unlike the record file, the status
      may be empty, and a completed record without a result date is fine. */
  predicate CsvWritable(e: Entry) {
    && PlainField(e.abbr) && PlainField(e.unit) && PlainField(e.status)
    && Canonical(e.value)
    && ValidStamp(e.testDate)
    && (e.resultDate.Some? ==> ValidStamp(e.resultDate.value))
  }

  /** Reading back the row exported for an entry gives the entry. */
  lemma ParseExportRow(e: Entry)
    requires CsvWritable(e)
    ensures ParseCsvLine(CsvRow(ExportFields(e)) + "\n") == Some(e)
  {
    var fs := ExportFields(e);
    ExportFieldsPlain(e);
    assert seq(|fs|, i requires 0 <= i < |fs| => CsvField(fs[i])) == fs;
    var row := Join(fs, ",");
    RowStripped(fs);
    StripTrailing(row, '\n');
    SplitJoin(fs, ",", 0);
    IdField(e.id);
    DateField(e.testDate);
    ValueField(e.value);
    ResultDateField(e.resultDate);
  }

  /** The seven fields hold no character that needs quoting; the first one
      starts the row and the last one is either empty or a stamp. */
  lemma ExportFieldsPlain(e: Entry)
    requires CsvWritable(e)
    ensures var fs := ExportFields(e);
      && (forall i :: 0 <= i < 7 ==> !NeedsQuotes(fs[i]))
      && fs[0] != [] && !IsSpace(fs[0][0])
      && Stripped(fs[6])
  {
    IdPlain(e.id);
    StampPlain(e.testDate);
    DecimalPlain(e.value);
    if e.resultDate.Some? {
      StampPlain(e.resultDate.value);
    }
  }

  lemma IdPlain(id: int)
    ensures !NeedsQuotes(ShowInt(id)) && ShowInt(id) != [] && !IsSpace(ShowInt(id)[0])
  {
    ShowIntChars(id);
    assert ShowInt(id)[0] in ShowInt(id);
    assert forall i :: 0 <= i < |ShowInt(id)| ==> ShowInt(id)[i] in ShowInt(id);
  }

  lemma StampPlain(st: Stamp)
    ensures !NeedsQuotes(ShowStamp(st)) && Stripped(ShowStamp(st))
  {
    ShowStampChars(st);
  }

  lemma DecimalPlain(d: Decimal)
    ensures !NeedsQuotes(ShowDecimal(d))
  {
    ShowDecimalChars(d);
    assert forall i :: 0 <= i < |ShowDecimal(d)| ==> ShowDecimal(d)[i] in ShowDecimal(d);
  }

  /** A row of seven unquoted fields, the first starting with a non-space
      and the last stripped, is itself stripped. */
  lemma RowStripped(fs: seq<string>)
    requires |fs| == 7 && fs[0] != [] && !IsSpace(fs[0][0]) && Stripped(fs[6])
    ensures Stripped(Join(fs, ","))
  {
    var row := Join(fs, ",");
    assert row == fs[0] + "," + Join(fs[1..], ",");
    JoinSnoc(fs[..6], fs[6], ",");
    assert fs[..6] + [fs[6]] == fs;
    assert row == Join(fs[..6], ",") + "," + fs[6];
  }

  /** Joining one more piece adds the separator and the piece at the end. */
  lemma {:induction false} JoinSnoc(xs: seq<string>, y: string, sep: string)
    requires xs != []
    ensures Join(xs + [y], sep) == Join(xs, sep) + sep + y
    decreases |xs|
  {
    if |xs| == 1 {
      assert (xs + [y])[1..] == [y];
    } else {
      JoinSnoc(xs[1..], y, sep);
      assert (xs + [y])[1..] == xs[1..] + [y];
    }
  }

  /** Whitespace after stripped, non-empty text is removed by `strip`. */
  lemma StripTrailing(s: string, b: char)
    requires IsSpace(b) && s != [] && Stripped(s)
    ensures Strip(s + [b]) == s
  {
    assert TrimLeft(s + [b]) == s + [b];
    assert (s + [b])[..|s|] == s;
    assert TrimRight(s + [b]) == TrimRight(s) == s;
  }

  lemma IdField(id: int)
    ensures ParseInt(Strip(ShowInt(id))) == Some(id)
  {
    ShowIntChars(id);
    ParseShowInt(id);
  }

  /** The seventh field reads back as the result date, or as none. */
  lemma ResultDateField(d: Option<Stamp>)
    requires d.Some? ==> ValidStamp(d.value)
    ensures var f := if d.Some? then ShowStamp(d.value) else "";
      (if Strip(f) != [] then ParseResultDate(f) else Some(None)) == Some(d)
  {
    if d.Some? {
      DateField(d.value);
      ShowStampChars(d.value);
    }
  }

  /** Exporting a mapping and importing the file into an empty mapping
      rebuilds the mapping: same patients in the same order, each with the
      same records in the same order. */
  lemma ImportExport(cat: Catalog, store: Store)
    requires Rebuildable(cat, store)
    requires forall i :: 0 <= i < |Flatten(store)| ==> CsvWritable(Flatten(store)[i])
    ensures ImportCsv(cat, [], ReadBack(ExportRows(store))) == Some(store)
  {
    var es := Flatten(store);
    var lines := ReadBack(ExportRows(store));
    ExportedLinesParse(store);
    var parsed := ParseLines(lines[1..]);
    assert forall i :: 0 <= i < |es| ==> parsed[i] == ParseCsvLine(lines[i + 1]);
    IngestParsedAll(cat, [], parsed, es);
    RebuildStore(cat, store);
  }

  /** Every line after the header reads back as its entry. */
  lemma ExportedLinesParse(store: Store)
    requires forall i :: 0 <= i < |Flatten(store)| ==> CsvWritable(Flatten(store)[i])
    ensures var es, lines := Flatten(store), ReadBack(ExportRows(store));
      forall i :: 0 <= i < |es| ==> ParseCsvLine(lines[i + 1]) == Some(es[i])
  {
    var es, lines := Flatten(store), ReadBack(ExportRows(store));
    forall i | 0 <= i < |es|
      ensures ParseCsvLine(lines[i + 1]) == Some(es[i])
    {
      assert lines[i + 1] == CsvRow(ExportFields(es[i])) + "\n";
      ParseExportRow(es[i]);
    }
  }

  /** The record the rewritten record file loses (a completed record
      without a result date) survives the CSV round trip. */
  lemma ImportKeepsMissingResultDate(cat: Catalog, id: int, r: Record)
    requires MissingResultDate(r) && Resolves(cat, r) && CsvWritable(EntryOf(id, r))
    ensures ImportCsv(cat, [], ReadBack(ExportRows([Patient(id, [r])]))) == Some([Patient(id, [r])])
  {
    FlattenOne(id, r);
    ImportExport(cat, [Patient(id, [r])]);
  }
}
