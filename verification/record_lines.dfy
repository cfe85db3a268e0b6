/** The record file: one record per line, `ID: ABBR, DATE, VALUE, UNIT, STATUS`
    with an optional `, RESULT-DATE`. Read by `read_medical_records`
    (functions.py:58-97), rewritten in full after an edit (functions.py:345-352)
    and appended to by `add_new_medical_test_record` (functions.py:258-260). */
module RecordFile {
  import opened Options
  import opened Text
  import opened Decimals
  import opened Stamps
  import opened Patients
  import opened Ingestion

  /** Functions.py:62-74. `None` is any exception the line raises: no `:`,
      an id `int` rejects, fewer than five fields, a date `strptime` rejects,
      a value `float` rejects. */
  function ParseRecordLine(line: string): Option<Entry> {
    var halves :- SplitOnce(line, ':');
    var id :- ParseInt(Strip(halves.0));
    ParseFields(id, Split(Strip(halves.1), ", "))
  }

  function ParseFields(id: int, parts: seq<string>): Option<Entry> {
    var dateText :- Item(parts, 1);
    var testDate :- ParseStamp(Strip(dateText));
    var valueText :- Item(parts, 2);
    var value :- ParseFloat(Strip(valueText));
    var unitText :- Item(parts, 3);
    var statusText :- Item(parts, 4);
    var resultDate :- if |parts| > 5 then ParseResultDate(parts[5]) else Some(None);
    Some(Entry(id, Strip(parts[0]), testDate, value, Strip(unitText), Strip(statusText), resultDate))
  }

  /** An optional sixth field is a date; when present it must parse. */
  function ParseResultDate(text: string): Option<Option<Stamp>> {
    var d :- ParseStamp(Strip(text));
    Some(Some(d))
  }

  /** `read_medical_records` over the lines of a file. */
  function LoadRecordFile(cat: Catalog, store: Store, lines: seq<string>): Store {
    IngestParsed(cat, store, seq(|lines|, i requires 0 <= i < |lines| => ParseRecordLine(lines[i])))
  }

  /** The five fields every written line has, followed by `tail`. */
  function Fields(e: Entry, tail: seq<string>): seq<string> {
    [e.abbr, ShowStamp(e.testDate), ShowDecimal(e.value), e.unit, e.status] + tail
  }

  function Line(e: Entry, tail: seq<string>): string {
    ShowInt(e.id) + ": " + Join(Fields(e, tail), ", ")
  }

  /** The rewrite line as written (functions.py:349-351): the result date is
      added when the status is exactly `completed`, and is printed as `None`
      when the record has none. */
  function RewriteLineAsWritten(e: Entry): string {
    Line(e, if e.status == "completed" then [if e.resultDate.Some? then ShowStamp(e.resultDate.value) else "None"] else [])
  }

  /** The corrected rewrite line: the result date is added exactly when the
      record has one. */
  function RewriteLine(e: Entry): string {
    Line(e, if e.resultDate.Some? then [ShowStamp(e.resultDate.value)] else [])
  }

  /** The rewritten file, one line per record, patients in mapping order and
      records in list order, each ended by a newline (functions.py:346-352). */
  function RewriteFileAsWritten(store: Store): seq<string> {
    var es := Flatten(store);
    seq(|es|, i requires 0 <= i < |es| => RewriteLineAsWritten(es[i]) + "\n")
  }

  function RewriteFile(store: Store): seq<string> {
    var es := Flatten(store);
    seq(|es|, i requires 0 <= i < |es| => RewriteLine(es[i]) + "\n")
  }

  /** The entries whose line reads back: text fields already stripped and
      free of `,`, a non-empty status, a value with a fraction digit, real
      dates. */
  predicate Writable(e: Entry) {
    && Stripped(e.abbr) && ',' !in e.abbr
    && Stripped(e.unit) && ',' !in e.unit
    && Stripped(e.status) && e.status != [] && ',' !in e.status
    && Canonical(e.value)
    && ValidStamp(e.testDate)
    && (e.resultDate.Some? ==> ValidStamp(e.resultDate.value))
  }

  /** Reading back a corrected line gives the entry it was written from. */
  lemma ParseRewriteLine(e: Entry)
    requires Writable(e)
    ensures ParseRecordLine(RewriteLine(e) + "\n") == Some(e)
  {
    var tail := if e.resultDate.Some? then [ShowStamp(e.resultDate.value)] else [];
    if e.resultDate.Some? {
      ShowStampChars(e.resultDate.value);
      ParseShowStamp(e.resultDate.value);
      StripStripped(ShowStamp(e.resultDate.value));
      assert ',' !in ShowStamp(e.resultDate.value);
    }
    ParseLine(e, tail);
  }

  /** Reading back a line as written: a completed record without a result
      date makes the line unreadable (its sixth field is `None`), and a
      result date of a record whose status is not exactly `completed` is
      lost. */
  lemma ParseRewriteLineAsWritten(e: Entry)
    requires Writable(e)
    ensures MissingDate(e) ==> ParseRecordLine(RewriteLineAsWritten(e) + "\n").None?
    ensures !MissingDate(e) ==>
      ParseRecordLine(RewriteLineAsWritten(e) + "\n") == Some(e.(resultDate := if e.status == "completed" then e.resultDate else None))
  {
    if e.status == "completed" {
      if e.resultDate.Some? {
        assert RewriteLineAsWritten(e) == RewriteLine(e);
        ParseRewriteLine(e);
      } else {
        NoneLine(e);
      }
    } else {
      var e' := e.(resultDate := None);
      assert RewriteLineAsWritten(e) == RewriteLine(e');
      ParseRewriteLine(e');
    }
  }

  predicate MissingDate(e: Entry) {
    e.status == "completed" && e.resultDate.None?
  }

  lemma NoneLine(e: Entry)
    requires Writable(e) && MissingDate(e)
    ensures ParseRecordLine(RewriteLineAsWritten(e) + "\n").None?
  {
    var tail := ["None"];
    assert RewriteLineAsWritten(e) == Line(e, tail);
    LineShape(e, tail);
    NoneIsNoDate();
    ParseFieldsFails(e.id, Fields(e, tail));
  }

  lemma NoneIsNoDate()
    ensures ParseResultDate("None").None?
  {
    StripStripped("None");
  }

  /** A sixth field that is not a date makes the whole line fail. */
  lemma ParseFieldsFails(id: int, parts: seq<string>)
    requires |parts| > 5 && ParseResultDate(parts[5]).None?
    ensures ParseFields(id, parts).None?
  {
  }

  /** A written line splits into the id and the field list. */
  lemma ParseLine(e: Entry, tail: seq<string>)
    requires Writable(e)
    requires tail == [] || (|tail| == 1 && tail[0] != [] && Stripped(tail[0]) && ',' !in tail[0])
    requires tail == [] ==> e.resultDate.None?
    requires tail != [] ==> e.resultDate.Some? && ParseStamp(tail[0]) == e.resultDate
    ensures ParseRecordLine(Line(e, tail) + "\n") == Some(e)
  {
    LineShape(e, tail);
    if tail != [] {
      StripStripped(tail[0]);
      assert ParseResultDate(tail[0]) == Some(e.resultDate);
    }
    var fs := Fields(e, tail);
    FieldsIndex(e, tail);
    FieldsRead(e, fs);
  }

  lemma FieldsIndex(e: Entry, tail: seq<string>)
    ensures var fs := Fields(e, tail);
      && |fs| == 5 + |tail|
      && fs[0] == e.abbr && fs[1] == ShowStamp(e.testDate) && fs[2] == ShowDecimal(e.value)
      && fs[3] == e.unit && fs[4] == e.status
      && (forall i :: 0 <= i < |tail| ==> fs[5 + i] == tail[i])
  {
  }

  /** What the parser sees of a written line: the id, then the field list. */
  lemma LineShape(e: Entry, tail: seq<string>)
    requires Writable(e)
    requires tail == [] || (|tail| == 1 && tail[0] != [] && Stripped(tail[0]) && ',' !in tail[0])
    ensures ParseRecordLine(Line(e, tail) + "\n") == ParseFields(e.id, Fields(e, tail))
  {
    FieldsFree(e, tail);
    LineShapeOf(e.id, Fields(e, tail));
  }

  lemma LineShapeOf(id: int, fs: seq<string>)
    requires |fs| >= 2 && forall i :: 0 <= i < |fs| ==> ',' !in fs[i]
    requires Stripped(fs[0]) && fs[|fs| - 1] != [] && Stripped(fs[|fs| - 1])
    ensures ParseRecordLine(ShowInt(id) + ": " + Join(fs, ", ") + "\n") == ParseFields(id, fs)
  {
    var x := Join(fs, ", ");
    SplitJoin(fs, ", ", 0);
    JoinEnds(fs);
    StripSurrounding(' ', x, '\n');
    IdPart(id, [' '] + x + ['\n']);
    Regroup(ShowInt(id), x);
    LineParts(ShowInt(id) + ": " + x + "\n", ShowInt(id), [' '] + x + ['\n'], id, fs);
  }

  lemma Regroup(a: string, x: string)
    ensures a + ": " + x + "\n" == a + [':'] + ([' '] + x + ['\n'])
  {
  }

  /** `str(id)` holds no `:`, so the first `:` is the one after it. */
  lemma IdPart(id: int, rest: string)
    ensures SplitOnce(ShowInt(id) + [':'] + rest, ':') == Some((ShowInt(id), rest))
    ensures ParseInt(Strip(ShowInt(id))) == Some(id)
  {
    ShowIntChars(id);
    ParseShowInt(id);
    assert ':' !in ShowInt(id);
    SplitOnceAt(ShowInt(id), ':', rest);
  }

  lemma LineParts(line: string, a: string, data: string, id: int, fs: seq<string>)
    requires SplitOnce(line, ':') == Some((a, data))
    requires ParseInt(Strip(a)) == Some(id)
    requires Split(Strip(data), ", ") == fs
    ensures ParseRecordLine(line) == ParseFields(id, fs)
  {
  }

  lemma FieldsFree(e: Entry, tail: seq<string>)
    requires Stripped(e.abbr) && ',' !in e.abbr && ',' !in e.unit
    requires Stripped(e.status) && e.status != [] && ',' !in e.status
    requires tail == [] || (|tail| == 1 && tail[0] != [] && Stripped(tail[0]) && ',' !in tail[0])
    ensures var fs := Fields(e, tail);
      && (forall i :: 0 <= i < |fs| ==> ',' !in fs[i])
      && Stripped(fs[0]) && fs[|fs| - 1] != [] && Stripped(fs[|fs| - 1])
  {
    StampNoComma(e.testDate);
    DecimalNoComma(e.value);
    var five := [e.abbr, ShowStamp(e.testDate), ShowDecimal(e.value), e.unit, e.status];
    assert CommaFree(five);
    CommaFreeAppend(five, tail);
    assert Fields(e, tail) == five + tail;
  }

  predicate CommaFree(xs: seq<string>) {
    forall i :: 0 <= i < |xs| ==> ',' !in xs[i]
  }

  lemma CommaFreeAppend(xs: seq<string>, ys: seq<string>)
    requires CommaFree(xs) && CommaFree(ys)
    ensures CommaFree(xs + ys)
  {
    assert forall i :: |xs| <= i < |xs + ys| ==> (xs + ys)[i] == ys[i - |xs|];
  }

  lemma StampNoComma(st: Stamp)
    ensures ',' !in ShowStamp(st)
  {
    ShowStampChars(st);
  }

  lemma DecimalNoComma(d: Decimal)
    ensures ',' !in ShowDecimal(d)
  {
    ShowDecimalChars(d);
  }

  /** The field list, joined by `, `, is not empty and is stripped when its
      first field is stripped and its last one non-empty and stripped. */
  lemma JoinEnds(fs: seq<string>)
    requires |fs| >= 2 && Stripped(fs[0]) && fs[|fs| - 1] != [] && Stripped(fs[|fs| - 1])
    ensures Join(fs, ", ") != [] && Stripped(Join(fs, ", "))
  {
    var x := Join(fs, ", ");
    assert x == fs[0] + ", " + Join(fs[1..], ", ");
    JoinLast(fs[1..], ", ");
    assert fs[1..][|fs[1..]| - 1] == fs[|fs| - 1];
    assert x[0] == if fs[0] != [] then fs[0][0] else ',';
  }

  /** A join ends where its last piece ends. */
  lemma {:induction false} JoinLast(xs: seq<string>, sep: string)
    requires xs != [] && xs[|xs| - 1] != []
    ensures |Join(xs, sep)| >= |xs[|xs| - 1]|
    ensures Join(xs, sep)[|Join(xs, sep)| - 1] == xs[|xs| - 1][|xs[|xs| - 1]| - 1]
    decreases |xs|
  {
    if |xs| > 1 {
      JoinLast(xs[1..], sep);
      assert xs[1..][|xs[1..]| - 1] == xs[|xs| - 1];
    }
  }

  /** The fields of a written line parse back into the entry. */
  lemma FieldsRead(e: Entry, fs: seq<string>)
    requires Writable(e)
    requires |fs| == 5 || |fs| == 6
    requires fs[0] == e.abbr && fs[1] == ShowStamp(e.testDate) && fs[2] == ShowDecimal(e.value)
    requires fs[3] == e.unit && fs[4] == e.status
    requires |fs| == 5 ==> e.resultDate.None?
    requires |fs| == 6 ==> ParseResultDate(fs[5]) == Some(e.resultDate)
    ensures ParseFields(e.id, fs) == Some(e)
  {
    DateField(e.testDate);
    ValueField(e.value);
    StripStripped(e.abbr);
    StripStripped(e.unit);
    StripStripped(e.status);
    FieldsParse(e.id, fs, e);
  }

  lemma DateField(d: Stamp)
    requires ValidStamp(d)
    ensures ParseStamp(Strip(ShowStamp(d))) == Some(d)
  {
    ShowStampChars(d);
    StripStripped(ShowStamp(d));
    ParseShowStamp(d);
  }

  lemma ValueField(v: Decimal)
    requires Canonical(v)
    ensures ParseFloat(Strip(ShowDecimal(v))) == Some(v)
  {
    ShowDecimalChars(v);
    StripStripped(ShowDecimal(v));
    ParseShowDecimal(v);
  }

  lemma FieldsParse(id: int, fs: seq<string>, e: Entry)
    requires |fs| == 5 || |fs| == 6
    requires e.id == id && Strip(fs[0]) == e.abbr && Strip(fs[3]) == e.unit && Strip(fs[4]) == e.status
    requires ParseStamp(Strip(fs[1])) == Some(e.testDate)
    requires ParseFloat(Strip(fs[2])) == Some(e.value)
    requires |fs| == 5 ==> e.resultDate.None?
    requires |fs| == 6 ==> ParseResultDate(fs[5]) == Some(e.resultDate)
    ensures ParseFields(id, fs) == Some(e)
  {
  }

  // ---------------------------------------------------------------------------
  // The whole file
  // ---------------------------------------------------------------------------

  /** Rewriting the mapping with the corrected line and reading the file
      back rebuilds the mapping. */
  lemma ReloadRewriteFile(cat: Catalog, store: Store)
    requires Rebuildable(cat, store)
    requires forall e :: e in Flatten(store) ==> Writable(e)
    ensures LoadRecordFile(cat, [], RewriteFile(store)) == store
  {
    var es := Flatten(store);
    var lines := RewriteFile(store);
    var parsed := seq(|lines|, i requires 0 <= i < |lines| => ParseRecordLine(lines[i]));
    forall i | 0 <= i < |es|
      ensures parsed[i] == Some(es[i])
    {
      assert es[i] in es;
      ParseRewriteLine(es[i]);
    }
    IngestParsedAll(cat, [], parsed, es);
    RebuildStore(cat, store);
  }

  /** With the line as written, a completed record without a result date
      does not survive the reload: a mapping holding just such a record
      reads back empty. */
  lemma ReloadRewriteFileAsWritten(cat: Catalog, id: int, r: Record)
    requires MissingResultDate(r) && Writable(EntryOf(id, r))
    ensures LoadRecordFile(cat, [], RewriteFileAsWritten([Patient(id, [r])])) == []
  {
    var e := EntryOf(id, r);
    FlattenOne(id, r);
    ParseRewriteLineAsWritten(e);
    var lines := RewriteFileAsWritten([Patient(id, [r])]);
    assert lines == [RewriteLineAsWritten(e) + "\n"];
    IgnoredLine(cat, lines);
  }

  lemma FlattenOne(id: int, r: Record)
    ensures Flatten([Patient(id, [r])]) == [EntryOf(id, r)]
  {
    assert [Patient(id, [r])][..0] == [];
  }

  lemma IgnoredLine(cat: Catalog, lines: seq<string>)
    requires |lines| == 1 && ParseRecordLine(lines[0]).None?
    ensures LoadRecordFile(cat, [], lines) == []
  {
    var parsed := seq(|lines|, i requires 0 <= i < |lines| => ParseRecordLine(lines[i]));
    assert parsed == [None];
    assert parsed[..0] == [];
    assert IngestParsed(cat, [], parsed) == IngestParsed(cat, [], []);
  }

  // ---------------------------------------------------------------------------
  // Appending a new record
  // ---------------------------------------------------------------------------

  /** The text `add_new_medical_test_record` appends (functions.py:258-260):
      a newline, then the line, with the result date only when the status is
      exactly `Completed`. */
  function NewRecordText(e: Entry): string {
    "\n" + Line(e, if e.status == "Completed" && e.resultDate.Some? then [ShowStamp(e.resultDate.value)] else [])
  }
}
