/** Patients and their test records (patient.py), and the patient mapping the
    program keeps: a Python `dict` from id to `Patient`, whose insertion order
    the rewrite (functions.py:346-352) and the export (functions.py:618-628)
    follow. It is a sequence of patients with distinct ids here. */
module Patients {
  import opened Options
  import opened Text
  import opened Decimals
  import opened Stamps
  import opened MedicalTests

  /** One record dictionary: the test definition object itself, the test
      date, the result value, the unit, the status text as given, and the
      optional result date. Both dates are stored as the `strftime` text of a
      parsed moment, which is determined by the moment (`ShowParseStamp`). */
  datatype Record = Record(
    test: MedicalTest,
    testDate: Stamp,
    value: Decimal,
    unit: string,
    status: string,
    resultDate: Option<Stamp>)

  datatype Patient = Patient(id: int, records: seq<Record>)

  /** `Patient(patient_id)` (patient.py:2-4). */
  function NewPatient(id: int): (p: Patient)
    ensures p.id == id && p.records == []
  {
    Patient(id, [])
  }

  /** `add_record` (patient.py:6-7). */
  function AddRecord(p: Patient, r: Record): (q: Patient)
    ensures q.id == p.id
    ensures |q.records| == |p.records| + 1
    ensures q.records[|p.records|] == r
    ensures q.records[..|p.records|] == p.records
  {
    Patient(p.id, p.records + [r])
  }

  // ---------------------------------------------------------------------------
  // The patient mapping
  // ---------------------------------------------------------------------------

  type Store = seq<Patient>

  predicate DistinctIds(store: Store) {
    forall i, j :: 0 <= i < j < |store| ==> store[i].id != store[j].id
  }

  predicate HasId(store: Store, id: int) {
    exists i :: 0 <= i < |store| && store[i].id == id
  }

  /** The position of the patient with the given id (`patients[id]`). */
  function Position(store: Store, id: int): (r: Option<nat>)
    ensures r.Some? ==> r.value < |store| && store[r.value].id == id
    ensures r.Some? ==> forall j :: 0 <= j < r.value ==> store[j].id != id
    ensures r.None? <==> !HasId(store, id)
    decreases |store|
  {
    if store == [] then None
    else if store[0].id == id then Some(0)
    else
      match Position(store[1..], id)
      case None =>
        assert forall j :: 1 <= j < |store| ==> store[j] == store[1..][j - 1];
        None
      case Some(k) => Some(k + 1)
  }

  /** The ingestion step of functions.py:88-91 and 663-666: create the patient
      on first sight, then append the record to that patient's list. */
  function AddToStore(store: Store, id: int, r: Record): Store {
    match Position(store, id)
    case Some(i) => store[i := AddRecord(store[i], r)]
    case None => store + [AddRecord(NewPatient(id), r)]
  }

  /** Ingestion touches the one patient with the given id: its record list
      gains the record at its end, a new patient is appended after all
      existing ones when the id is new, every other patient is unchanged, and
      ids stay distinct. */
  lemma AddToStoreSpec(store: Store, id: int, r: Record)
    requires DistinctIds(store)
    ensures var s := AddToStore(store, id, r);
      && DistinctIds(s)
      && (HasId(store, id) ==> |s| == |store|)
      && (!HasId(store, id) ==> |s| == |store| + 1 && s[|store|] == Patient(id, [r]))
      && (forall i :: 0 <= i < |store| && store[i].id != id ==> s[i] == store[i])
      && (forall i :: 0 <= i < |store| && store[i].id == id ==> s[i] == Patient(id, store[i].records + [r]))
  {
  }

  // ---------------------------------------------------------------------------
  // `Patient.__str__`
  // ---------------------------------------------------------------------------

  /** The fields every record line shows (patient.py:11). The fifth is the
      test definition's unit, not the record's. */
  function RecordFields(r: Record): string {
    r.test.abbr + ", " + ShowStamp(r.testDate) + ", " + ShowDecimal(r.value) + ", " + r.unit + ", " + r.test.unit
  }

  /** One record line as written (patient.py:11-12): when the status is
      exactly `completed`, `", " + result_date` is appended, which raises a
      `TypeError` (`None`) when there is no result date. */
  function RecordText(r: Record): Option<string> {
    if r.status == "completed" then
      match r.resultDate
      case None => None
      case Some(d) => Some(RecordFields(r) + ", " + ShowStamp(d))
    else Some(RecordFields(r))
  }

  function RecordTexts(rs: seq<Record>): (r: Option<seq<string>>)
    ensures r.Some? ==> |r.value| == |rs|
    decreases |rs|
  {
    if rs == [] then Some([])
    else
      var first :- RecordText(rs[0]);
      var rest :- RecordTexts(rs[1..]);
      Some([first] + rest)
  }

  function Heading(id: int): string {
    "Patient ID: " + ShowInt(id) + "\nRecords:\n"
  }

  /** `Patient.__str__` as written (patient.py:9-15). */
  function PatientText(p: Patient): Option<string> {
    var lines :- RecordTexts(p.records);
    Some(Heading(p.id) + Join(lines, "\n") + "\n")
  }

  /** A completed record without a result date: what
      `add_new_medical_test_record` stores whenever the status entered is
      `completed` (functions.py:220, 228, 245-252). */
  predicate MissingResultDate(r: Record) {
    r.status == "completed" && r.resultDate.None?
  }

  /** The corrected record line: the result date is shown when the record is
      completed and has one. */
  function RecordTextFixed(r: Record): string {
    if r.status == "completed" && r.resultDate.Some? then RecordFields(r) + ", " + ShowStamp(r.resultDate.value)
    else RecordFields(r)
  }

  function RecordLines(p: Patient): (lines: seq<string>)
    ensures |lines| == |p.records|
  {
    seq(|p.records|, i requires 0 <= i < |p.records| => RecordTextFixed(p.records[i]))
  }

  function PatientTextFixed(p: Patient): string {
    Heading(p.id) + Join(RecordLines(p), "\n") + "\n"
  }

  /** The text as written fails exactly on a patient holding a completed
      record without a result date, and agrees with the corrected text
      otherwise. */
  lemma PatientTextAsWritten(p: Patient)
    ensures PatientText(p).None? <==> exists i :: 0 <= i < |p.records| && MissingResultDate(p.records[i])
    ensures PatientText(p).Some? ==> PatientText(p).value == PatientTextFixed(p)
  {
    RecordTextsFail(p.records);
    if RecordTexts(p.records).Some? {
      RecordTextsAgree(p.records);
      assert RecordTexts(p.records).value == RecordLines(p);
    }
  }

  /** One line fails exactly when its record misses its result date, and
      otherwise is the corrected line. */
  lemma RecordTextAgrees(r: Record)
    ensures RecordText(r).None? <==> MissingResultDate(r)
    ensures RecordText(r).Some? ==> RecordText(r).value == RecordTextFixed(r)
  {
  }

  lemma {:induction false} RecordTextsFail(rs: seq<Record>)
    ensures RecordTexts(rs).None? <==> exists i :: 0 <= i < |rs| && MissingResultDate(rs[i])
    decreases |rs|
  {
    if rs != [] {
      RecordTextsFail(rs[1..]);
      RecordTextAgrees(rs[0]);
      if exists i :: 0 <= i < |rs[1..]| && MissingResultDate(rs[1..][i]) {
        var i :| 0 <= i < |rs[1..]| && MissingResultDate(rs[1..][i]);
        assert MissingResultDate(rs[i + 1]);
      }
      if exists i :: 0 <= i < |rs| && MissingResultDate(rs[i]) {
        var i :| 0 <= i < |rs| && MissingResultDate(rs[i]);
        if i > 0 {
          assert MissingResultDate(rs[1..][i - 1]);
        }
      }
    }
  }

  lemma {:induction false} RecordTextsAgree(rs: seq<Record>)
    requires RecordTexts(rs).Some?
    ensures forall i :: 0 <= i < |rs| ==> RecordTexts(rs).value[i] == RecordTextFixed(rs[i])
    decreases |rs|
  {
    if rs != [] {
      var first := RecordText(rs[0]);
      var rest := RecordTexts(rs[1..]);
      assert first.Some? && rest.Some?;
      assert RecordTexts(rs).value == [first.value] + rest.value;
      RecordTextsAgree(rs[1..]);
      RecordTextAgrees(rs[0]);
      forall i | 0 <= i < |rs|
        ensures RecordTexts(rs).value[i] == RecordTextFixed(rs[i])
      {
        if i > 0 {
          assert RecordTexts(rs).value[i] == rest.value[i - 1];
          assert rs[i] == rs[1..][i - 1];
        }
      }
    }
  }

  /** The record the failure needs is one the program itself creates. */
  lemma PatientTextFailsOnNewCompletedRecord(id: int, t: MedicalTest, d: Stamp, v: Decimal)
    ensures PatientText(Patient(id, [Record(t, d, v, t.unit, "completed", None)])).None?
  {
    PatientTextAsWritten(Patient(id, [Record(t, d, v, t.unit, "completed", None)]));
  }

  predicate NoNewline(s: string) {
    '\n' !in s
  }

  /** Text fields free of line breaks, so that each record is one line. */
  predicate SingleLine(r: Record) {
    NoNewline(r.test.abbr) && NoNewline(r.unit) && NoNewline(r.test.unit)
  }

  /** The corrected text is the heading, then exactly one line per record in
      list order, each with the result date when the record is completed and
      has one. */
  lemma PatientTextLines(p: Patient)
    requires p.records != []
    requires forall i :: 0 <= i < |p.records| ==> SingleLine(p.records[i])
    ensures var t := PatientTextFixed(p);
      var body := t[|Heading(p.id)|..|t| - 1];
      && t[..|Heading(p.id)|] == Heading(p.id)
      && t[|t| - 1] == '\n'
      && Split(body, "\n") == RecordLines(p)
  {
    var lines := RecordLines(p);
    forall i | 0 <= i < |lines|
      ensures '\n' !in lines[i]
    {
      RecordLineSingle(p.records[i]);
    }
    SplitJoin(lines, "\n", 0);
    var t := PatientTextFixed(p);
    assert t == Heading(p.id) + Join(lines, "\n") + "\n";
    assert t[|Heading(p.id)|..|t| - 1] == Join(lines, "\n");
  }

  lemma RecordLineSingle(r: Record)
    requires SingleLine(r)
    ensures '\n' !in RecordTextFixed(r)
  {
    NumberNoNewline(r.value);
    StampNoNewline(r.testDate);
    assert '\n' !in RecordFields(r);
    if r.resultDate.Some? {
      StampNoNewline(r.resultDate.value);
    }
  }

  lemma NumberNoNewline(d: Decimal)
    ensures '\n' !in ShowDecimal(d)
  {
    ShowDecimalChars(d);
  }

  lemma StampNoNewline(st: Stamp)
    ensures '\n' !in ShowStamp(st)
  {
    ShowStampChars(st);
  }
}
