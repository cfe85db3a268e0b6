/** The record edit of `update_patient_records` (functions.py:265-345): one
    record of one patient is picked, each of its fields may be replaced by a
    value its prompt accepted, and the result date may be replaced only while
    the record's status reads `completed`. The accepted values themselves come
    from the checks of the `Acceptance` module. */
module Updates {
  import opened Options
  import opened Text
  import opened Decimals
  import opened Stamps
  import opened MedicalTests
  import opened Patients
  import opened Ingestion

  /** The answers of the five "Do you want to edit ...?" questions: `None` is
      a no, `Some` carries the accepted new value. */
  datatype Edit = Edit(
    abbr: Option<string>,
    testDate: Option<Stamp>,
    value: Option<Decimal>,
    status: Option<string>,
    resultDate: Option<Stamp>)

  const NoEdit: Edit := Edit(None, None, None, None, None)

  /** A new abbreviation renames the record's test and takes the unit of the
      catalog's definition for it (functions.py:290-296). The abbreviation
      loop only ends on a key of the catalog. */
  function EditAbbr(cat: Catalog, r: Record, abbr: Option<string>): Record
    requires abbr.Some? ==> abbr.value in cat
  {
    match abbr
    case None => r
    case Some(a) => r.(test := r.test.(abbr := a), unit := cat[a].unit)
  }

  /** Functions.py:300-328: date, value and status, in that order. */
  function EditFields(r: Record, ed: Edit): Record {
    var r1 := if ed.testDate.Some? then r.(testDate := ed.testDate.value) else r;
    var r2 := if ed.value.Some? then r1.(value := ed.value.value) else r1;
    if ed.status.Some? then r2.(status := ed.status.value) else r2
  }

  /** Functions.py:332-343: the result-date question is asked only when the
      status, as it now stands, lowercases to `completed`. */
  function EditResultDate(r: Record, d: Option<Stamp>): Record {
    if Lower(r.status) == "completed" && d.Some? then r.(resultDate := d) else r
  }

  /** The whole edit of the selected record. */
  function EditRecord(cat: Catalog, r: Record, ed: Edit): (q: Record)
    requires ed.abbr.Some? ==> ed.abbr.value in cat
    ensures q.test.name == r.test.name && q.test.lower == r.test.lower
    ensures q.test.upper == r.test.upper && q.test.turnaround == r.test.turnaround
    ensures ed.abbr.None? ==> q.test == r.test && q.unit == r.unit
    ensures ed.abbr.Some? ==> q.test.abbr == ed.abbr.value && q.unit == cat[ed.abbr.value].unit
    ensures q.testDate == (if ed.testDate.Some? then ed.testDate.value else r.testDate)
    ensures q.value == (if ed.value.Some? then ed.value.value else r.value)
    ensures q.status == (if ed.status.Some? then ed.status.value else r.status)
    ensures q.resultDate != r.resultDate ==> Lower(q.status) == "completed" && q.resultDate == ed.resultDate
  {
    EditResultDate(EditFields(EditAbbr(cat, r, ed.abbr), ed), ed.resultDate)
  }

  /** Answering no to every question leaves the record as it was. */
  lemma NoEditKeepsRecord(cat: Catalog, r: Record)
    ensures EditRecord(cat, r, NoEdit) == r
  {
  }

  /** Giving the same answers a second time changes nothing more. */
  lemma EditRecordIdempotent(cat: Catalog, r: Record, ed: Edit)
    requires ed.abbr.Some? ==> ed.abbr.value in cat
    ensures EditRecord(cat, EditRecord(cat, r, ed), ed) == EditRecord(cat, r, ed)
  {
  }

  /** A result date is gathered exactly when the edited status lowercases to
      `completed`: a record set to `pending` or `reviewed` keeps whatever
      result date it had, and one set to `completed` takes the new one. */
  lemma ResultDateNeedsCompleted(cat: Catalog, r: Record, ed: Edit)
    requires ed.abbr.Some? ==> ed.abbr.value in cat
    requires ed.resultDate.Some?
    ensures EditRecord(cat, r, ed).resultDate == ed.resultDate <==>
      Lower(EditRecord(cat, r, ed).status) == "completed" || r.resultDate == ed.resultDate
  {
  }

  /** Functions.py:266-286 and 345: the patient must be in the mapping and
      the record number within its list (the prompts ask again otherwise,
      `None` here); the edited record replaces the selected one. */
  function UpdateRecord(cat: Catalog, store: Store, id: int, k: nat, ed: Edit): (r: Option<Store>)
    requires ed.abbr.Some? ==> ed.abbr.value in cat
    requires DistinctIds(store)
    ensures r.Some? <==> exists i :: 0 <= i < |store| && store[i].id == id && k < |store[i].records|
  {
    match Position(store, id)
    case None => None
    case Some(i) =>
      var p := store[i];
      if k < |p.records| then
        Some(store[i := Patient(p.id, p.records[k := EditRecord(cat, p.records[k], ed)])])
      else
        assert forall j :: 0 <= j < |store| && store[j].id == id ==> j == i;
        None
  }

  /** An update changes one record and nothing else: the mapping keeps its
      patients, their order and their ids; only the selected patient's list
      differs, only at the selected position, and there it holds the edited
      record. */
  lemma UpdateTouchesOne(cat: Catalog, store: Store, id: int, k: nat, ed: Edit)
    requires ed.abbr.Some? ==> ed.abbr.value in cat
    requires DistinctIds(store)
    requires UpdateRecord(cat, store, id, k, ed).Some?
    ensures var s := UpdateRecord(cat, store, id, k, ed).value;
      && |s| == |store|
      && DistinctIds(s)
      && (forall i :: 0 <= i < |store| ==> s[i].id == store[i].id && |s[i].records| == |store[i].records|)
      && (forall i :: 0 <= i < |store| && store[i].id != id ==> s[i] == store[i])
      && (forall i, j :: 0 <= i < |store| && store[i].id == id && 0 <= j < |store[i].records| ==>
            s[i].records[j] == if j == k then EditRecord(cat, store[i].records[k], ed) else store[i].records[j])
  {
  }
}
