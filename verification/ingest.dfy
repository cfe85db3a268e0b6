/** Ingestion of parsed record lines into the patient mapping, shared by the
    record file reader (functions.py:76-93) and the CSV importer
    (functions.py:651-668). */
module Ingestion {
  import opened Options
  import opened Decimals
  import opened Stamps
  import opened MedicalTests
  import opened Patients

  /** The fields one line yields before the abbreviation is looked up. */
  datatype Entry = Entry(
    id: int,
    abbr: string,
    testDate: Stamp,
    value: Decimal,
    unit: string,
    status: string,
    resultDate: Option<Stamp>)

  type Catalog = map<string, MedicalTest>

  /** The record dictionary built for a known abbreviation. */
  function ToRecord(t: MedicalTest, e: Entry): (r: Record)
    ensures r.test == t && r.testDate == e.testDate && r.value == e.value
    ensures r.unit == e.unit && r.status == e.status && r.resultDate == e.resultDate
  {
    Record(t, e.testDate, e.value, e.unit, e.status, e.resultDate)
  }

  /** The entry a stored record of a patient corresponds to. */
  function EntryOf(id: int, r: Record): Entry {
    Entry(id, r.test.abbr, r.testDate, r.value, r.unit, r.status, r.resultDate)
  }

  /** An unknown abbreviation only prints a warning; a known one is resolved
      and the record added to its patient. */
  function Ingest(cat: Catalog, store: Store, e: Entry): Store {
    if e.abbr in cat then AddToStore(store, e.id, ToRecord(cat[e.abbr], e))
    else store
  }

  /** The line loop: lines that failed to parse (`None`, the caught
      exception) are skipped, the others ingested in order. */
  function IngestParsed(cat: Catalog, store: Store, lines: seq<Option<Entry>>): Store
    decreases |lines|
  {
    if lines == [] then store
    else
      var before := IngestParsed(cat, store, lines[..|lines| - 1]);
      match lines[|lines| - 1]
      case None => before
      case Some(e) => Ingest(cat, before, e)
  }

  /** Ingesting lines that all parse. */
  function IngestAll(cat: Catalog, store: Store, es: seq<Entry>): Store
    decreases |es|
  {
    if es == [] then store
    else Ingest(cat, IngestAll(cat, store, es[..|es| - 1]), es[|es| - 1])
  }

  /** A line that fails to parse, or names an unknown test, leaves the
      mapping as it is; any other line adds exactly its record to the end of
      its patient's list, creating the patient after the others if new, and
      leaves every other patient alone. */
  lemma IngestSpec(cat: Catalog, store: Store, line: Option<Entry>)
    requires DistinctIds(store)
    ensures var s := IngestParsed(cat, store, [line]);
      && DistinctIds(s)
      && (line.None? || line.value.abbr !in cat ==> s == store)
      && (line.Some? && line.value.abbr in cat ==>
            var e := line.value;
            var r := ToRecord(cat[e.abbr], e);
            && (HasId(store, e.id) ==> |s| == |store|)
            && (!HasId(store, e.id) ==> |s| == |store| + 1 && s[|store|] == Patient(e.id, [r]))
            && (forall i :: 0 <= i < |store| && store[i].id != e.id ==> s[i] == store[i])
            && (forall i :: 0 <= i < |store| && store[i].id == e.id ==> s[i] == Patient(e.id, store[i].records + [r])))
  {
    assert [line][..0] == [];
    if line.Some? && line.value.abbr in cat {
      AddToStoreSpec(store, line.value.id, ToRecord(cat[line.value.abbr], line.value));
    }
  }

  /** Ingestion keeps patient ids distinct. */
  lemma {:induction false} IngestParsedDistinct(cat: Catalog, store: Store, lines: seq<Option<Entry>>)
    requires DistinctIds(store)
    ensures DistinctIds(IngestParsed(cat, store, lines))
    decreases |lines|
  {
    if lines != [] {
      var before := IngestParsed(cat, store, lines[..|lines| - 1]);
      IngestParsedDistinct(cat, store, lines[..|lines| - 1]);
      var last := lines[|lines| - 1];
      if last.Some? && last.value.abbr in cat {
        AddToStoreSpec(before, last.value.id, ToRecord(cat[last.value.abbr], last.value));
      }
    }
  }

  /** Lines that all parse are ingested as their entries. */
  lemma {:induction false} IngestParsedAll(cat: Catalog, store: Store, lines: seq<Option<Entry>>, es: seq<Entry>)
    requires |lines| == |es| && forall i :: 0 <= i < |es| ==> lines[i] == Some(es[i])
    ensures IngestParsed(cat, store, lines) == IngestAll(cat, store, es)
    decreases |es|
  {
    if es != [] {
      IngestParsedAll(cat, store, lines[..|lines| - 1], es[..|es| - 1]);
    }
  }

  lemma {:induction false} IngestAllAppend(cat: Catalog, store: Store, xs: seq<Entry>, ys: seq<Entry>)
    ensures IngestAll(cat, store, xs + ys) == IngestAll(cat, IngestAll(cat, store, xs), ys)
    decreases |ys|
  {
    if ys == [] {
      assert xs + ys == xs;
    } else {
      assert (xs + ys)[..|xs + ys| - 1] == xs + ys[..|ys| - 1];
      IngestAllAppend(cat, store, xs, ys[..|ys| - 1]);
    }
  }

  // ---------------------------------------------------------------------------
  // Rebuilding a mapping from the entries it writes out
  // ---------------------------------------------------------------------------

  /** The entries of one patient, in record order. */
  function PatientEntries(p: Patient): (es: seq<Entry>)
    ensures |es| == |p.records|
  {
    seq(|p.records|, i requires 0 <= i < |p.records| => EntryOf(p.id, p.records[i]))
  }

  /** The entries of a mapping, patient by patient in mapping order: the
      order of the rewrite loop (functions.py:347-348) and the export loop
      (functions.py:619-620). */
  function Flatten(store: Store): seq<Entry>
    decreases |store|
  {
    if store == [] then []
    else Flatten(store[..|store| - 1]) + PatientEntries(store[|store| - 1])
  }

  /** Every record refers to the catalog's own definition of its test. */
  predicate Resolves(cat: Catalog, r: Record) {
    r.test.abbr in cat && cat[r.test.abbr] == r.test
  }

  /** A mapping ingestion can produce: distinct ids, no patient without
      records, every record resolved against the catalog. */
  predicate Rebuildable(cat: Catalog, store: Store) {
    && DistinctIds(store)
    && (forall i :: 0 <= i < |store| ==> store[i].records != [])
    && (forall i, k :: 0 <= i < |store| && 0 <= k < |store[i].records| ==> Resolves(cat, store[i].records[k]))
  }

  /** Ingesting the entries a mapping writes out, starting from nothing,
      rebuilds the mapping: same patients in the same order, each with the
      same records in the same order. */
  lemma {:induction false} RebuildStore(cat: Catalog, store: Store)
    requires Rebuildable(cat, store)
    ensures IngestAll(cat, [], Flatten(store)) == store
    decreases |store|
  {
    if store != [] {
      var front := store[..|store| - 1];
      var p := store[|store| - 1];
      RebuildableSplit(cat, store);
      RebuildStore(cat, front);
      IngestAllAppend(cat, [], Flatten(front), PatientEntries(p));
      RebuildPatient(cat, front, p, |p.records|);
      assert p.records[..|p.records|] == p.records;
    }
  }

  /** A rebuildable mapping is a rebuildable front and a last patient new to
      it, with records that resolve. */
  lemma RebuildableSplit(cat: Catalog, store: Store)
    requires Rebuildable(cat, store) && store != []
    ensures var front, p := store[..|store| - 1], store[|store| - 1];
      && Rebuildable(cat, front)
      && !HasId(front, p.id)
      && 1 <= |p.records|
      && (forall j :: 0 <= j < |p.records| ==> Resolves(cat, p.records[j]))
      && front + [p] == store
  {
    var front := store[..|store| - 1];
    assert forall i :: 0 <= i < |front| ==> front[i] == store[i];
  }

  /** Ingesting the first `k` entries of a patient new to the mapping appends
      that patient with its first `k` records. */
  lemma {:induction false} RebuildPatient(cat: Catalog, store: Store, p: Patient, k: nat)
    requires DistinctIds(store) && !HasId(store, p.id)
    requires 1 <= k <= |p.records|
    requires forall j :: 0 <= j < |p.records| ==> Resolves(cat, p.records[j])
    ensures IngestAll(cat, store, PatientEntries(Patient(p.id, p.records[..k]))) == store + [Patient(p.id, p.records[..k])]
    decreases k
  {
    var es := PatientEntries(Patient(p.id, p.records[..k]));
    var r := p.records[k - 1];
    assert es[k - 1] == EntryOf(p.id, r);
    if k == 1 {
      assert es[..0] == [];
      assert p.records[..1] == [r];
      IngestFirst(cat, store, p.id, r);
    } else {
      RebuildPatient(cat, store, p, k - 1);
      var q := Patient(p.id, p.records[..k - 1]);
      assert es[..k - 1] == PatientEntries(q);
      IngestNext(cat, store, q, r);
      assert p.records[..k - 1] + [r] == p.records[..k];
    }
  }

  lemma IngestFirst(cat: Catalog, store: Store, id: int, r: Record)
    requires !HasId(store, id) && Resolves(cat, r)
    ensures Ingest(cat, store, EntryOf(id, r)) == store + [Patient(id, [r])]
  {
    assert ToRecord(cat[r.test.abbr], EntryOf(id, r)) == r;
  }

  lemma IngestNext(cat: Catalog, store: Store, q: Patient, r: Record)
    requires !HasId(store, q.id) && Resolves(cat, r)
    ensures Ingest(cat, store + [q], EntryOf(q.id, r)) == store + [Patient(q.id, q.records + [r])]
  {
    assert ToRecord(cat[r.test.abbr], EntryOf(q.id, r)) == r;
    var s := store + [q];
    assert s[|store|].id == q.id;
    assert HasId(s, q.id);
    assert Position(s, q.id) == Some(|store|) by {
      assert forall j :: 0 <= j < |store| ==> s[j] == store[j];
    }
  }
}
