/** The filters over the patient mapping (functions.py:413-479) and their
    sequential composition (functions.py:517-560). Every filter builds a new
    mapping; the records it keeps are the same record objects, in their
    original order. */
module Filters {
  import opened Options
  import opened Text
  import opened Stamps
  import opened Decimals
  import opened MedicalTests
  import opened Durations
  import opened Patients

  /** What the five record filters ask of one record. The turnaround window
      is in minutes, already converted. */
  datatype Rule =
    | TestName(abbr: string)
    | AbnormalResult
    | DateWindow(start: Stamp, end: Stamp)
    | StatusIs(status: string)
    | TurnaroundWindow(lo: int, hi: int)

  /** The list comprehension conditions of functions.py:420, 430-431,
      441-442, 452 and 473-475. The turnaround compared is the test
      definition's, not anything stored in the record. */
  predicate Admits(rule: Rule, r: Record) {
    match rule
    case TestName(abbr) => r.test.abbr == abbr
    case AbnormalResult => !IsResultNormal(r.test, r.value)
    case DateWindow(start, end) => NotAfter(start, r.testDate) && NotAfter(r.testDate, end)
    case StatusIs(status) => Lower(r.status) == Lower(status)
    case TurnaroundWindow(lo, hi) => TurnaroundBetween(r, lo, hi)
  }

  /** The turnaround of the record's test reads as a duration between the
      two limits, both included. */
  predicate TurnaroundBetween(r: Record, lo: int, hi: int) {
    var m := ConvertToMinutes(r.test.turnaround);
    m.Some? && lo <= m.value <= hi
  }

  /** A rule as the condition of a list comprehension. */
  function Keeps(rule: Rule): Record -> bool {
    r => Admits(rule, r)
  }

  lemma KeepsAdmits(rule: Rule)
    ensures forall r :: Keeps(rule)(r) == Admits(rule, r)
  {
  }

  /** The records of one patient a filter keeps. */
  function KeepRecords(rs: seq<Record>, keep: Record -> bool): (kept: seq<Record>)
    ensures |kept| <= |rs|
    decreases |rs|
  {
    if rs == [] then []
    else (if keep(rs[0]) then [rs[0]] else []) + KeepRecords(rs[1..], keep)
  }

  /** The kept records are the admitted ones. */
  lemma {:induction false} KeepMembers(rs: seq<Record>, keep: Record -> bool)
    ensures forall r :: r in KeepRecords(rs, keep) <==> r in rs && keep(r)
    decreases |rs|
  {
    if rs != [] {
      KeepMembers(rs[1..], keep);
      assert rs == [rs[0]] + rs[1..];
    }
  }

  /** Keeping distributes over concatenation: together with the one-record
      case this says the kept records are the admitted ones, in the order
      they had. */
  lemma {:induction false} KeepAppend(a: seq<Record>, b: seq<Record>, keep: Record -> bool)
    ensures KeepRecords(a + b, keep) == KeepRecords(a, keep) + KeepRecords(b, keep)
    decreases |a|
  {
    if a == [] {
      assert a + b == b;
    } else {
      var h := if keep(a[0]) then [a[0]] else [];
      assert (a + b)[0] == a[0];
      assert (a + b)[1..] == a[1..] + b;
      KeepAppend(a[1..], b, keep);
      assert KeepRecords(a + b, keep) == h + (KeepRecords(a[1..], keep) + KeepRecords(b, keep));
      assert KeepRecords(a, keep) == h + KeepRecords(a[1..], keep);
    }
  }

  /** A list whose records are all admitted is kept whole; one with none
      admitted is emptied. */
  lemma {:induction false} KeepExtremes(rs: seq<Record>, keep: Record -> bool)
    ensures (forall i :: 0 <= i < |rs| ==> keep(rs[i])) ==> KeepRecords(rs, keep) == rs
    ensures (forall i :: 0 <= i < |rs| ==> !keep(rs[i])) <==> KeepRecords(rs, keep) == []
    decreases |rs|
  {
    if rs != [] {
      KeepExtremes(rs[1..], keep);
      assert rs == [rs[0]] + rs[1..];
      if forall i :: 0 <= i < |rs| ==> keep(rs[i]) {
        assert forall i :: 0 <= i < |rs[1..]| ==> keep(rs[1..][i]) by {
          forall i | 0 <= i < |rs[1..]| ensures keep(rs[1..][i]) {
            assert rs[1..][i] == rs[i + 1];
          }
        }
      }
      if forall i :: 0 <= i < |rs| ==> !keep(rs[i]) {
        assert forall i :: 0 <= i < |rs[1..]| ==> !keep(rs[1..][i]) by {
          forall i | 0 <= i < |rs[1..]| ensures !keep(rs[1..][i]) {
            assert rs[1..][i] == rs[i + 1];
          }
        }
      }
      if KeepRecords(rs, keep) == [] {
        assert !keep(rs[0]);
        forall i | 0 <= i < |rs| ensures !keep(rs[i]) {
          if i > 0 {
            assert rs[i] == rs[1..][i - 1];
          }
        }
      }
    }
  }

  /** The shape shared by the five record filters: each patient keeps its
      admitted records, and a patient left with none is omitted. */
  function Narrow(store: Store, keep: Record -> bool): (s: Store)
    ensures |s| <= |store|
    ensures forall i :: 0 <= i < |s| ==> s[i].records != []
    decreases |store|
  {
    if store == [] then []
    else
      var p := store[0];
      var kept := KeepRecords(p.records, keep);
      (if kept == [] then [] else [Patient(p.id, kept)]) + Narrow(store[1..], keep)
  }

  /** The patients of the result are exactly those of the mapping that keep
      at least one record, each with the records it keeps. */
  lemma {:induction false} NarrowMembers(store: Store, keep: Record -> bool)
    ensures forall q :: q in Narrow(store, keep) <==>
      exists p :: p in store && q == Patient(p.id, KeepRecords(p.records, keep)) && q.records != []
    decreases |store|
  {
    if store != [] {
      NarrowMembers(store[1..], keep);
      var p := store[0];
      var kept := KeepRecords(p.records, keep);
      var head := if kept == [] then [] else [Patient(p.id, kept)];
      assert Narrow(store, keep) == head + Narrow(store[1..], keep);
      forall q | q in Narrow(store, keep)
        ensures exists p :: p in store && q == Patient(p.id, KeepRecords(p.records, keep)) && q.records != []
      {
        if q in head {
          assert p in store;
        } else {
          var p' :| p' in store[1..] && q == Patient(p'.id, KeepRecords(p'.records, keep)) && q.records != [];
          assert p' in store;
        }
      }
      forall q | exists p :: p in store && q == Patient(p.id, KeepRecords(p.records, keep)) && q.records != []
        ensures q in Narrow(store, keep)
      {
        var p' :| p' in store && q == Patient(p'.id, KeepRecords(p'.records, keep)) && q.records != [];
        if p' != p {
          assert p' in store[1..];
        }
      }
    }
  }

  /** Narrowing distributes over concatenation, so the result follows the
      mapping's order. */
  lemma {:induction false} NarrowAppend(a: Store, b: Store, keep: Record -> bool)
    ensures Narrow(a + b, keep) == Narrow(a, keep) + Narrow(b, keep)
    decreases |a|
  {
    if a == [] {
      assert a + b == b;
    } else {
      var kept := KeepRecords(a[0].records, keep);
      var h := if kept == [] then [] else [Patient(a[0].id, kept)];
      assert (a + b)[0] == a[0];
      assert (a + b)[1..] == a[1..] + b;
      NarrowAppend(a[1..], b, keep);
      assert Narrow(a + b, keep) == h + (Narrow(a[1..], keep) + Narrow(b, keep));
      assert Narrow(a, keep) == h + Narrow(a[1..], keep);
    }
  }

  /** Narrowing keeps ids distinct. */
  lemma {:induction false} NarrowDistinct(store: Store, keep: Record -> bool)
    requires DistinctIds(store)
    ensures DistinctIds(Narrow(store, keep))
    decreases |store|
  {
    if store != [] {
      var rest := store[1..];
      DistinctTail(store);
      NarrowDistinct(rest, keep);
      NarrowWithin(rest, keep);
      var p := store[0];
      var kept := KeepRecords(p.records, keep);
      var tail := Narrow(rest, keep);
      if kept != [] {
        forall q | q in tail ensures q.id != p.id {
          var p' :| p' in rest && p'.id == q.id && forall r :: r in q.records ==> r in p'.records;
        }
        DistinctCons(Patient(p.id, kept), tail);
      }
    }
  }

  /** The patients after the first of a mapping form a mapping without the
      first one's id. */
  lemma DistinctTail(store: Store)
    requires DistinctIds(store) && store != []
    ensures DistinctIds(store[1..])
    ensures forall q :: q in store[1..] ==> q.id != store[0].id
  {
    var rest := store[1..];
    assert forall i :: 0 <= i < |rest| ==> rest[i] == store[i + 1];
  }

  lemma DistinctCons(h: Patient, tail: Store)
    requires DistinctIds(tail)
    requires forall q :: q in tail ==> q.id != h.id
    ensures DistinctIds([h] + tail)
  {
    var s := [h] + tail;
    forall i, j | 0 <= i < j < |s| ensures s[i].id != s[j].id {
      assert s[j] == tail[j - 1];
      if i > 0 {
        assert s[i] == tail[i - 1];
      } else {
        assert s[j] in tail;
      }
    }
  }

  /** Two rules that admit the same records narrow every mapping alike. */
  lemma {:induction false} NarrowSame(store: Store, a: Record -> bool, b: Record -> bool)
    requires forall r :: a(r) == b(r)
    ensures Narrow(store, a) == Narrow(store, b)
    decreases |store|
  {
    if store != [] {
      KeepSame(store[0].records, a, b);
      NarrowSame(store[1..], a, b);
    }
  }

  lemma {:induction false} KeepSame(rs: seq<Record>, a: Record -> bool, b: Record -> bool)
    requires forall r :: a(r) == b(r)
    ensures KeepRecords(rs, a) == KeepRecords(rs, b)
    decreases |rs|
  {
    if rs != [] {
      KeepSame(rs[1..], a, b);
    }
  }

  // ---------------------------------------------------------------------------
  // The six filters
  // ---------------------------------------------------------------------------

  /** `filter_by_patient_id` (functions.py:413-414): the entries whose key is
      the id, records untouched. A patient with no records stays. */
  function FilterByPatientId(store: Store, id: int): (s: Store)
    ensures forall p :: p in s <==> p in store && p.id == id
    decreases |store|
  {
    if store == [] then []
    else (if store[0].id == id then [store[0]] else []) + FilterByPatientId(store[1..], id)
  }

  /** On a mapping the result is at most one entry: the patient with that id
      exactly as stored, when there is one. */
  lemma {:induction false} PatientIdFilterOne(store: Store, id: int)
    requires DistinctIds(store)
    ensures FilterByPatientId(store, id) ==
      match Position(store, id)
      case Some(i) => [store[i]]
      case None => []
    decreases |store|
  {
    if store != [] {
      var rest := store[1..];
      assert DistinctIds(rest) by {
        assert forall i :: 0 <= i < |rest| ==> rest[i] == store[i + 1];
      }
      PatientIdFilterOne(rest, id);
    }
  }


  /** `filter_by_test_name` (functions.py:417-424): records of the test
      with that abbreviation. */
  function FilterByTestName(store: Store, abbr: string): (s: Store)
    ensures forall q, r :: q in s && r in q.records ==> r.test.abbr == abbr
  {
    NarrowAdmits(store, TestName(abbr));
    assert forall r :: Admits(TestName(abbr), r) ==> r.test.abbr == abbr;
    Narrow(store, Keeps(TestName(abbr)))
  }

  /** `filter_by_abnormal_tests` (functions.py:427-435): records whose value
      lies outside its test's normal interval. */
  function FilterAbnormal(store: Store): (s: Store)
    ensures forall q, r :: q in s && r in q.records ==> !InRange(r.test, r.value.Value())
  {
    NarrowAdmits(store, AbnormalResult);
    forall r ensures Admits(AbnormalResult, r) <==> !InRange(r.test, r.value.Value()) {
      NormalIsInRange(r.test, r.value);
    }
    Narrow(store, Keeps(AbnormalResult))
  }

  /** `filter_by_date_range` (functions.py:438-446): records with a test date between
      the two moments. */
  function FilterByDateRange(store: Store, start: Stamp, end: Stamp): (s: Store)
    ensures forall q, r :: q in s && r in q.records ==> NotAfter(start, r.testDate) && NotAfter(r.testDate, end)
  {
    NarrowAdmits(store, DateWindow(start, end));
    assert forall r :: Admits(DateWindow(start, end), r) ==> NotAfter(start, r.testDate) && NotAfter(r.testDate, end);
    Narrow(store, Keeps(DateWindow(start, end)))
  }

  /** `filter_by_status` (functions.py:449-456): records whose status equals
      the given one after both are lowercased. */
  function FilterByStatus(store: Store, status: string): (s: Store)
    ensures forall q, r :: q in s && r in q.records ==> Lower(r.status) == Lower(status)
  {
    NarrowAdmits(store, StatusIs(status));
    assert forall r :: Admits(StatusIs(status), r) ==> Lower(r.status) == Lower(status);
    Narrow(store, Keeps(StatusIs(status)))
  }

  /** Every test definition a record of the mapping refers to has a
      turnaround `convert_to_timedelta` can read and `timedelta` can hold. */
  predicate TurnaroundsReadable(store: Store) {
    forall p, r :: p in store && r in p.records ==> ConvertToMinutes(r.test.turnaround).Some?
  }

  /** `filter_by_turnaround_time` (functions.py:464-479): both limits are
      converted first, then the turnaround of every record's test, kept or
      not; any conversion that raises aborts the filter (`None`). */
  function FilterByTurnaround(store: Store, minText: string, maxText: string): (r: Option<Store>)
    ensures r.None? <==>
      ConvertToMinutes(minText).None? || ConvertToMinutes(maxText).None? || !TurnaroundsReadable(store)
    ensures r.Some? ==> forall q, x :: q in r.value && x in q.records ==>
      TurnaroundBetween(x, ConvertToMinutes(minText).value, ConvertToMinutes(maxText).value)
  {
    var lo :- ConvertToMinutes(minText);
    var hi :- ConvertToMinutes(maxText);
    if TurnaroundsReadable(store) then
      TurnaroundNarrowSound(store, lo, hi);
      Some(Narrow(store, Keeps(TurnaroundWindow(lo, hi))))
    else None
  }

  /** A limit that passed `validate_turnaround_time` can still abort the
      filter: `1000000000-0-0` as the upper limit overflows `timedelta`,
      whatever the mapping and the lower limit. */
  lemma TurnaroundLimitOverflows(store: Store, minText: string)
    ensures FilterByTurnaround(store, minText, NatDigits(MaxDays + 1) + "-0-0").None?
  {
    ValidatedOverflow();
  }

  lemma TurnaroundNarrowSound(store: Store, lo: int, hi: int)
    ensures forall q, x :: q in Narrow(store, Keeps(TurnaroundWindow(lo, hi))) && x in q.records ==>
      TurnaroundBetween(x, lo, hi)
  {
    NarrowAdmits(store, TurnaroundWindow(lo, hi));
    assert forall r :: Admits(TurnaroundWindow(lo, hi), r) ==> TurnaroundBetween(r, lo, hi);
  }

  // ---------------------------------------------------------------------------
  // Matching rules
  // ---------------------------------------------------------------------------

  /** Every record of the result is admitted. */
  lemma NarrowSound(store: Store, keep: Record -> bool)
    ensures forall q, r :: q in Narrow(store, keep) && r in q.records ==> keep(r)
  {
    NarrowMembers(store, keep);
    forall q, r | q in Narrow(store, keep) && r in q.records ensures keep(r) {
      var p :| p in store && q == Patient(p.id, KeepRecords(p.records, keep)) && q.records != [];
      KeepMembers(p.records, keep);
    }
  }

  /** The same, for a rule. */
  lemma NarrowAdmits(store: Store, rule: Rule)
    ensures forall q, r :: q in Narrow(store, Keeps(rule)) && r in q.records ==> Admits(rule, r)
  {
    NarrowSound(store, Keeps(rule));
    forall q, r | q in Narrow(store, Keeps(rule)) && r in q.records ensures Admits(rule, r) {
      assert Keeps(rule)(r);
    }
  }

  /** A record of the mapping that is admitted survives, in the entry of its
      own patient. */
  lemma NarrowKeeps(store: Store, keep: Record -> bool, p: Patient, r: Record)
    requires p in store && r in p.records && keep(r)
    ensures exists q :: q in Narrow(store, keep) && q.id == p.id && r in q.records
  {
    NarrowMembers(store, keep);
    KeepMembers(p.records, keep);
    var q := Patient(p.id, KeepRecords(p.records, keep));
    assert r in q.records;
    assert q in Narrow(store, keep);
  }

  /** The date window includes both of its ends. */
  lemma DateWindowInclusive(store: Store, start: Stamp, end: Stamp, p: Patient, r: Record)
    requires p in store && r in p.records && NotAfter(start, end)
    requires r.testDate == start || r.testDate == end
    ensures exists q :: q in FilterByDateRange(store, start, end) && q.id == p.id && r in q.records
  {
    var keep := Keeps(DateWindow(start, end));
    assert keep(r);
    NarrowKeeps(store, keep, p, r);
  }

  /** The turnaround window includes both of its ends. */
  lemma TurnaroundWindowInclusive(store: Store, minText: string, maxText: string, p: Patient, r: Record)
    requires p in store && r in p.records && TurnaroundsReadable(store)
    requires ConvertToMinutes(minText).Some? && ConvertToMinutes(maxText).Some?
    requires ConvertToMinutes(minText).value <= ConvertToMinutes(maxText).value
    requires ConvertToMinutes(r.test.turnaround) == ConvertToMinutes(minText)
      || ConvertToMinutes(r.test.turnaround) == ConvertToMinutes(maxText)
    ensures var s := FilterByTurnaround(store, minText, maxText);
      s.Some? && exists q :: q in s.value && q.id == p.id && r in q.records
  {
    var lo, hi := ConvertToMinutes(minText).value, ConvertToMinutes(maxText).value;
    var m := ConvertToMinutes(r.test.turnaround);
    assert m.Some? && lo <= m.value <= hi;
    WindowAdmits(r, lo, hi);
    NarrowKeeps(store, Keeps(TurnaroundWindow(lo, hi)), p, r);
    TurnaroundFilterIs(store, minText, maxText);
  }

  lemma WindowAdmits(r: Record, lo: int, hi: int)
    requires ConvertToMinutes(r.test.turnaround).Some?
    requires lo <= ConvertToMinutes(r.test.turnaround).value <= hi
    ensures Keeps(TurnaroundWindow(lo, hi))(r)
  {
    KeepsAdmits(TurnaroundWindow(lo, hi));
  }

  lemma TurnaroundFilterIs(store: Store, minText: string, maxText: string)
    requires TurnaroundsReadable(store)
    requires ConvertToMinutes(minText).Some? && ConvertToMinutes(maxText).Some?
    ensures var lo, hi := ConvertToMinutes(minText).value, ConvertToMinutes(maxText).value;
      FilterByTurnaround(store, minText, maxText) == Some(Narrow(store, Keeps(TurnaroundWindow(lo, hi))))
  {
  }

  /** `str.lower` is idempotent. */
  lemma LowerTwice(s: string)
    ensures Lower(Lower(s)) == Lower(s)
  {
  }

  /** Status matching ignores case: two spellings that lowercase alike
      select the same records, and lowercasing the request first, as the
      prompt at functions.py:549 does, changes nothing. */
  lemma StatusIgnoresCase(store: Store, a: string, b: string)
    requires Lower(a) == Lower(b)
    ensures FilterByStatus(store, a) == FilterByStatus(store, b)
    ensures FilterByStatus(store, Lower(a)) == FilterByStatus(store, a)
  {
    NarrowSame(store, Keeps(StatusIs(a)), Keeps(StatusIs(b)));
    LowerTwice(a);
    NarrowSame(store, Keeps(StatusIs(Lower(a))), Keeps(StatusIs(a)));
  }

  // ---------------------------------------------------------------------------
  // The composition of filters (functions.py:517-560)
  // ---------------------------------------------------------------------------

  /** One selected criterion with the value its prompt accepted. */
  datatype Criterion =
    | ByPatientId(id: int)
    | ByTestName(abbr: string)
    | Abnormal
    | ByDateRange(start: Stamp, end: Stamp)
    | ByStatus(status: string)
    | ByTurnaround(minText: string, maxText: string)

  function Apply(store: Store, c: Criterion): Option<Store> {
    match c
    case ByPatientId(id) => Some(FilterByPatientId(store, id))
    case ByTestName(abbr) => Some(FilterByTestName(store, abbr))
    case Abnormal => Some(FilterAbnormal(store))
    case ByDateRange(start, end) => Some(FilterByDateRange(store, start, end))
    case ByStatus(status) => Some(FilterByStatus(store, status))
    case ByTurnaround(minText, maxText) => FilterByTurnaround(store, minText, maxText)
  }

  /** Each criterion filters the result of the ones before it. */
  function ApplyAll(store: Store, cs: seq<Criterion>): Option<Store>
    decreases |cs|
  {
    if cs == [] then Some(store)
    else Then(ApplyAll(store, cs[..|cs| - 1]), cs[|cs| - 1])
  }

  /** A criterion applied to what is left, unless an earlier one raised. */
  function Then(before: Option<Store>, c: Criterion): Option<Store> {
    match before
    case None => None
    case Some(t) => Apply(t, c)
  }

  /** What a criterion asks of a record of the patient with id `id`, read
      from the prompt values: the id itself, the test's abbreviation, a
      result outside the normal interval, a test date between the two
      moments, the status up to case, and the test's turnaround between the
      two limits. */
  predicate Meets(c: Criterion, id: int, r: Record) {
    match c
    case ByPatientId(x) => id == x
    case ByTestName(abbr) => r.test.abbr == abbr
    case Abnormal => !InRange(r.test, r.value.Value())
    case ByDateRange(start, end) => NotAfter(start, r.testDate) && NotAfter(r.testDate, end)
    case ByStatus(status) => Lower(r.status) == Lower(status)
    case ByTurnaround(minText, maxText) =>
      var lo, hi := ConvertToMinutes(minText), ConvertToMinutes(maxText);
      lo.Some? && hi.Some? && TurnaroundBetween(r, lo.value, hi.value)
  }

  /** Every entry of `s` is a patient of `t` holding some of its records. */
  predicate Within(s: Store, t: Store) {
    forall q :: q in s ==> exists p :: p in t && p.id == q.id && forall r :: r in q.records ==> r in p.records
  }

  /** Every record of `s` meets the criterion. */
  predicate AllMeet(s: Store, c: Criterion) {
    forall q, r :: q in s && r in q.records ==> Meets(c, q.id, r)
  }

  /** Every record of `t` that meets the criterion is in `s`, under its own
      patient. */
  predicate KeepsMeeting(t: Store, c: Criterion, s: Store) {
    forall p, r :: p in t && r in p.records && Meets(c, p.id, r) ==>
      exists q :: q in s && q.id == p.id && r in q.records
  }

  /** One filter step keeps only records that meet its criterion, takes
      nothing from outside, keeps ids distinct, and keeps every record that
      meets the criterion. */
  lemma StepSpec(t: Store, c: Criterion)
    requires DistinctIds(t)
    requires Apply(t, c).Some?
    ensures var u := Apply(t, c).value;
      DistinctIds(u) && Within(u, t) && AllMeet(u, c) && KeepsMeeting(t, c, u)
  {
    match c
    case ByPatientId(id) =>
      IdStep(t, id);
    case ByTestName(abbr) =>
      MeetsTestName(abbr);
      RuleStep(t, c, TestName(abbr));
    case Abnormal =>
      MeetsAbnormal();
      RuleStep(t, c, AbnormalResult);
    case ByDateRange(start, end) =>
      MeetsDateRange(start, end);
      RuleStep(t, c, DateWindow(start, end));
    case ByStatus(status) =>
      MeetsStatus(status);
      RuleStep(t, c, StatusIs(status));
    case ByTurnaround(minText, maxText) =>
      var lo, hi := ConvertToMinutes(minText).value, ConvertToMinutes(maxText).value;
      MeetsTurnaround(minText, maxText);
      RuleStep(t, c, TurnaroundWindow(lo, hi));
  }

  lemma RuleStep(t: Store, c: Criterion, rule: Rule)
    requires DistinctIds(t)
    requires Apply(t, c) == Some(Narrow(t, Keeps(rule)))
    requires forall id, r :: Meets(c, id, r) <==> Admits(rule, r)
    ensures var u := Apply(t, c).value;
      DistinctIds(u) && Within(u, t) && AllMeet(u, c) && KeepsMeeting(t, c, u)
  {
    NarrowStep(t, c, rule);
  }

  lemma MeetsTestName(abbr: string)
    ensures forall id, r :: Meets(ByTestName(abbr), id, r) <==> Admits(TestName(abbr), r)
  {
  }

  lemma MeetsAbnormal()
    ensures forall id, r :: Meets(Abnormal, id, r) <==> Admits(AbnormalResult, r)
  {
    forall id, r ensures Meets(Abnormal, id, r) <==> Admits(AbnormalResult, r) {
      NormalIsInRange(r.test, r.value);
    }
  }

  lemma MeetsDateRange(start: Stamp, end: Stamp)
    ensures forall id, r :: Meets(ByDateRange(start, end), id, r) <==> Admits(DateWindow(start, end), r)
  {
  }

  lemma MeetsStatus(status: string)
    ensures forall id, r :: Meets(ByStatus(status), id, r) <==> Admits(StatusIs(status), r)
  {
  }

  lemma MeetsTurnaround(minText: string, maxText: string)
    requires ConvertToMinutes(minText).Some? && ConvertToMinutes(maxText).Some?
    ensures var lo, hi := ConvertToMinutes(minText).value, ConvertToMinutes(maxText).value;
      forall id, r :: Meets(ByTurnaround(minText, maxText), id, r) <==> Admits(TurnaroundWindow(lo, hi), r)
  {
  }

  lemma IdStep(t: Store, id: int)
    requires DistinctIds(t)
    ensures var u := FilterByPatientId(t, id);
      DistinctIds(u) && Within(u, t) && AllMeet(u, ByPatientId(id)) && KeepsMeeting(t, ByPatientId(id), u)
  {
    var u := FilterByPatientId(t, id);
    PatientIdFilterOne(t, id);
    forall q | q in u
      ensures exists p :: p in t && p.id == q.id && forall r :: r in q.records ==> r in p.records
    {
      assert q in t;
    }
  }

  /** A record criterion is a narrowing by a rule that admits exactly the
      records meeting it. */
  lemma NarrowStep(t: Store, c: Criterion, rule: Rule)
    requires DistinctIds(t)
    requires forall id, r :: Meets(c, id, r) <==> Admits(rule, r)
    ensures var u := Narrow(t, Keeps(rule));
      DistinctIds(u) && Within(u, t) && AllMeet(u, c) && KeepsMeeting(t, c, u)
  {
    var keep := Keeps(rule);
    var u := Narrow(t, keep);
    NarrowDistinct(t, keep);
    NarrowWithin(t, keep);
    NarrowAdmits(t, rule);
    forall p, r | p in t && r in p.records && Meets(c, p.id, r)
      ensures exists q :: q in u && q.id == p.id && r in q.records
    {
      assert keep(r);
      NarrowKeeps(t, keep, p, r);
    }
  }

  /** A narrowed mapping lies within the mapping. */
  lemma NarrowWithin(store: Store, keep: Record -> bool)
    ensures Within(Narrow(store, keep), store)
  {
    NarrowMembers(store, keep);
    forall q | q in Narrow(store, keep)
      ensures exists p :: p in store && p.id == q.id && forall r :: r in q.records ==> r in p.records
    {
      var p :| p in store && q == Patient(p.id, KeepRecords(p.records, keep)) && q.records != [];
      KeepMembers(p.records, keep);
    }
  }

  /** `Within` chains. */
  lemma WithinTrans(s: Store, t: Store, u: Store)
    requires Within(s, t) && Within(t, u)
    ensures Within(s, u)
  {
    forall q | q in s
      ensures exists p :: p in u && p.id == q.id && forall r :: r in q.records ==> r in p.records
    {
      var m :| m in t && m.id == q.id && forall r :: r in q.records ==> r in m.records;
      var p :| p in u && p.id == m.id && forall r :: r in m.records ==> r in p.records;
    }
  }

  /** The composition fails only through a turnaround criterion. */
  lemma {:induction false} ApplyAllFails(store: Store, cs: seq<Criterion>)
    ensures ApplyAll(store, cs).None? ==> exists i :: 0 <= i < |cs| && cs[i].ByTurnaround?
    decreases |cs|
  {
    if cs != [] {
      var front := cs[..|cs| - 1];
      ApplyAllFails(store, front);
      if ApplyAll(store, front).None? {
        var i :| 0 <= i < |front| && front[i].ByTurnaround?;
        assert cs[i] == front[i];
      }
    }
  }

  /** The result `s` of filtering `store` by the criteria `cs`: ids stay
      distinct, only patients and records of the mapping are taken, every
      record held meets every criterion, and every record of the mapping that
      meets them all is held under its own patient. */
  predicate Filtered(store: Store, cs: seq<Criterion>, s: Store) {
    && DistinctIds(s)
    && Within(s, store)
    && (forall i :: 0 <= i < |cs| ==> AllMeet(s, cs[i]))
    && (forall p, r :: p in store && r in p.records && (forall i :: 0 <= i < |cs| ==> Meets(cs[i], p.id, r)) ==>
          exists q :: q in s && q.id == p.id && r in q.records)
  }

  /** Whenever the composition succeeds, it has filtered the mapping. */
  lemma ApplyAllSpec(store: Store, cs: seq<Criterion>)
    requires DistinctIds(store)
    requires ApplyAll(store, cs).Some?
    ensures Filtered(store, cs, ApplyAll(store, cs).value)
  {
    ApplyAllFiltered(store, cs);
  }

  lemma {:induction false} ApplyAllFiltered(store: Store, cs: seq<Criterion>)
    requires DistinctIds(store)
    ensures ApplyAll(store, cs).Some? ==> Filtered(store, cs, ApplyAll(store, cs).value)
    decreases |cs|
  {
    if cs == [] {
      FilteredNothing(store);
    } else {
      var front, c := cs[..|cs| - 1], cs[|cs| - 1];
      ApplyAllFiltered(store, front);
      ApplyAllLast(store, cs);
      FilteredThen(store, ApplyAll(store, front), front, c, cs);
    }
  }

  /** The last criterion filters what the ones before it left. */
  lemma ApplyAllLast(store: Store, cs: seq<Criterion>)
    requires cs != []
    ensures ApplyAll(store, cs) == Then(ApplyAll(store, cs[..|cs| - 1]), cs[|cs| - 1])
  {
  }

  /** One more criterion keeps the result filtered. */
  lemma FilteredThen(store: Store, before: Option<Store>, front: seq<Criterion>, c: Criterion, cs: seq<Criterion>)
    requires cs != [] && front == cs[..|cs| - 1] && c == cs[|cs| - 1]
    requires before.Some? ==> Filtered(store, front, before.value)
    ensures Then(before, c).Some? ==> Filtered(store, cs, Then(before, c).value)
  {
    if Then(before, c).Some? {
      assert cs == front + [c];
      FilteredApply(store, before.value, front, c, cs, Then(before, c).value);
    }
  }

  lemma FilteredApply(store: Store, t: Store, front: seq<Criterion>, c: Criterion, cs: seq<Criterion>, s: Store)
    requires cs == front + [c]
    requires Filtered(store, front, t)
    requires Apply(t, c) == Some(s)
    ensures Filtered(store, cs, s)
  {
    StepSpec(t, c);
    ComposeFiltered(store, t, s, front, c, cs);
  }

  lemma FilteredNothing(store: Store)
    requires DistinctIds(store)
    ensures Filtered(store, [], store)
  {
    forall q | q in store
      ensures exists p :: p in store && p.id == q.id && forall r :: r in q.records ==> r in p.records
    {
      assert q in store;
    }
  }

  lemma ComposeFiltered(store: Store, t: Store, s: Store, front: seq<Criterion>, c: Criterion, cs: seq<Criterion>)
    requires cs == front + [c]
    requires Filtered(store, front, t)
    requires DistinctIds(s) && Within(s, t) && AllMeet(s, c) && KeepsMeeting(t, c, s)
    ensures Filtered(store, cs, s)
  {
    WithinTrans(s, t, store);
    ComposeSound(s, t, front, c, cs);
    ComposeComplete(store, s, t, front, c, cs);
  }

  lemma ComposeSound(s: Store, t: Store, front: seq<Criterion>, c: Criterion, cs: seq<Criterion>)
    requires cs == front + [c]
    requires Within(s, t)
    requires forall i :: 0 <= i < |front| ==> AllMeet(t, front[i])
    requires AllMeet(s, c)
    ensures forall i :: 0 <= i < |cs| ==> AllMeet(s, cs[i])
  {
    forall i | 0 <= i < |front| ensures AllMeet(s, front[i]) {
      forall q, r | q in s && r in q.records ensures Meets(front[i], q.id, r) {
        var p :| p in t && p.id == q.id && forall x :: x in q.records ==> x in p.records;
        assert AllMeet(t, front[i]);
      }
    }
    assert forall i :: 0 <= i < |cs| ==> cs[i] == if i < |front| then front[i] else c;
  }

  lemma ComposeComplete(store: Store, s: Store, t: Store, front: seq<Criterion>, c: Criterion, cs: seq<Criterion>)
    requires cs == front + [c]
    requires forall p, r :: p in store && r in p.records && (forall i :: 0 <= i < |front| ==> Meets(front[i], p.id, r)) ==>
      exists q :: q in t && q.id == p.id && r in q.records
    requires KeepsMeeting(t, c, s)
    ensures forall p, r :: p in store && r in p.records && (forall i :: 0 <= i < |cs| ==> Meets(cs[i], p.id, r)) ==>
      exists q :: q in s && q.id == p.id && r in q.records
  {
    forall p, r | p in store && r in p.records && (forall i :: 0 <= i < |cs| ==> Meets(cs[i], p.id, r))
      ensures exists q :: q in s && q.id == p.id && r in q.records
    {
      assert forall i :: 0 <= i < |front| ==> Meets(front[i], p.id, r) by {
        forall i | 0 <= i < |front| ensures Meets(front[i], p.id, r) {
          assert cs[i] == front[i];
        }
      }
      var m :| m in t && m.id == p.id && r in m.records;
      assert Meets(cs[|cs| - 1], p.id, r);
    }
  }
}
