/** `calculate_summary_statistics` (functions.py:572-610): the minimum,
    maximum and mean of the result values and of the tests' turnaround times
    over every record of a (filtered) patient mapping. */
module Summaries {
  import opened Options
  import opened Decimals
  import opened Durations
  import opened MedicalTests
  import opened Patients

  /** The outcome: the "No records found" sentinel for an empty mapping, or
      the figures of the report. Turnarounds are in microseconds, the
      resolution of `timedelta`. */
  datatype Summary =
    | NoRecords
    | Report(
        minValue: Decimal,
        maxValue: Decimal,
        meanValue: real,
        minTurnaround: int,
        maxTurnaround: int,
        meanTurnaround: int)

  /** Every record of the mapping, patient by patient, in list order. */
  function RecordsOf(store: Store): (rs: seq<Record>)
    decreases |store|
  {
    if store == [] then [] else store[0].records + RecordsOf(store[1..])
  }

  lemma {:induction false} RecordsOfMembers(store: Store)
    ensures forall r :: r in RecordsOf(store) <==> exists p :: p in store && r in p.records
    decreases |store|
  {
    if store != [] {
      RecordsOfMembers(store[1..]);
      forall r | exists p :: p in store && r in p.records
        ensures r in RecordsOf(store)
      {
        var p :| p in store && r in p.records;
        if p != store[0] {
          assert p in store[1..];
        }
      }
      assert RecordsOf(store) == store[0].records + RecordsOf(store[1..]);
      forall r | r in RecordsOf(store)
        ensures exists p :: p in store && r in p.records
      {
        if r !in store[0].records {
          var p :| p in store[1..] && r in p.records;
          assert p in store;
        }
      }
    }
  }

  /** The result values of the records, in order. */
  function ValuesOf(rs: seq<Record>): (vs: seq<Decimal>)
    ensures |vs| == |rs|
    ensures forall i :: 0 <= i < |rs| ==> vs[i] == rs[i].value
  {
    seq(|rs|, i requires 0 <= i < |rs| => rs[i].value)
  }

  /** The turnaround of every record's test in minutes; the first one
      `convert_to_timedelta` cannot read aborts (`None`). */
  function TurnaroundsOf(rs: seq<Record>): (r: Option<seq<int>>)
    ensures r.None? <==> exists i :: 0 <= i < |rs| && ConvertToMinutes(rs[i].test.turnaround).None?
    ensures r.Some? ==> |r.value| == |rs|
    ensures r.Some? ==> forall i :: 0 <= i < |rs| ==> ConvertToMinutes(rs[i].test.turnaround) == Some(r.value[i])
    decreases |rs|
  {
    if rs == [] then Some([])
    else
      var first :- ConvertToMinutes(rs[0].test.turnaround);
      var rest :- TurnaroundsOf(rs[1..]);
      Some([first] + rest)
  }

  // ---------------------------------------------------------------------------
  // min, max and mean
  // ---------------------------------------------------------------------------

  /** `min` over values: the running minimum is replaced only by a value
      strictly below it, so among equal values the first one is returned. */
  function MinOf(ds: seq<Decimal>): (m: Decimal)
    requires ds != []
    ensures m in ds
    ensures forall d :: d in ds ==> m.Value() <= d.Value()
    ensures exists k :: 0 <= k < |ds| && ds[k] == m && forall j :: 0 <= j < k ==> ds[j].Value() > m.Value()
    decreases |ds|
  {
    if |ds| == 1 then ds[0]
    else
      var m := MinOf(ds[..|ds| - 1]);
      assert ds == ds[..|ds| - 1] + [ds[|ds| - 1]];
      if ds[|ds| - 1].Value() < m.Value() then ds[|ds| - 1] else m
  }

  /** `max` over values: the first of the largest. */
  function MaxOf(ds: seq<Decimal>): (m: Decimal)
    requires ds != []
    ensures m in ds
    ensures forall d :: d in ds ==> d.Value() <= m.Value()
    ensures exists k :: 0 <= k < |ds| && ds[k] == m && forall j :: 0 <= j < k ==> ds[j].Value() < m.Value()
    decreases |ds|
  {
    if |ds| == 1 then ds[0]
    else
      var m := MaxOf(ds[..|ds| - 1]);
      assert ds == ds[..|ds| - 1] + [ds[|ds| - 1]];
      if ds[|ds| - 1].Value() > m.Value() then ds[|ds| - 1] else m
  }

  function SumOf(ds: seq<Decimal>): real
    decreases |ds|
  {
    if ds == [] then 0.0 else SumOf(ds[..|ds| - 1]) + ds[|ds| - 1].Value()
  }

  /** `statistics.mean`, exactly (the rounding to a `float` is not part of
      this model). */
  function MeanOf(ds: seq<Decimal>): real
    requires ds != []
  {
    SumOf(ds) / (|ds| as real)
  }

  /** A sum of values lies between `n` times a lower and `n` times an upper
      bound of them. */
  lemma {:induction false} SumBounds(ds: seq<Decimal>, lo: real, hi: real)
    requires forall i :: 0 <= i < |ds| ==> lo <= ds[i].Value() <= hi
    ensures (|ds| as real) * lo <= SumOf(ds) <= (|ds| as real) * hi
    decreases |ds|
  {
    if ds != [] {
      var front := ds[..|ds| - 1];
      SumBounds(front, lo, hi);
      AddBounds(|front| as real, SumOf(front), ds[|ds| - 1].Value(), lo, hi);
      assert |ds| as real == |front| as real + 1.0;
    }
  }

  lemma AddBounds(k: real, s: real, x: real, lo: real, hi: real)
    requires k * lo <= s <= k * hi && lo <= x <= hi
    ensures (k + 1.0) * lo <= s + x <= (k + 1.0) * hi
  {
    assert (k + 1.0) * lo == k * lo + lo;
    assert (k + 1.0) * hi == k * hi + hi;
  }

  lemma AddIntBounds(k: int, s: int, x: int, lo: int, hi: int)
    requires k * lo <= s <= k * hi && lo <= x <= hi
    ensures (k + 1) * lo <= s + x <= (k + 1) * hi
  {
    assert (k + 1) * lo == k * lo + lo;
    assert (k + 1) * hi == k * hi + hi;
  }

  /** The mean lies between the minimum and the maximum. */
  lemma MeanBetween(ds: seq<Decimal>)
    requires ds != []
    ensures MinOf(ds).Value() <= MeanOf(ds) <= MaxOf(ds).Value()
  {
    assert forall i :: 0 <= i < |ds| ==> ds[i] in ds;
    MeanWithin(ds, MinOf(ds).Value(), MaxOf(ds).Value());
  }

  lemma MeanWithin(ds: seq<Decimal>, lo: real, hi: real)
    requires ds != []
    requires forall i :: 0 <= i < |ds| ==> lo <= ds[i].Value() <= hi
    ensures lo <= MeanOf(ds) <= hi
  {
    SumBounds(ds, lo, hi);
    DivideBounds(SumOf(ds), |ds| as real, lo, hi);
  }

  lemma DivideBounds(s: real, n: real, lo: real, hi: real)
    requires n > 0.0 && n * lo <= s <= n * hi
    ensures lo <= s / n <= hi
  {
    var m := s / n;
    assert m * n == s;
    if m < lo {
      MultiplyLess(m, lo, n);
    }
    if m > hi {
      MultiplyLess(hi, m, n);
    }
  }

  lemma MultiplyLess(a: real, b: real, n: real)
    requires a < b && n > 0.0
    ensures a * n < b * n
  {
    assert b * n - a * n == (b - a) * n;
  }

  function MinInt(xs: seq<int>): (m: int)
    requires xs != []
    ensures m in xs
    ensures forall i :: 0 <= i < |xs| ==> m <= xs[i]
    decreases |xs|
  {
    if |xs| == 1 then xs[0]
    else
      var m := MinInt(xs[..|xs| - 1]);
      if xs[|xs| - 1] < m then xs[|xs| - 1] else m
  }

  function MaxInt(xs: seq<int>): (m: int)
    requires xs != []
    ensures m in xs
    ensures forall i :: 0 <= i < |xs| ==> xs[i] <= m
    decreases |xs|
  {
    if |xs| == 1 then xs[0]
    else
      var m := MaxInt(xs[..|xs| - 1]);
      if xs[|xs| - 1] > m then xs[|xs| - 1] else m
  }

  function SumInt(xs: seq<int>): int
    decreases |xs|
  {
    if xs == [] then 0 else SumInt(xs[..|xs| - 1]) + xs[|xs| - 1]
  }

  lemma {:induction false} SumIntBounds(xs: seq<int>, lo: int, hi: int)
    requires forall i :: 0 <= i < |xs| ==> lo <= xs[i] <= hi
    ensures |xs| * lo <= SumInt(xs) <= |xs| * hi
    decreases |xs|
  {
    if xs != [] {
      var front := xs[..|xs| - 1];
      SumIntBounds(front, lo, hi);
      AddIntBounds(|front|, SumInt(front), xs[|xs| - 1], lo, hi);
    }
  }

  /** Dividing a `timedelta` by an `int` rounds the microseconds to the
      nearest whole one, ties to even. */
  function DivideRounded(a: int, n: int): (q: int)
    requires n > 0
    ensures 2 * (a - q * n) <= n && 2 * (q * n - a) <= n
  {
    var d, r := a / n, a % n;
    if 2 * r < n then d
    else if 2 * r > n then d + 1
    else if d % 2 == 0 then d
    else d + 1
  }

  /** A rounded quotient stays within any integer bounds the exact one
      respects. */
  lemma DivideRoundedBounds(a: int, n: int, lo: int, hi: int)
    requires n > 0 && n * lo <= a <= n * hi
    ensures lo <= DivideRounded(a, n) <= hi
  {
    var q := DivideRounded(a, n);
    RoundedNotBelow(a, n, q, lo);
    RoundedNotAbove(a, n, q, hi);
  }

  lemma RoundedNotBelow(a: int, n: int, q: int, lo: int)
    requires n > 0 && n * lo <= a && 2 * (a - q * n) <= n
    ensures lo <= q
  {
    if q < lo {
      assert (lo - 1) * n == n * lo - n;
      MultiplyAtMost(q, lo - 1, n);
    }
  }

  lemma RoundedNotAbove(a: int, n: int, q: int, hi: int)
    requires n > 0 && a <= n * hi && 2 * (q * n - a) <= n
    ensures q <= hi
  {
    if q > hi {
      assert (hi + 1) * n == n * hi + n;
      MultiplyAtMost(hi + 1, q, n);
    }
  }

  lemma MultiplyAtMost(a: int, b: int, n: int)
    requires a <= b && n > 0
    ensures a * n <= b * n
  {
    assert b * n - a * n == (b - a) * n;
  }

  /** `sum(turnaround_times, timedelta()) / len(turnaround_times)`. */
  function MeanMicros(ms: seq<int>): int
    requires ms != []
  {
    DivideRounded(SumInt(ms) * MicrosPerMinute, |ms|)
  }

  lemma MeanMicrosBetween(ms: seq<int>)
    requires ms != []
    ensures Micros(MinInt(ms)) <= MeanMicros(ms) <= Micros(MaxInt(ms))
  {
    var lo, hi := MinInt(ms), MaxInt(ms);
    SumIntBounds(ms, lo, hi);
    var n := |ms|;
    ScaleBounds(SumInt(ms), n, lo, hi);
    DivideRoundedBounds(SumInt(ms) * MicrosPerMinute, n, Micros(lo), Micros(hi));
  }

  lemma ScaleBounds(s: int, n: int, lo: int, hi: int)
    requires n * lo <= s <= n * hi
    ensures n * Micros(lo) <= s * MicrosPerMinute <= n * Micros(hi)
  {
    assert n * Micros(lo) == (n * lo) * MicrosPerMinute;
    assert n * Micros(hi) == (n * hi) * MicrosPerMinute;
  }

  // ---------------------------------------------------------------------------
  // The report
  // ---------------------------------------------------------------------------

  /** The calculation. An empty mapping gives the sentinel before anything
      is computed. Otherwise a turnaround `convert_to_timedelta` cannot read
      or hold raises, so does `min` when the patients hold no record at all
      (which a patient-id filter can leave), and so does the `timedelta` sum
      at functions.py:593 when the total passes `MaxDays` days: all are
      `None`. */
  function SummaryOf(store: Store): (r: Option<Summary>)
  {
    if store == [] then Some(NoRecords)
    else
      var rs := RecordsOf(store);
      var ms :- TurnaroundsOf(rs);
      if rs == [] then None
      else if !MinutesFit(SumInt(ms)) then None
      else
        var vs := ValuesOf(rs);
        Some(Report(MinOf(vs), MaxOf(vs), MeanOf(vs), Micros(MinInt(ms)), Micros(MaxInt(ms)), MeanMicros(ms)))
  }

  /** The sentinel is given exactly for the empty mapping. */
  lemma SummaryEmpty(store: Store)
    ensures SummaryOf(store) == Some(NoRecords) <==> store == []
  {
  }

  /** A report is given exactly when some patient holds a record, every
      record's test has a turnaround `timedelta` can read and hold, and the
      turnarounds add up to no more than `MaxDays` days. */
  lemma SummaryReported(store: Store)
    ensures SummaryOf(store).Some? && SummaryOf(store).value.Report? <==>
      && (exists p :: p in store && p.records != [])
      && (forall p, r :: p in store && r in p.records ==> ConvertToMinutes(r.test.turnaround).Some?)
      && (TurnaroundsOf(RecordsOf(store)).Some? ==> MinutesFit(SumInt(TurnaroundsOf(RecordsOf(store)).value)))
  {
    RecordsOfMembers(store);
    var rs := RecordsOf(store);
    assert (exists p :: p in store && p.records != []) <==> rs != [] by {
      if rs != [] {
        assert rs[0] in rs;
      }
      if exists p :: p in store && p.records != [] {
        var p :| p in store && p.records != [];
        assert p.records[0] in rs;
      }
    }
    assert (forall p, r :: p in store && r in p.records ==> ConvertToMinutes(r.test.turnaround).Some?)
      <==> TurnaroundsOf(rs).Some? by {
      if TurnaroundsOf(rs).None? {
        var i :| 0 <= i < |rs| && ConvertToMinutes(rs[i].test.turnaround).None?;
        assert rs[i] in rs;
      } else {
        forall p, r | p in store && r in p.records ensures ConvertToMinutes(r.test.turnaround).Some? {
          assert r in rs;
          var i :| 0 <= i < |rs| && rs[i] == r;
        }
      }
    }
  }

  /** In a report the minimum and maximum value are values of records of the
      mapping (`RecordsOfMembers` says which records those are), bounding
      all of them, and the mean lies between; the same holds for
      turnarounds, read in minutes. */
  lemma SummaryFigures(store: Store)
    requires SummaryOf(store).Some? && SummaryOf(store).value.Report?
    ensures var s, rs := SummaryOf(store).value, RecordsOf(store);
      && (forall r :: r in rs ==>
            && s.minValue.Value() <= r.value.Value() <= s.maxValue.Value()
            && ConvertToMinutes(r.test.turnaround).Some?
            && s.minTurnaround <= Micros(ConvertToMinutes(r.test.turnaround).value) <= s.maxTurnaround)
      && (exists r :: r in rs && r.value == s.minValue)
      && (exists r :: r in rs && r.value == s.maxValue)
      && s.minValue.Value() <= s.meanValue <= s.maxValue.Value()
      && s.minTurnaround <= s.meanTurnaround <= s.maxTurnaround
  {
    var rs := RecordsOf(store);
    var ms := TurnaroundsOf(rs).value;
    var vs := ValuesOf(rs);
    assert SummaryOf(store).value == Report(MinOf(vs), MaxOf(vs), MeanOf(vs), Micros(MinInt(ms)), Micros(MaxInt(ms)), MeanMicros(ms));
    ReportSpec(rs, ms);
  }

  lemma ReportSpec(rs: seq<Record>, ms: seq<int>)
    requires rs != [] && |ms| == |rs|
    requires forall i :: 0 <= i < |rs| ==> ConvertToMinutes(rs[i].test.turnaround) == Some(ms[i])
    ensures var vs := ValuesOf(rs);
      && (forall r :: r in rs ==>
            && MinOf(vs).Value() <= r.value.Value() <= MaxOf(vs).Value()
            && ConvertToMinutes(r.test.turnaround).Some?
            && Micros(MinInt(ms)) <= Micros(ConvertToMinutes(r.test.turnaround).value) <= Micros(MaxInt(ms)))
      && (exists r :: r in rs && r.value == MinOf(vs))
      && (exists r :: r in rs && r.value == MaxOf(vs))
      && MinOf(vs).Value() <= MeanOf(vs) <= MaxOf(vs).Value()
      && Micros(MinInt(ms)) <= MeanMicros(ms) <= Micros(MaxInt(ms))
  {
    var vs := ValuesOf(rs);
    MeanBetween(vs);
    MeanMicrosBetween(ms);
    forall r | r in rs
      ensures MinOf(vs).Value() <= r.value.Value() <= MaxOf(vs).Value()
      ensures ConvertToMinutes(r.test.turnaround).Some?
      ensures Micros(MinInt(ms)) <= Micros(ConvertToMinutes(r.test.turnaround).value) <= Micros(MaxInt(ms))
    {
      var i :| 0 <= i < |rs| && rs[i] == r;
      assert vs[i] in vs;
      assert ms[i] in ms;
      MicrosMonotone(MinInt(ms), ms[i]);
      MicrosMonotone(ms[i], MaxInt(ms));
    }
    var k :| 0 <= k < |vs| && vs[k] == MinOf(vs);
    assert rs[k] in rs;
    var l :| 0 <= l < |vs| && vs[l] == MaxOf(vs);
    assert rs[l] in rs;
  }

  lemma MicrosMonotone(a: int, b: int)
    requires a <= b
    ensures Micros(a) <= Micros(b)
  {
  }

  lemma DaysMonotone(a: int, b: int)
    requires a <= b
    ensures a / MicrosPerDay <= b / MicrosPerDay
  {
    var qa, qb := a / MicrosPerDay, b / MicrosPerDay;
    assert a == qa * MicrosPerDay + a % MicrosPerDay;
    assert b == qb * MicrosPerDay + b % MicrosPerDay;
  }

  /** The three turnaround texts of the report, `days-hours-minutes`
      (functions.py:595-597). */
  function TurnaroundTexts(s: Summary): (string, string, string)
    requires s.Report?
  {
    (ShowDuration(s.minTurnaround), ShowDuration(s.maxTurnaround), ShowDuration(s.meanTurnaround))
  }

  /** The minimum and maximum turnaround are printed in a form that reads
      back as the same number of minutes, and the mean in one that reads
      back as its whole minutes. */
  lemma TurnaroundTextsRead(store: Store)
    requires SummaryOf(store).Some? && SummaryOf(store).value.Report?
    ensures var s := SummaryOf(store).value;
      var (lo, hi, mean) := TurnaroundTexts(s);
      && ValidateTurnaround(lo) && ValidateTurnaround(hi) && ValidateTurnaround(mean)
      && ConvertToMinutes(lo) == Some(s.minTurnaround / MicrosPerMinute)
      && ConvertToMinutes(hi) == Some(s.maxTurnaround / MicrosPerMinute)
      && ConvertToMinutes(mean) == Some(s.meanTurnaround / MicrosPerMinute)
  {
    var s := SummaryOf(store).value;
    var rs := RecordsOf(store);
    var ms := TurnaroundsOf(rs).value;
    var lo, hi := MinInt(ms), MaxInt(ms);
    var i :| 0 <= i < |ms| && ms[i] == lo;
    var j :| 0 <= j < |ms| && ms[j] == hi;
    assert ConvertToMinutes(rs[i].test.turnaround) == Some(lo);
    assert ConvertToMinutes(rs[j].test.turnaround) == Some(hi);
    MeanMicrosBetween(ms);
    MicrosDays(lo);
    MicrosDays(hi);
    DaysMonotone(s.meanTurnaround, Micros(hi));
    ShowDurationRoundTrip(s.minTurnaround);
    ShowDurationRoundTrip(s.maxTurnaround);
    ShowDurationRoundTrip(s.meanTurnaround);
  }
}
