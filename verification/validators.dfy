/** The checks the program's input loops apply before they accept a value,
    each as a function of the text entered: `Some` is accepted, `None` asks
    again. The `now` of the date checks is a parameter. */
module Acceptance {
  import opened Options
  import opened Text
  import opened Decimals
  import opened Stamps
  import opened MedicalTests
  import opened Ingestion
  import opened RecordFile

  /** The range loop of `add_new_medical_test` (functions.py:144-155): at
      least one bound given, each given bound passing `is_valid_float`, and
      when both are given the lower below the upper. */
  function AcceptRange(lowerText: string, upperText: string): (r: Option<(Option<Decimal>, Option<Decimal>)>)
    ensures r.Some? ==> (r.value.0.Some? <==> Strip(lowerText) != []) && (r.value.1.Some? <==> Strip(upperText) != [])
    ensures r.Some? ==> r.value.0.Some? || r.value.1.Some?
    ensures r.Some? && r.value.0.Some? && r.value.1.Some? ==> r.value.0.value.Value() < r.value.1.value.Value()
  {
    var l, u := Strip(lowerText), Strip(upperText);
    if l == [] && u == [] then None
    else if (l != [] && !IsValidFloat(l)) || (u != [] && !IsValidFloat(u)) then None
    else
      var lo := if l == [] then None else ParseFloat(l);
      var up := if u == [] then None else ParseFloat(u);
      ValidBoundParses(l);
      ValidBoundParses(u);
      if lo.None? || up.None? || lo.value.Value() < up.value.Value() then Some((lo, up)) else None
  }

  /** A bound that is given and passes the check is read by `float`. */
  lemma ValidBoundParses(s: string)
    ensures s != [] && IsValidFloat(s) ==> ParseFloat(s).Some?
  {
    if s != [] && IsValidFloat(s) {
      ValidFloatParses(s);
    }
  }

  /** The range check in terms of the characters entered: a range is
      accepted exactly when at least one bound is given, each given bound is
      digits with at most one `.` (and not `.` alone), and two given bounds
      are ordered. Every bound accepted is what `float` reads from its text. */
  lemma AcceptRangeMeaning(lowerText: string, upperText: string)
    ensures var l, u := Strip(lowerText), Strip(upperText);
      AcceptRange(lowerText, upperText).Some? <==>
        && (l != [] || u != [])
        && (l != [] ==> PlainNumber(l))
        && (u != [] ==> PlainNumber(u))
        && (l != [] && u != [] ==> ParseFloat(l).Some? && ParseFloat(u).Some? && ParseFloat(l).value.Value() < ParseFloat(u).value.Value())
    ensures var l, u := Strip(lowerText), Strip(upperText);
      AcceptRange(lowerText, upperText).Some? ==>
        && (l != [] ==> AcceptRange(lowerText, upperText).value.0 == ParseFloat(l))
        && (u != [] ==> AcceptRange(lowerText, upperText).value.1 == ParseFloat(u))
  {
    var l, u := Strip(lowerText), Strip(upperText);
    IsValidFloatMeaning(l);
    IsValidFloatMeaning(u);
    if l != [] && PlainNumber(l) {
      ValidFloatParses(l);
    }
    if u != [] && PlainNumber(u) {
      ValidFloatParses(u);
    }
  }

  /** Functions.py:181-184: a patient id is exactly seven digits. */
  function AcceptPatientId(text: string): (r: Option<int>)
    ensures r.Some? ==> 0 <= r.value < 10_000_000
  {
    var s := Strip(text);
    if IsDigits(s) && |s| == 7 then
      FixedDigitsOfValue(s);
      assert Pow10(7) == 10_000_000;
      FixedDigitsBound(DigitsValue(s), 7);
      Some(DigitsValue(s))
    else None
  }

  lemma FixedDigitsBound(n: nat, w: nat)
    requires AllDigits(FixedDigits(n, w)) && DigitsValue(FixedDigits(n, w)) == n
    ensures n < Pow10(w)
  {
    DigitsBound(FixedDigits(n, w));
  }

  /** A run of `k` digits is worth less than `10^k`. */
  lemma {:induction false} DigitsBound(s: string)
    requires AllDigits(s)
    ensures DigitsValue(s) < Pow10(|s|)
    decreases |s|
  {
    if s != [] {
      DigitsValueLast(s);
      DigitsBound(s[..|s| - 1]);
    }
  }

  /** The ids accepted are exactly the numbers below ten million, each
      entered as its seven-digit zero-padded form. */
  lemma AcceptPatientIdMeaning(text: string, n: nat)
    requires n < 10_000_000
    ensures AcceptPatientId(FixedDigits(n, 7)) == Some(n)
    ensures AcceptPatientId(text).Some? ==> Strip(text) == FixedDigits(AcceptPatientId(text).value, 7)
  {
    var s := FixedDigits(n, 7);
    assert Pow10(7) == 10_000_000;
    FixedDigitsValue(n, 7);
    assert forall c :: c in s ==> !IsSpace(c);
    NoSpaceStripped(s);
    var t := Strip(text);
    if IsDigits(t) && |t| == 7 {
      FixedDigitsOfValue(t);
    }
  }

  const ValidStatuses: seq<string> := ["pending", "completed", "reviewed"]

  /** Functions.py:217-223 and 322-328: the entered status, stripped and
      lowercased, must be one of the three statuses. */
  function AcceptStatus(text: string): (r: Option<string>)
    ensures r.Some? ==> r.value in ValidStatuses
  {
    var s := Lower(Strip(text));
    if s in ValidStatuses then Some(s) else None
  }

  /** An accepted status is accepted again as itself, and it is never the
      capitalised `Completed` that functions.py:228 and 259 compare with. */
  lemma AcceptStatusSettled(text: string)
    requires AcceptStatus(text).Some?
    ensures AcceptStatus(AcceptStatus(text).value) == AcceptStatus(text)
    ensures AcceptStatus(text).value != "Completed"
  {
    var s := AcceptStatus(text).value;
    assert s == "pending" || s == "completed" || s == "reviewed";
    NoSpaceStripped(s);
    assert Lower(s) == s;
    assert s[0] != 'C';
  }

  /** Functions.py:282-284: a 1-based record number within the list, giving
      the 0-based position. */
  function AcceptRecordNumber(text: string, count: nat): (r: Option<nat>)
    ensures r.Some? ==> r.value < count
  {
    var s := Strip(text);
    if IsDigits(s) && 1 <= DigitsValue(s) <= count then Some(DigitsValue(s) - 1) else None
  }

  /** Every record can be selected, by its number as `str` writes it. */
  lemma EveryRecordSelectable(i: nat, count: nat)
    requires i < count
    ensures AcceptRecordNumber(ShowInt(i + 1), count) == Some(i)
  {
    ShowIntChars(i + 1);
    assert ShowInt(i + 1) == NatDigits(i + 1);
  }

  /** Functions.py:198-202 and 300-305: a date `strptime` reads, between
      2000-01-01 00:00 and `now`, both included. */
  function AcceptTestDate(text: string, now: Stamp): (r: Option<Stamp>)
    ensures r.Some? ==> ValidStamp(r.value) && NotAfter(r.value, now)
    ensures r.Some? ==> r.value.year >= 2000
  {
    var st :- ParseStamp(Strip(text));
    if NotAfter(Stamp(2000, 1, 1, 0, 0), st) && NotAfter(st, now) then Some(st) else None
  }

  /** The same window read on the minute clock. */
  lemma AcceptTestDateMeaning(text: string, now: Stamp)
    requires ValidStamp(now)
    ensures AcceptTestDate(text, now).Some? <==>
      var st := ParseStamp(Strip(text));
      st.Some? && Ordinal(Stamp(2000, 1, 1, 0, 0)) <= Ordinal(st.value) <= Ordinal(now)
  {
    var st := ParseStamp(Strip(text));
    if st.Some? {
      NotAfterOrdinal(Stamp(2000, 1, 1, 0, 0), st.value);
      NotAfterOrdinal(st.value, now);
    }
  }

  /** Functions.py:333-341: a result date `strptime` reads, not before the
      record's test date. */
  function AcceptResultDate(text: string, testDate: Stamp): (r: Option<Stamp>)
    ensures r.Some? ==> ValidStamp(r.value) && NotAfter(testDate, r.value)
  {
    var st :- ParseStamp(Strip(text));
    if NotAfter(testDate, st) then Some(st) else None
  }

  lemma AcceptResultDateMeaning(text: string, testDate: Stamp)
    requires ValidStamp(testDate)
    ensures AcceptResultDate(text, testDate).Some? <==>
      var st := ParseStamp(Strip(text));
      st.Some? && Ordinal(testDate) <= Ordinal(st.value)
  {
    var st := ParseStamp(Strip(text));
    if st.Some? {
      NotAfterOrdinal(testDate, st.value);
    }
  }

  /** Functions.py:130-141: a new abbreviation is non-empty and not yet in
      the catalog. */
  function AcceptNewAbbr(text: string, cat: Catalog): (r: Option<string>)
    ensures r.Some? ==> r.value != [] && r.value !in cat && Stripped(r.value)
  {
    var s := Strip(text);
    if s != [] && s !in cat then Some(s) else None
  }

  // ---------------------------------------------------------------------------
  // A new record (functions.py:226-256)
  // ---------------------------------------------------------------------------

  /** The record `add_new_medical_test_record` builds from accepted inputs.
      The unit is the test's; a result date is gathered only when the status
      is exactly `Completed`. `offered` is the date that prompt would get. */
  function NewRecordEntry(id: int, t: MedicalTest, testDate: Stamp, value: Decimal, status: string, offered: Stamp): Entry {
    Entry(id, t.abbr, testDate, value, t.unit, status, if status == "Completed" then Some(offered) else None)
  }

  /** Since the accepted status is lowercased, no new record ever has a
      result date, and the appended line never carries one: it reads back as
      the record, without a result date. */
  lemma NewRecordHasNoResultDate(id: int, t: MedicalTest, testDate: Stamp, value: Decimal, statusText: string, offered: Stamp)
    requires AcceptStatus(statusText).Some?
    ensures var e := NewRecordEntry(id, t, testDate, value, AcceptStatus(statusText).value, offered);
      && e.resultDate.None?
      && NewRecordText(e) == "\n" + RewriteLine(e)
      && (Writable(e) ==> ParseRecordLine(NewRecordText(e)[1..] + "\n") == Some(e))
  {
    AcceptStatusSettled(statusText);
    var e := NewRecordEntry(id, t, testDate, value, AcceptStatus(statusText).value, offered);
    assert NewRecordText(e)[1..] == RewriteLine(e);
    if Writable(e) {
      ParseRewriteLine(e);
    }
  }
}
