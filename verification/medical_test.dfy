/** A test definition of the catalog (medical_test.py): name, abbreviation,
    optional normal range, unit and turnaround time. */
module MedicalTests {
  import opened Options
  import opened Text
  import opened Decimals

  /** The six fields the constructor stores (medical_test.py:2-8). The
      turnaround time is kept as the text it was given. */
  datatype MedicalTest = MedicalTest(
    name: string,
    abbr: string,
    lower: Option<Decimal>,
    upper: Option<Decimal>,
    unit: string,
    turnaround: string)

  /** `is_result_normal`: a present lower bound rejects values below it, a
      present upper bound rejects values above it, and everything else is
      normal. */
  predicate IsResultNormal(t: MedicalTest, value: Decimal) {
    if t.lower.Some? && value.Value() < t.lower.value.Value() then false
    else if t.upper.Some? && value.Value() > t.upper.value.Value() then false
    else true
  }

  /** The range as an interval: the values between the present bounds, both
      ends included. */
  predicate InRange(t: MedicalTest, v: real) {
    (t.lower.None? || t.lower.value.Value() <= v) && (t.upper.None? || v <= t.upper.value.Value())
  }

  /** A result is normal exactly when it lies in the range. */
  lemma NormalIsInRange(t: MedicalTest, value: Decimal)
    ensures IsResultNormal(t, value) <==> InRange(t, value.Value())
  {
  }

  /** A value equal to a present bound is normal, unless the other bound
      excludes it. */
  lemma BoundsInclusive(t: MedicalTest, value: Decimal)
    requires t.lower.Some? && value.Value() == t.lower.value.Value()
    requires t.upper.None? || value.Value() <= t.upper.value.Value()
    ensures IsResultNormal(t, value)
  {
  }

  lemma UpperInclusive(t: MedicalTest, value: Decimal)
    requires t.upper.Some? && value.Value() == t.upper.value.Value()
    requires t.lower.None? || t.lower.value.Value() <= value.Value()
    ensures IsResultNormal(t, value)
  {
  }

  /** Without bounds every value is normal. */
  lemma NoBoundsAllNormal(t: MedicalTest, value: Decimal)
    requires t.lower.None? && t.upper.None?
    ensures IsResultNormal(t, value)
  {
  }

  /** One bound slot of `to_file_string`: the marker and the value, or
      nothing at all when the bound is absent. */
  function BoundText(marker: string, b: Option<Decimal>): string {
    match b
    case None => ""
    case Some(d) => marker + ShowDecimal(d)
  }

  /** `to_file_string` (medical_test.py:20-21): a leading newline, then
      `Name: N (A); Range: L, U; Unit: U, T`. The `, ` between the two bound
      slots is written even when both are empty. */
  function ToFileString(t: MedicalTest): string {
    "\n" + NamePart(t) + "; " + RangePart(t) + "; " + UnitPart(t)
  }

  function NamePart(t: MedicalTest): string {
    "Name: " + t.name + " (" + t.abbr + ")"
  }

  function RangePart(t: MedicalTest): string {
    "Range: " + BoundText("> ", t.lower) + ", " + BoundText("< ", t.upper)
  }

  function UnitPart(t: MedicalTest): string {
    "Unit: " + t.unit + ", " + t.turnaround
  }
}
