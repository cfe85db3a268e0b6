/** The test catalog file: one test definition per line, read by
    `read_medical_tests` (functions.py:23-55) and written by
    `MedicalTest.to_file_string` (medical_test.py:20-21). */
module Catalog {
  import opened Options
  import opened Text
  import opened Decimals
  import opened MedicalTests

  /** What one line contributes: nothing (fewer than three `; ` segments,
      functions.py:29-31), a definition, or the exception that aborts the
      whole load (`read_medical_tests` has no handler). */
  datatype CatalogLine = Skipped | Broken | Defined(test: MedicalTest)

  /** `line.strip().split("; ")` (functions.py:27). */
  function Segments(line: string): seq<string> {
    Split(Strip(line), "; ")
  }

  /** The per-line body of `read_medical_tests` (functions.py:27-52). */
  function ParseCatalogLine(line: string): (r: CatalogLine)
    ensures r.Skipped? <==> |Segments(line)| < 3
    ensures r.Defined? ==> WellRead(r.test)
  {
    var parts := Segments(line);
    if |parts| < 3 then Skipped
    else
      match ParseSegments(parts[0], parts[1], parts[2])
      case None => Broken
      case Some(t) => Defined(t)
  }

  /** What every definition read from the file looks like: the four text
      fields are stripped, the abbreviation holds no `)`, and the bounds are
      floats as `float` produces them. */
  predicate WellRead(t: MedicalTest) {
    && Stripped(t.name) && Stripped(t.abbr) && Stripped(t.unit) && Stripped(t.turnaround)
    && ')' !in t.abbr
    && (t.lower.Some? ==> Canonical(t.lower.value))
    && (t.upper.Some? ==> Canonical(t.upper.value))
  }

  /** The range text after `Range: ` (functions.py:37). */
  function RangeText(segment: string): Option<string> {
    Item(Split(segment, ": "), 1)
  }

  /** Functions.py:33-50 on the first three segments. Every `[1]` that finds
      no second piece and every `float` that fails is an error (`None`). */
  function ParseSegments(p0: string, p1: string, p2: string): (r: Option<MedicalTest>)
    ensures r.Some? ==> WellRead(r.value)
  {
    var nameAbbr :- Item(Split(p0, ": "), 1);
    var name := Strip(Split(nameAbbr, " (")[0]);
    var afterParen :- Item(Split(nameAbbr, " ("), 1);
    var abbr := Strip(Split(afterParen, ")")[0]);
    SplitPiecesFree(afterParen, ')');
    StripInside(Split(afterParen, ")")[0]);
    var rangePart :- RangeText(p1);
    var lower :- if '>' in rangePart then ParseLower(rangePart) else Some(None);
    var upper :- if '<' in rangePart then ParseUpper(p1) else Some(None);
    var unitPart := Split(p2, ", ")[0];
    var unitText :- Item(Split(unitPart, ": "), 1);
    var turnaroundText :- Item(Split(p2, ", "), 1);
    Some(MedicalTest(name, abbr, lower, upper, Strip(unitText), Strip(turnaroundText)))
  }

  /** `float(range_part.split("> ")[1].split(",")[0].strip())` (functions.py:43). */
  function ParseLower(rangePart: string): Option<Option<Decimal>> {
    var after :- Item(Split(rangePart, "> "), 1);
    var d :- ParseFloat(Strip(Split(after, ",")[0]));
    Some(Some(d))
  }

  /** `float(parts[1].split("< ")[1].strip())` (functions.py:45): the upper
      bound is looked up in the whole segment, not in the range text. */
  function ParseUpper(segment: string): Option<Option<Decimal>> {
    var after :- Item(Split(segment, "< "), 1);
    var d :- ParseFloat(Strip(after));
    Some(Some(d))
  }

  /** A bound is read exactly when its marker occurs in the range text. */
  lemma BoundsFollowMarkers(line: string)
    requires ParseCatalogLine(line).Defined?
    ensures var parts := Segments(line);
      var t := ParseCatalogLine(line).test;
      && RangeText(parts[1]).Some?
      && (t.lower.Some? <==> '>' in RangeText(parts[1]).value)
      && (t.upper.Some? <==> '<' in RangeText(parts[1]).value)
  {
  }

  // ---------------------------------------------------------------------------
  // Loading a catalog
  // ---------------------------------------------------------------------------

  /** `read_medical_tests` over the lines of a file: every line is read, and
      the outcomes are accumulated in file order. */
  function LoadCatalog(lines: seq<string>): Option<map<string, MedicalTest>> {
    Accumulate(ReadLines(lines))
  }

  function ReadLines(lines: seq<string>): (r: seq<CatalogLine>)
    ensures |r| == |lines|
  {
    seq(|lines|, i requires 0 <= i < |lines| => ParseCatalogLine(lines[i]))
  }

  /** Definitions are entered under their abbreviation in order, so a later
      one overwrites an earlier one; a broken line aborts the load (`None`). */
  function Accumulate(outcomes: seq<CatalogLine>): Option<map<string, MedicalTest>>
    decreases |outcomes|
  {
    if outcomes == [] then Some(map[])
    else
      var before :- Accumulate(outcomes[..|outcomes| - 1]);
      match outcomes[|outcomes| - 1]
      case Skipped => Some(before)
      case Broken => None
      case Defined(t) => Some(before[t.abbr := t])
  }

  /** Independent reference: the definition an abbreviation gets is the last
      one given for it. */
  function LastDefinition(outcomes: seq<CatalogLine>, abbr: string): Option<MedicalTest>
    decreases |outcomes|
  {
    if outcomes == [] then None
    else
      var line := outcomes[|outcomes| - 1];
      if line.Defined? && line.test.abbr == abbr then Some(line.test)
      else LastDefinition(outcomes[..|outcomes| - 1], abbr)
  }

  predicate SomeBroken(outcomes: seq<CatalogLine>) {
    exists i :: 0 <= i < |outcomes| && outcomes[i].Broken?
  }

  /** A load fails exactly when some line is broken. */
  lemma {:induction false} AccumulateFails(outcomes: seq<CatalogLine>)
    ensures Accumulate(outcomes).None? <==> SomeBroken(outcomes)
    decreases |outcomes|
  {
    if outcomes != [] {
      var front := outcomes[..|outcomes| - 1];
      AccumulateFails(front);
      if SomeBroken(front) {
        var i :| 0 <= i < |front| && front[i].Broken?;
        assert outcomes[i].Broken?;
      }
      if SomeBroken(outcomes) && !outcomes[|outcomes| - 1].Broken? {
        var i :| 0 <= i < |outcomes| && outcomes[i].Broken?;
        assert front[i].Broken?;
      }
    }
  }

  /** A successful load holds, for every abbreviation, the last definition of
      it, and nothing else. */
  lemma {:induction false} AccumulateEntries(outcomes: seq<CatalogLine>)
    requires Accumulate(outcomes).Some?
    ensures forall abbr :: (abbr in Accumulate(outcomes).value <==> LastDefinition(outcomes, abbr).Some?)
    ensures forall abbr :: abbr in Accumulate(outcomes).value ==>
      Accumulate(outcomes).value[abbr] == LastDefinition(outcomes, abbr).value
    decreases |outcomes|
  {
    if outcomes != [] {
      AccumulateEntries(outcomes[..|outcomes| - 1]);
    }
  }

  /** The catalog read from a file, in terms of its lines: no catalog exactly
      when a line is broken, and otherwise the last definition of every
      abbreviation that has one. */
  lemma LoadCatalogMeaning(lines: seq<string>)
    ensures LoadCatalog(lines).None? <==> exists i :: 0 <= i < |lines| && ParseCatalogLine(lines[i]).Broken?
    ensures LoadCatalog(lines).Some? ==>
      forall abbr :: (abbr in LoadCatalog(lines).value <==> LastDefinition(ReadLines(lines), abbr).Some?)
        && (abbr in LoadCatalog(lines).value ==> LoadCatalog(lines).value[abbr] == LastDefinition(ReadLines(lines), abbr).value)
  {
    var outcomes := ReadLines(lines);
    AccumulateFails(outcomes);
    if Accumulate(outcomes).Some? {
      AccumulateEntries(outcomes);
    }
    if exists i :: 0 <= i < |lines| && ParseCatalogLine(lines[i]).Broken? {
      var i :| 0 <= i < |lines| && ParseCatalogLine(lines[i]).Broken?;
      assert outcomes[i].Broken?;
    }
  }

  /** Every entry is filed under its own abbreviation. */
  lemma {:induction false} CatalogKeyedByAbbr(outcomes: seq<CatalogLine>)
    requires Accumulate(outcomes).Some?
    ensures forall abbr :: abbr in Accumulate(outcomes).value ==> Accumulate(outcomes).value[abbr].abbr == abbr
    decreases |outcomes|
  {
    if outcomes != [] {
      CatalogKeyedByAbbr(outcomes[..|outcomes| - 1]);
    }
  }

  /** Every definition held by an accumulated catalog is one of the lines'. */
  lemma {:induction false} AccumulateWellRead(outcomes: seq<CatalogLine>)
    requires forall i :: 0 <= i < |outcomes| && outcomes[i].Defined? ==> WellRead(outcomes[i].test)
    requires Accumulate(outcomes).Some?
    ensures forall abbr :: abbr in Accumulate(outcomes).value ==> WellRead(Accumulate(outcomes).value[abbr])
    decreases |outcomes|
  {
    if outcomes != [] {
      AccumulateWellRead(outcomes[..|outcomes| - 1]);
    }
  }

  /** Every test of a loaded catalog has stripped fields, an abbreviation
      without `)` and bounds as `float` produces them. */
  lemma LoadedWellRead(lines: seq<string>)
    requires LoadCatalog(lines).Some?
    ensures forall abbr :: abbr in LoadCatalog(lines).value ==> WellRead(LoadCatalog(lines).value[abbr])
  {
    AccumulateWellRead(ReadLines(lines));
  }

  // ---------------------------------------------------------------------------
  // Writing a definition and reading it back
  // ---------------------------------------------------------------------------

  /** The characters a definition may hold for its line to read back: no
      field holds the `;` of the segment separator; name and abbreviation hold
      no `:` and no `(`; the abbreviation holds no `)`; the unit holds no `:`
      and no `,`; the turnaround time holds no `,` and is not empty; every
      text field is already stripped; and each bound has a fraction digit, as
      every `float` the program reads does. */
  predicate Writable(t: MedicalTest) {
    && Stripped(t.name) && ';' !in t.name && ':' !in t.name && '(' !in t.name
    && Stripped(t.abbr) && ';' !in t.abbr && ':' !in t.abbr && '(' !in t.abbr && ')' !in t.abbr
    && Stripped(t.unit) && ';' !in t.unit && ':' !in t.unit && ',' !in t.unit
    && Stripped(t.turnaround) && t.turnaround != [] && ';' !in t.turnaround && ',' !in t.turnaround
    && (t.lower.Some? ==> Canonical(t.lower.value))
    && (t.upper.Some? ==> Canonical(t.upper.value))
  }

  /** Reading back what `to_file_string` wrote gives the same definition:
      name, abbreviation, both bounds (present or not, and their values),
      unit and turnaround time. */
  lemma ParseToFileString(t: MedicalTest)
    requires Writable(t)
    ensures ParseCatalogLine(ToFileString(t)) == Defined(t)
  {
    LineSegments(t);
    NameSegment(t.name, t.abbr);
    RangeSegment(t);
    UnitSegment(t.unit, t.turnaround);
    SegmentsRead(t);
  }

  lemma SegmentsRead(t: MedicalTest)
    requires Writable(t)
    requires Item(Split(NamePart(t), ": "), 1) == Some(t.name + " (" + t.abbr + ")")
    requires Split(t.name + " (" + t.abbr + ")", " (") == [t.name, t.abbr + ")"]
    requires Split(t.abbr + ")", ")")[0] == t.abbr
    requires RangeText(RangePart(t)).Some?
    requires (if '>' in RangeText(RangePart(t)).value then ParseLower(RangeText(RangePart(t)).value) else Some(None)) == Some(t.lower)
    requires (if '<' in RangeText(RangePart(t)).value then ParseUpper(RangePart(t)) else Some(None)) == Some(t.upper)
    requires Split(UnitPart(t), ", ") == ["Unit: " + t.unit, t.turnaround]
    requires Split("Unit: " + t.unit, ": ") == ["Unit", t.unit]
    ensures ParseSegments(NamePart(t), RangePart(t), UnitPart(t)) == Some(t)
  {
    StripStripped(t.name);
    StripStripped(t.abbr);
    StripStripped(t.unit);
    StripStripped(t.turnaround);
  }

  lemma SemicolonFree(t: MedicalTest)
    requires Writable(t)
    ensures ';' !in NamePart(t) && ';' !in RangePart(t) && ';' !in UnitPart(t)
  {
    SlotChars("> ", t.lower);
    SlotChars("< ", t.upper);
  }

  /** A bound slot holds none of the separators of a definition line, and
      not the other slot's marker. */
  lemma SlotChars(marker: string, b: Option<Decimal>)
    requires marker == "> " || marker == "< "
    ensures var s := BoundText(marker, b);
      ';' !in s && ':' !in s && ',' !in s
      && (marker == "> " ==> '<' !in s) && (marker == "< " ==> '>' !in s)
  {
    if b.Some? {
      NumberFree(b.value);
      assert BoundText(marker, b) == marker + ShowDecimal(b.value);
    }
  }

  lemma NumberFree(d: Decimal)
    ensures var s := ShowDecimal(d);
      ';' !in s && ':' !in s && ',' !in s && '<' !in s && '>' !in s
  {
    ShowDecimalChars(d);
  }

  /** A bound slot holds its marker, digits, `-` and `.` only. */
  lemma BoundChars(marker: string, b: Option<Decimal>)
    ensures forall c :: c in BoundText(marker, b) ==> c in marker || NumberChar(c)
  {
    if b.Some? {
      ShowDecimalChars(b.value);
    }
  }

  /** `strip` removes the leading newline and `split("; ")` yields the three parts. */
  lemma LineSegments(t: MedicalTest)
    requires Writable(t)
    ensures Segments(ToFileString(t)) == [NamePart(t), RangePart(t), UnitPart(t)]
  {
    SemicolonFree(t);
    assert NamePart(t)[0] == 'N';
    var u := UnitPart(t);
    assert u[|u| - 1] == t.turnaround[|t.turnaround| - 1];
    ThreeSegments(NamePart(t), RangePart(t), u);
  }

  lemma ThreeSegments(a: string, b: string, c: string)
    requires ';' !in a && ';' !in b && ';' !in c
    requires a != [] && !IsSpace(a[0]) && c != [] && !IsSpace(c[|c| - 1])
    ensures Segments("\n" + a + "; " + b + "; " + c) == [a, b, c]
  {
    var body := a + "; " + b + "; " + c;
    assert "\n" + a + "; " + b + "; " + c == ['\n'] + body;
    assert body[0] == a[0] && body[|body| - 1] == c[|c| - 1];
    StripLeadingSpace('\n', body);
    SplitNone(c, "; ", 0);
    SplitOff(b, "; ", c, 0);
    assert body == a + "; " + (b + "; " + c);
    SplitOff(a, "; ", b + "; " + c, 0);
  }

  /** `Name: N (A)` yields `N` and `A`. */
  lemma NameSegment(name: string, abbr: string)
    requires ':' !in name && '(' !in name
    requires ':' !in abbr && '(' !in abbr && ')' !in abbr
    ensures Item(Split("Name: " + name + " (" + abbr + ")", ": "), 1) == Some(name + " (" + abbr + ")")
    ensures Split(name + " (" + abbr + ")", " (") == [name, abbr + ")"]
    ensures Split(abbr + ")", ")")[0] == abbr
  {
    var rest := name + " (" + abbr + ")";
    assert "Name: " + name + " (" + abbr + ")" == "Name" + ": " + rest;
    SplitNone(rest, ": ", 0);
    SplitOff("Name", ": ", rest, 0);
    SplitNone(abbr + ")", " (", 1);
    SplitOff(name, " (", abbr + ")", 1);
    assert rest == name + " (" + (abbr + ")");
    SplitOff(abbr, ")", [], 0);
    assert abbr + ")" + [] == abbr + ")";
  }

  /** `Unit: U, T` yields `U` and `T`. */
  lemma UnitSegment(unit: string, turnaround: string)
    requires ':' !in unit && ',' !in unit && ',' !in turnaround
    ensures Split("Unit: " + unit + ", " + turnaround, ", ") == ["Unit: " + unit, turnaround]
    ensures Split("Unit: " + unit, ": ") == ["Unit", unit]
  {
    SplitNone(turnaround, ", ", 0);
    SplitOff("Unit: " + unit, ", ", turnaround, 0);
    SplitNone(unit, ": ", 0);
    assert "Unit: " + unit == "Unit" + ": " + unit;
    SplitOff("Unit", ": ", unit, 0);
  }

  /** `Range: L, U` yields the range text, and each bound is read back
      exactly when it was written. */
  lemma RangeSegment(t: MedicalTest)
    requires Writable(t)
    ensures RangeText(RangePart(t)) == Some(BoundText("> ", t.lower) + ", " + BoundText("< ", t.upper))
    ensures var r := BoundText("> ", t.lower) + ", " + BoundText("< ", t.upper);
      (if '>' in r then ParseLower(r) else Some(None)) == Some(t.lower)
    ensures var r := BoundText("> ", t.lower) + ", " + BoundText("< ", t.upper);
      (if '<' in r then ParseUpper(RangePart(t)) else Some(None)) == Some(t.upper)
  {
    var lo, up := BoundText("> ", t.lower), BoundText("< ", t.upper);
    SlotChars("> ", t.lower);
    SlotChars("< ", t.upper);
    RangeTextOf(lo, up);
    LowerRead(t.lower, up);
    UpperRead(lo, t.upper);
  }

  lemma RangeTextOf(lo: string, up: string)
    requires ':' !in lo && ':' !in up
    ensures RangeText("Range: " + lo + ", " + up) == Some(lo + ", " + up)
  {
    var r := lo + ", " + up;
    SplitNone(r, ": ", 0);
    assert "Range: " + lo + ", " + up == "Range" + ": " + r;
    SplitOff("Range", ": ", r, 0);
  }

  lemma LowerRead(lower: Option<Decimal>, up: string)
    requires lower.Some? ==> Canonical(lower.value)
    requires '>' !in up && ',' !in up
    ensures var r := BoundText("> ", lower) + ", " + up;
      (if '>' in r then ParseLower(r) else Some(None)) == Some(lower)
  {
    var r := BoundText("> ", lower) + ", " + up;
    BoundChars("> ", lower);
    if lower.Some? {
      var d := ShowDecimal(lower.value);
      ShowDecimalChars(lower.value);
      LowerText(d, up);
      ParseShowDecimal(lower.value);
      assert r[0] == '>';
    } else {
      assert '>' !in r;
    }
  }

  /** `> D, U` yields `D` before the comma. */
  lemma LowerText(d: string, up: string)
    requires '>' !in d && ',' !in d && '>' !in up && Stripped(d)
    ensures Item(Split("> " + d + ", " + up, "> "), 1) == Some(d + ", " + up)
    ensures Strip(Split(d + ", " + up, ",")[0]) == d
  {
    assert "> " + d + ", " + up == [] + "> " + (d + ", " + up);
    SplitNone(d + ", " + up, "> ", 0);
    SplitOff([], "> ", d + ", " + up, 0);
    assert d + ", " + up == d + "," + (" " + up);
    SplitOff(d, ",", " " + up, 0);
    StripStripped(d);
  }

  lemma UpperRead(lo: string, upper: Option<Decimal>)
    requires upper.Some? ==> Canonical(upper.value)
    requires '<' !in lo && ':' !in lo
    ensures var r := lo + ", " + BoundText("< ", upper);
      (if '<' in r then ParseUpper("Range: " + lo + ", " + BoundText("< ", upper)) else Some(None)) == Some(upper)
  {
    var r := lo + ", " + BoundText("< ", upper);
    BoundChars("< ", upper);
    if upper.Some? {
      var d := ShowDecimal(upper.value);
      ShowDecimalChars(upper.value);
      assert '<' !in d;
      var front := "Range: " + lo + ", ";
      assert '<' !in front;
      assert "Range: " + lo + ", " + BoundText("< ", upper) == front + "< " + d;
      UpperText(front, d);
      ParseShowDecimal(upper.value);
      assert '<' in r by {
        assert r[|lo| + 2] == '<';
      }
    } else {
      assert '<' !in r;
    }
  }

  /** `F< D` yields `D` after the marker. */
  lemma UpperText(front: string, d: string)
    requires '<' !in front && '<' !in d && Stripped(d)
    ensures Item(Split(front + "< " + d, "< "), 1) == Some(d)
    ensures Strip(d) == d
  {
    SplitNone(d, "< ", 0);
    SplitOff(front, "< ", d, 0);
    StripStripped(d);
  }
}
