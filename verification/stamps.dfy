/** Timestamps in the one form the program reads and writes,
    `YYYY-MM-DD HH:MM` (`strptime`/`strftime` with `"%Y-%m-%d %H:%M"`). */
module Stamps {
  import opened Options
  import opened Text

  datatype Stamp = Stamp(year: nat, month: nat, day: nat, hour: nat, minute: nat)

  predicate LeapYear(y: nat) {
    (y % 4 == 0 && y % 100 != 0) || y % 400 == 0
  }

  function DaysInMonth(y: nat, m: nat): nat
    requires 1 <= m <= 12
  {
    if m == 2 then (if LeapYear(y) then 29 else 28)
    else if m == 4 || m == 6 || m == 9 || m == 11 then 30
    else 31
  }

  /** A moment `datetime` can represent, to the minute. */
  predicate ValidStamp(st: Stamp) {
    && 1 <= st.year <= 9999
    && 1 <= st.month <= 12
    && 1 <= st.day <= DaysInMonth(st.year, st.month)
    && st.hour < 24
    && st.minute < 60
  }

  /** Chronological order (`<=` on `datetime`): field by field, most
      significant first. */
  predicate NotAfter(a: Stamp, b: Stamp) {
    if a.year != b.year then a.year < b.year
    else if a.month != b.month then a.month < b.month
    else if a.day != b.day then a.day < b.day
    else if a.hour != b.hour then a.hour < b.hour
    else a.minute <= b.minute
  }

  /** An independent reading of the order: minutes counted on a clock in
      which every month has 31 days. It is not a calendar, but it orders
      stamps exactly as the calendar does. */
  function Ordinal(st: Stamp): int
    requires ValidStamp(st)
  {
    (((st.year * 12 + (st.month - 1)) * 31 + (st.day - 1)) * 24 + st.hour) * 60 + st.minute
  }

  lemma NotAfterOrdinal(a: Stamp, b: Stamp)
    requires ValidStamp(a) && ValidStamp(b)
    ensures NotAfter(a, b) <==> Ordinal(a) <= Ordinal(b)
  {
    var da := ((a.year * 12 + (a.month - 1)) * 31 + (a.day - 1)) * 24 + a.hour;
    var db := ((b.year * 12 + (b.month - 1)) * 31 + (b.day - 1)) * 24 + b.hour;
    var ma := (a.year * 12 + (a.month - 1)) * 31 + (a.day - 1);
    var mb := (b.year * 12 + (b.month - 1)) * 31 + (b.day - 1);
    var ya := a.year * 12 + (a.month - 1);
    var yb := b.year * 12 + (b.month - 1);
    assert Ordinal(a) == da * 60 + a.minute && Ordinal(b) == db * 60 + b.minute;
    assert da == ma * 24 + a.hour && db == mb * 24 + b.hour;
    assert ma == ya * 31 + (a.day - 1) && mb == yb * 31 + (b.day - 1);
    OrderedPlace(da, a.minute, db, b.minute, 60);
    OrderedPlace(ma, a.hour, mb, b.hour, 24);
    OrderedPlace(ya, a.day - 1, yb, b.day - 1, 31);
    OrderedPlace(a.year, a.month - 1, b.year, b.month - 1, 12);
  }

  /** Mixed-radix numbers compare by their leading digit first. */
  lemma OrderedPlace(x: int, i: int, y: int, j: int, base: int)
    requires 0 <= i < base && 0 <= j < base
    ensures x < y ==> x * base + i < y * base + j
    ensures x == y ==> (x * base + i <= y * base + j <==> i <= j)
    ensures x * base + i == y * base + j ==> x == y && i == j
  {
    if x < y {
      MultiplyMonotone(x + 1, y, base);
      assert (x + 1) * base == x * base + base;
    }
    if x > y {
      MultiplyMonotone(y + 1, x, base);
      assert (y + 1) * base == y * base + base;
    }
  }

  lemma MultiplyMonotone(a: int, b: int, base: int)
    requires a <= b && 0 < base
    ensures a * base <= b * base
  {
    assert b * base - a * base == (b - a) * base;
  }

  /** `strptime(text, "%Y-%m-%d %H:%M")` for the zero-padded form: sixteen
      characters, digit fields, the four separators, and a date that exists. */
  function ParseStamp(s: string): (r: Option<Stamp>)
    ensures r.Some? ==> ValidStamp(r.value)
  {
    if |s| == 16 && s[4] == '-' && s[7] == '-' && s[10] == ' ' && s[13] == ':'
       && AllDigits(s[0..4]) && AllDigits(s[5..7]) && AllDigits(s[8..10])
       && AllDigits(s[11..13]) && AllDigits(s[14..16])
    then
      var st := Stamp(DigitsValue(s[0..4]), DigitsValue(s[5..7]), DigitsValue(s[8..10]),
                      DigitsValue(s[11..13]), DigitsValue(s[14..16]));
      if ValidStamp(st) then Some(st) else None
    else None
  }

  /** `strftime("%Y-%m-%d %H:%M")`, every field zero-padded. */
  function ShowStamp(st: Stamp): (s: string)
    ensures |s| == 16
  {
    FixedDigits(st.year, 4) + "-" + FixedDigits(st.month, 2) + "-" + FixedDigits(st.day, 2)
      + " " + FixedDigits(st.hour, 2) + ":" + FixedDigits(st.minute, 2)
  }

  /** The five digit fields of a rendering, each in its place. */
  lemma ShowStampFields(st: Stamp)
    ensures var s := ShowStamp(st);
      && s[0..4] == FixedDigits(st.year, 4) && s[5..7] == FixedDigits(st.month, 2)
      && s[8..10] == FixedDigits(st.day, 2) && s[11..13] == FixedDigits(st.hour, 2)
      && s[14..16] == FixedDigits(st.minute, 2)
      && s[4] == '-' && s[7] == '-' && s[10] == ' ' && s[13] == ':'
  {
  }

  /** Reading back what `strftime` wrote gives the same moment. */
  lemma ParseShowStamp(st: Stamp)
    requires ValidStamp(st)
    ensures ParseStamp(ShowStamp(st)) == Some(st)
  {
    ShowStampFields(st);
    assert Pow10(4) == 10000 && Pow10(2) == 100;
    FixedDigitsValue(st.year, 4);
    FixedDigitsValue(st.month, 2);
    FixedDigitsValue(st.day, 2);
    FixedDigitsValue(st.hour, 2);
    FixedDigitsValue(st.minute, 2);
  }

  /** Text `strptime` accepts in the zero-padded form is exactly what
      `strftime` writes for the parsed moment, so storing the reformatted date
      (functions.py:81) keeps the text. */
  lemma ShowParseStamp(s: string)
    requires ParseStamp(s).Some?
    ensures ShowStamp(ParseStamp(s).value) == s
  {
    var st := ParseStamp(s).value;
    FixedDigitsOfValue(s[0..4]);
    FixedDigitsOfValue(s[5..7]);
    FixedDigitsOfValue(s[8..10]);
    FixedDigitsOfValue(s[11..13]);
    FixedDigitsOfValue(s[14..16]);
    ShowStampFields(st);
    var t := ShowStamp(st);
    assert forall i :: 0 <= i < 16 ==> t[i] == s[i] by {
      forall i | 0 <= i < 16 ensures t[i] == s[i] {
        if i < 4 {
          assert t[i] == t[0..4][i];
        } else if 5 <= i < 7 {
          assert t[i] == t[5..7][i - 5];
        } else if 8 <= i < 10 {
          assert t[i] == t[8..10][i - 8];
        } else if 11 <= i < 13 {
          assert t[i] == t[11..13][i - 11];
        } else if 14 <= i {
          assert t[i] == t[14..16][i - 14];
        }
      }
    }
  }

  predicate StampChar(c: char) {
    IsDigit(c) || c == '-' || c == ' ' || c == ':'
  }

  /** A rendering holds digits and the three separators only, begins and ends
      with a digit, and so has no `,` and survives `strip`. */
  lemma ShowStampChars(st: Stamp)
    ensures forall i :: 0 <= i < 16 ==> StampChar(ShowStamp(st)[i])
    ensures IsDigit(ShowStamp(st)[0]) && IsDigit(ShowStamp(st)[15])
    ensures Stripped(ShowStamp(st))
  {
    ShowStampFields(st);
    var s := ShowStamp(st);
    forall i | 0 <= i < 16 ensures StampChar(s[i]) {
      if i < 4 {
        assert s[i] == s[0..4][i];
      } else if 5 <= i < 7 {
        assert s[i] == s[5..7][i - 5];
      } else if 8 <= i < 10 {
        assert s[i] == s[8..10][i - 8];
      } else if 11 <= i < 13 {
        assert s[i] == s[11..13][i - 11];
      } else if 14 <= i {
        assert s[i] == s[14..16][i - 14];
      }
    }
    assert s[0] == s[0..4][0] && s[15] == s[14..16][1];
  }
}
