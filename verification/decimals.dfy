/** Result values and range bounds. Python keeps them as binary floats; this
    model keeps the decimal text they were read from, `mantissa / 10^scale`,
    and compares them through their exact real `Value()`. */
module Decimals {
  import opened Options
  import opened Text

  datatype Decimal = Decimal(mantissa: int, scale: nat) {
    function Value(): real {
      mantissa as real / Pow10(scale) as real
    }
  }

  /** What `float(text)` yields is always shown with at least one fraction
      digit (`70` reads as `70.0`); such decimals render back exactly. */
  predicate Canonical(d: Decimal) {
    d.scale >= 1
  }

  /** `float(text)` for plain decimal notation: surrounding whitespace, an
      optional sign, digits with at most one `.`, and at least one digit.
      Anything else is the `ValueError` (`None`). */
  function ParseFloat(s: string): (r: Option<Decimal>)
    ensures r.Some? ==> Canonical(r.value)
  {
    ParseSigned(Strip(s))
  }

  /** A stripped float literal: an optional sign in front of the unsigned part. */
  function ParseSigned(t: string): (r: Option<Decimal>)
    ensures r.Some? ==> Canonical(r.value)
  {
    if t != [] && t[0] == '-' then Negated(ParseUnsigned(t[1..]))
    else if t != [] && t[0] == '+' then ParseUnsigned(t[1..])
    else ParseUnsigned(t)
  }

  function Negated(r: Option<Decimal>): (n: Option<Decimal>)
    ensures n.Some? <==> r.Some?
    ensures n.Some? ==> n.value.Value() == -r.value.Value() && n.value.scale == r.value.scale
  {
    match r
    case None => None
    case Some(u) => Some(Decimal(-u.mantissa, u.scale))
  }

  /** The unsigned part of a float literal: digits, at most one `.`, and at
      least one digit on either side of it. */
  function ParseUnsigned(body: string): (r: Option<Decimal>)
    ensures r.Some? ==> Canonical(r.value) && r.value.mantissa >= 0
  {
    var (whole, fraction) := match SplitOnce(body, '.')
      case None => (body, [])
      case Some(p) => p;
    if !AllDigits(whole) || !AllDigits(fraction) || '.' in fraction || |whole| + |fraction| == 0 then None
    else
      var m := DigitsValue(whole + fraction) as int;
      Some(if fraction == [] then Decimal(m * 10, 1) else Decimal(m, |fraction|))
  }

  /** Digits, a point and at least one fraction digit read as the decimal
      whose digits they are. */
  lemma ParseUnsignedPoint(whole: string, fraction: string)
    requires AllDigits(whole) && AllDigits(fraction) && fraction != []
    ensures ParseUnsigned(whole + "." + fraction) == Some(Decimal(DigitsValue(whole + fraction), |fraction|))
  {
    assert '.' !in whole by {
      forall i | 0 <= i < |whole| ensures whole[i] != '.' {
        assert IsDigit(whole[i]);
      }
    }
    assert '.' !in fraction by {
      forall i | 0 <= i < |fraction| ensures fraction[i] != '.' {
        assert IsDigit(fraction[i]);
      }
    }
    SplitOnceAt(whole, '.', fraction);
  }

  /** The digits of `|mantissa|`, zero-padded so that at least one digit
      stands before the point. */
  function PaddedDigits(d: Decimal): (r: string)
    ensures |r| >= d.scale + 1 && AllDigits(r)
    ensures DigitsValue(r) == if d.mantissa < 0 then -d.mantissa else d.mantissa
  {
    var n := if d.mantissa < 0 then -d.mantissa else d.mantissa;
    var ds := NatDigits(n);
    var k := if |ds| < d.scale + 1 then d.scale + 1 - |ds| else 0;
    ZerosPrefix(k, ds);
    Zeros(k) + ds
  }

  /** `str(value)` in fixed-point notation, keeping the decimal's own digits
      (a decimal without fraction digits is shown with `.0`, as Python does). */
  function ShowDecimal(d: Decimal): string {
    var e := Widened(d);
    (if e.mantissa < 0 then "-" else "") + IntegerPart(e) + "." + FractionPart(e)
  }

  /** The same number with at least one fraction digit. */
  function Widened(d: Decimal): (e: Decimal)
    ensures Canonical(e)
  {
    if d.scale == 0 then Decimal(d.mantissa * 10, 1) else d
  }

  /** The digits of `|mantissa|` in front of the point. */
  function IntegerPart(d: Decimal): string
    requires Canonical(d)
  {
    var ds := PaddedDigits(d);
    ds[..|ds| - d.scale]
  }

  /** The `scale` digits of `|mantissa|` behind the point. */
  function FractionPart(d: Decimal): string
    requires Canonical(d)
  {
    var ds := PaddedDigits(d);
    ds[|ds| - d.scale..]
  }

  /** Both parts are digit strings, the integer part is never empty, and
      together they spell `|mantissa|`. */
  lemma PartsDigits(d: Decimal)
    requires Canonical(d)
    ensures AllDigits(IntegerPart(d)) && IntegerPart(d) != []
    ensures AllDigits(FractionPart(d)) && |FractionPart(d)| == d.scale
    ensures DigitsValue(IntegerPart(d) + FractionPart(d)) == if d.mantissa < 0 then -d.mantissa else d.mantissa
  {
    var ds := PaddedDigits(d);
    assert IntegerPart(d) + FractionPart(d) == ds;
  }

  predicate NumberChar(c: char) {
    IsDigit(c) || c == '-' || c == '.'
  }

  /** The rendering is made of digits, `-` and `.` only, and has no whitespace. */
  lemma ShowDecimalChars(d: Decimal)
    ensures forall c :: c in ShowDecimal(d) ==> NumberChar(c)
    ensures Stripped(ShowDecimal(d))
  {
    var e := Widened(d);
    var s := ShowDecimal(d);
    PartsDigits(e);
    var w, f := IntegerPart(e), FractionPart(e);
    assert forall c :: c in w ==> IsDigit(c) by {
      forall c | c in w ensures IsDigit(c) {
        var i :| 0 <= i < |w| && w[i] == c;
      }
    }
    assert forall c :: c in f ==> IsDigit(c) by {
      forall c | c in f ensures IsDigit(c) {
        var i :| 0 <= i < |f| && f[i] == c;
      }
    }
    assert forall c :: c in s ==> NumberChar(c);
    assert forall c :: c in s ==> !IsSpace(c);
    NoSpaceStripped(s);
  }

  /** Digits, a point and fraction digits read as the decimal whose digits they are. */
  lemma ParsePoint(whole: string, fraction: string)
    requires AllDigits(whole) && whole != [] && AllDigits(fraction) && fraction != []
    ensures ParseFloat(whole + "." + fraction) == Some(Decimal(DigitsValue(whole + fraction), |fraction|))
  {
    ParseFloatPoint(whole, fraction);
    ParseUnsignedPoint(whole, fraction);
  }

  /** The same with a leading minus sign. */
  lemma ParseMinusPoint(whole: string, fraction: string)
    requires AllDigits(whole) && whole != [] && AllDigits(fraction) && fraction != []
    ensures ParseFloat("-" + whole + "." + fraction) == Some(Decimal(-(DigitsValue(whole + fraction) as int), |fraction|))
  {
    ParseFloatMinusPoint(whole, fraction);
    NegatedPoint(whole, fraction);
  }

  /** Unsigned text without whitespace around it goes straight to `ParseUnsigned`. */
  lemma ParseFloatPoint(whole: string, fraction: string)
    requires AllDigits(whole) && whole != [] && AllDigits(fraction) && fraction != []
    ensures ParseFloat(whole + "." + fraction) == ParseUnsigned(whole + "." + fraction)
  {
    var body := whole + "." + fraction;
    BodyStripped(whole, fraction);
    assert IsDigit(body[0]);
  }

  /** A leading minus sign negates what the rest reads as. */
  lemma ParseFloatMinusPoint(whole: string, fraction: string)
    requires AllDigits(whole) && whole != [] && AllDigits(fraction) && fraction != []
    ensures ParseFloat("-" + whole + "." + fraction) == Negated(ParseUnsigned(whole + "." + fraction))
  {
    assert ("-" + whole + "." + fraction)[1..] == whole + "." + fraction;
  }

  lemma NegatedPoint(whole: string, fraction: string)
    requires AllDigits(whole) && AllDigits(fraction) && fraction != []
    ensures Negated(ParseUnsigned(whole + "." + fraction)) == Some(Decimal(-(DigitsValue(whole + fraction) as int), |fraction|))
  {
    ParseUnsignedPoint(whole, fraction);
  }

  lemma BodyStripped(whole: string, fraction: string)
    requires AllDigits(whole) && whole != [] && AllDigits(fraction) && fraction != []
    ensures Stripped(whole + "." + fraction)
    ensures (whole + "." + fraction)[0] == whole[0]
    ensures (whole + "." + fraction)[|whole + "." + fraction| - 1] == fraction[|fraction| - 1]
  {
  }

  /** Reading back the rendering of a canonical decimal gives that decimal. */
  lemma ParseShowDecimal(d: Decimal)
    requires Canonical(d)
    ensures ParseFloat(ShowDecimal(d)) == Some(d)
  {
    if d.mantissa < 0 {
      ParseShowNegative(d);
    } else {
      ParseShowNonNegative(d);
    }
  }

  lemma ParseShowNegative(d: Decimal)
    requires Canonical(d) && d.mantissa < 0
    ensures ParseFloat(ShowDecimal(d)) == Some(d)
  {
    PartsDigits(d);
    ShowDecimalShape(d);
    ParseMinusPoint(IntegerPart(d), FractionPart(d));
  }

  lemma ParseShowNonNegative(d: Decimal)
    requires Canonical(d) && d.mantissa >= 0
    ensures ParseFloat(ShowDecimal(d)) == Some(d)
  {
    PartsDigits(d);
    ShowDecimalShape(d);
    ParsePoint(IntegerPart(d), FractionPart(d));
  }

  lemma ShowDecimalShape(d: Decimal)
    requires Canonical(d)
    ensures d.mantissa < 0 ==> ShowDecimal(d) == "-" + IntegerPart(d) + "." + FractionPart(d)
    ensures d.mantissa >= 0 ==> ShowDecimal(d) == IntegerPart(d) + "." + FractionPart(d)
  {
  }

  /** Rendering and reading back keeps the value of every decimal. */
  lemma ParseShowDecimalValue(d: Decimal)
    ensures ParseFloat(ShowDecimal(d)).Some?
    ensures ParseFloat(ShowDecimal(d)).value.Value() == d.Value()
  {
    if d.scale == 0 {
      var e := Decimal(d.mantissa * 10, 1);
      ParseShowDecimal(e);
      WidenedValue(d.mantissa);
    } else {
      ParseShowDecimal(d);
    }
  }

  /** A decimal without fraction digits is shown with one zero fraction digit. */
  lemma WidenedValue(m: int)
    ensures Decimal(m * 10, 1).Value() == Decimal(m, 0).Value()
  {
    assert Pow10(1) == 10 && Pow10(0) == 1;
  }

  // ---------------------------------------------------------------------------
  // is_valid_float
  // ---------------------------------------------------------------------------

  /** `value.replace('.', '', 1).isdigit()` (functions.py:110-111). */
  predicate IsValidFloat(s: string) {
    IsDigits(RemoveFirst(s, '.'))
  }

  /** Independent reading of the check: non-empty, nothing but digits and at
      most one `.`, and not the bare `.`. So `-1`, `1e5`, `1.2.3`, `.` and the
      empty text are rejected. */
  predicate PlainNumber(s: string) {
    && s != [] && s != "."
    && (forall i :: 0 <= i < |s| ==> IsDigit(s[i]) || s[i] == '.')
    && (forall i, j :: 0 <= i < j < |s| && s[i] == '.' ==> s[j] != '.')
  }

  lemma IsValidFloatMeaning(s: string)
    ensures IsValidFloat(s) <==> PlainNumber(s)
  {
    match SplitOnce(s, '.')
    case None =>
      assert RemoveFirst(s, '.') == s;
      assert forall i :: 0 <= i < |s| ==> s[i] != '.' by {
        forall i | 0 <= i < |s| ensures s[i] != '.' {
          assert s[i] in s;
        }
      }
    case Some(p) =>
      assert RemoveFirst(s, '.') == p.0 + p.1;
      if IsDigits(p.0 + p.1) {
        PointDigitsPlain(p.0, p.1);
      }
      if PlainNumber(s) {
        PlainPointDigits(p.0, p.1);
      }
  }

  /** Digits around one `.` form a plain number. */
  lemma PointDigitsPlain(a: string, b: string)
    requires '.' !in a && IsDigits(a + b)
    ensures PlainNumber(a + "." + b)
  {
    var s, ab := a + "." + b, a + b;
    assert forall i :: 0 <= i < |a| ==> s[i] == ab[i];
    assert forall i :: |a| < i < |s| ==> s[i] == ab[i - 1];
    assert s[|a|] == '.';
  }

  /** A plain number with its first `.` removed is a digit string. */
  lemma PlainPointDigits(a: string, b: string)
    requires '.' !in a && PlainNumber(a + "." + b)
    ensures IsDigits(a + b)
  {
    var s, ab := a + "." + b, a + b;
    assert s[|a|] == '.';
    assert |ab| == 0 ==> s == ".";
    forall i | 0 <= i < |ab| ensures IsDigit(ab[i]) {
      if i < |a| {
        assert ab[i] == s[i];
      } else {
        assert ab[i] == s[i + 1];
        assert |a| < i + 1;
      }
    }
  }

  /** Text the check accepts is read by `float` without error, as a
      non-negative number (functions.py:147-148, 212-213). */
  lemma ValidFloatParses(s: string)
    requires IsValidFloat(s)
    ensures ParseFloat(s).Some?
    ensures ParseFloat(s).value.mantissa >= 0
  {
    IsValidFloatMeaning(s);
    assert forall c :: c in s ==> !IsSpace(c) && c != '-' && c != '+' by {
      forall c | c in s ensures !IsSpace(c) && c != '-' && c != '+' {
        var i :| 0 <= i < |s| && s[i] == c;
      }
    }
    NoSpaceStripped(s);
    StripStripped(s);
    assert s[0] in s;
    assert ParseFloat(s) == ParseUnsigned(s);
    ValidUnsigned(s);
  }

  lemma ValidUnsigned(s: string)
    requires PlainNumber(s)
    ensures ParseUnsigned(s).Some?
  {
    match SplitOnce(s, '.')
    case None =>
      assert AllDigits(s) by {
        forall i | 0 <= i < |s| ensures IsDigit(s[i]) {
          assert s[i] in s;
        }
      }
    case Some(p) =>
      var a, b := p.0, p.1;
      assert s == a + "." + b && '.' !in a;
      assert s[|a|] == '.';
      assert AllDigits(a) by {
        forall i | 0 <= i < |a| ensures IsDigit(a[i]) {
          assert a[i] == s[i] && a[i] in a;
        }
      }
      assert AllDigits(b) by {
        forall i | 0 <= i < |b| ensures IsDigit(b[i]) {
          assert b[i] == s[|a| + 1 + i];
        }
      }
      assert '.' !in b;
      assert |a| + |b| == 0 ==> s == ".";
  }
}
