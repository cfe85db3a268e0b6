/** The handful of Python `str` operations the record keeper is built from:
    `strip`, `lower`, `isdigit`, `split(sep)`, `split(c, 1)`, `replace(c, '', 1)`,
    `int(...)` and `str(int)`. Characters are compared as code points; the
    Unicode-wide classes Python uses are narrowed to ASCII (see README). */
module Text {
  import opened Options

  // ---------------------------------------------------------------------------
  // Whitespace and strip
  // ---------------------------------------------------------------------------

  /** `str.isspace` on one character, restricted to the ASCII range:
      tab, newline, vertical tab, form feed, carriage return, the four
      information separators 0x1c-0x1f, and space. */
  predicate IsSpace(c: char) {
    var n := c as int;
    n == 32 || (9 <= n <= 13) || (28 <= n <= 31)
  }

  /** Neither end is whitespace. */
  predicate Stripped(s: string) {
    s == [] || (!IsSpace(s[0]) && !IsSpace(s[|s| - 1]))
  }

  function TrimLeft(s: string): string
    decreases |s|
  {
    if s != [] && IsSpace(s[0]) then TrimLeft(s[1..]) else s
  }

  function TrimRight(s: string): string
    decreases |s|
  {
    if s != [] && IsSpace(s[|s| - 1]) then TrimRight(s[..|s| - 1]) else s
  }

  /** `TrimLeft` drops exactly the leading whitespace: what it returns is a
      suffix that does not start with whitespace, and all it drops is whitespace. */
  lemma {:induction false} TrimLeftSpec(s: string)
    ensures |TrimLeft(s)| <= |s| && TrimLeft(s) == s[|s| - |TrimLeft(s)|..]
    ensures forall k :: 0 <= k < |s| - |TrimLeft(s)| ==> IsSpace(s[k])
    ensures TrimLeft(s) == [] || !IsSpace(TrimLeft(s)[0])
    decreases |s|
  {
    if s != [] && IsSpace(s[0]) {
      TrimLeftSpec(s[1..]);
    }
  }

  /** `TrimRight` drops exactly the trailing whitespace. */
  lemma {:induction false} TrimRightSpec(s: string)
    ensures |TrimRight(s)| <= |s| && TrimRight(s) == s[..|TrimRight(s)|]
    ensures forall k :: |TrimRight(s)| <= k < |s| ==> IsSpace(s[k])
    ensures TrimRight(s) == [] || !IsSpace(TrimRight(s)[|TrimRight(s)| - 1])
    decreases |s|
  {
    if s != [] && IsSpace(s[|s| - 1]) {
      TrimRightSpec(s[..|s| - 1]);
    }
  }

  /** `str.strip()`: the text between the leading and the trailing whitespace. */
  function Strip(s: string): (r: string)
    ensures Stripped(r)
    ensures Stripped(s) ==> r == s
  {
    var l := TrimLeft(s);
    TrimLeftSpec(s);
    TrimRightSpec(l);
    TrimRight(l)
  }

  /** Stripping text that is already stripped changes nothing. */
  lemma StripStripped(s: string)
    requires Stripped(s)
    ensures Strip(s) == s
  {
  }

  /** `strip` only removes characters, so it adds none. */
  lemma StripInside(s: string)
    ensures forall c :: c in Strip(s) ==> c in s
  {
    var l := TrimLeft(s);
    TrimLeftSpec(s);
    TrimRightSpec(l);
    assert forall c :: c in TrimRight(l) ==> c in l;
  }

  /** Leading whitespace in front of stripped text is removed by `strip`. */
  lemma StripLeadingSpace(c: char, s: string)
    requires IsSpace(c) && s != [] && Stripped(s)
    ensures Strip([c] + s) == s
  {
    assert ([c] + s)[1..] == s;
    assert TrimLeft([c] + s) == TrimLeft(s) == s;
  }

  /** Whitespace on both sides of stripped text is removed by `strip`. */
  lemma StripSurrounding(a: char, s: string, b: char)
    requires IsSpace(a) && IsSpace(b) && s != [] && Stripped(s)
    ensures Strip([a] + s + [b]) == s
  {
    var t := [a] + s + [b];
    assert t[1..] == s + [b];
    assert TrimLeft(t) == TrimLeft(s + [b]) == s + [b];
    assert (s + [b])[..|s|] == s;
    assert TrimRight(s + [b]) == TrimRight(s) == s;
  }

  /** Text without any whitespace character is stripped. */
  lemma NoSpaceStripped(s: string)
    requires forall c :: c in s ==> !IsSpace(c)
    ensures Stripped(s)
  {
    if s != [] {
      assert s[0] in s && s[|s| - 1] in s;
    }
  }

  // ---------------------------------------------------------------------------
  // Case
  // ---------------------------------------------------------------------------

  function LowerChar(c: char): char {
    if 'A' <= c <= 'Z' then (c as int + 32) as char else c
  }

  /** `str.lower()` on ASCII letters. */
  function Lower(s: string): string {
    seq(|s|, i requires 0 <= i < |s| => LowerChar(s[i]))
  }

  // ---------------------------------------------------------------------------
  // Digits
  // ---------------------------------------------------------------------------

  predicate IsDigit(c: char) {
    '0' <= c <= '9'
  }

  predicate AllDigits(s: string) {
    forall i :: 0 <= i < |s| ==> IsDigit(s[i])
  }

  /** `str.isdigit()` on ASCII text: non-empty and nothing but digits. */
  predicate IsDigits(s: string) {
    s != [] && AllDigits(s)
  }

  function DigitValue(c: char): nat
    requires IsDigit(c)
  {
    c as int - '0' as int
  }

  function DigitChar(n: nat): (c: char)
    requires n < 10
    ensures IsDigit(c) && DigitValue(c) == n
  {
    ('0' as int + n) as char
  }

  /** The base-10 value of a digit string (most significant digit first). */
  function DigitsValue(s: string): nat
    requires AllDigits(s)
    decreases |s|
  {
    PrefixValue(s, |s|)
  }

  /** The value of the first `n` digits. Counting through an index rather
      than slicing keeps proofs about parsed text small. */
  function PrefixValue(s: string, n: nat): nat
    requires AllDigits(s) && n <= |s|
  {
    if n == 0 then 0 else PrefixValue(s, n - 1) * 10 + DigitValue(s[n - 1])
  }

  /** Only the first `n` characters count. */
  lemma {:induction false} PrefixValueAgree(s: string, t: string, n: nat)
    requires AllDigits(s) && AllDigits(t) && n <= |s| && n <= |t| && s[..n] == t[..n]
    ensures PrefixValue(s, n) == PrefixValue(t, n)
  {
    if n > 0 {
      assert s[n - 1] == s[..n][n - 1] && t[n - 1] == t[..n][n - 1];
      assert s[..n - 1] == s[..n][..n - 1] && t[..n - 1] == t[..n][..n - 1];
      PrefixValueAgree(s, t, n - 1);
    }
  }

  /** The last digit is the units digit. */
  lemma DigitsValueLast(s: string)
    requires AllDigits(s) && s != []
    ensures AllDigits(s[..|s| - 1])
    ensures DigitsValue(s) == DigitsValue(s[..|s| - 1]) * 10 + DigitValue(s[|s| - 1])
  {
    var t := s[..|s| - 1];
    assert t[..|t|] == s[..|t|];
    PrefixValueAgree(s, t, |t|);
  }

  function Pow10(n: nat): (r: nat)
    ensures r >= 1
  {
    if n == 0 then 1 else 10 * Pow10(n - 1)
  }

  /** The shortest decimal rendering of `n`; reading it back gives `n`. */
  function NatDigits(n: nat): (r: string)
    ensures IsDigits(r)
    ensures DigitsValue(r) == n
    decreases n
  {
    if n < 10 then
      var r := [DigitChar(n)];
      assert PrefixValue(r, 0) == 0;
      r
    else
      var front := NatDigits(n / 10);
      var r := front + [DigitChar(n % 10)];
      assert r[..|r| - 1] == front;
      DigitsValueLast(r);
      r
  }

  function Zeros(k: nat): (r: string)
    ensures |r| == k && AllDigits(r)
  {
    if k == 0 then [] else Zeros(k - 1) + ['0']
  }

  /** Leading zeros do not change the value of a digit string. */
  lemma {:induction false} ZerosPrefix(k: nat, s: string)
    requires AllDigits(s)
    ensures AllDigits(Zeros(k) + s)
    ensures DigitsValue(Zeros(k) + s) == DigitsValue(s)
    decreases |s|
  {
    var z := Zeros(k);
    if s == [] {
      assert z + s == z;
      ZerosValue(k);
    } else {
      var t := s[..|s| - 1];
      ZerosPrefix(k, t);
      assert (z + s)[..|z + s| - 1] == z + t;
      DigitsValueLast(s);
      DigitsValueLast(z + s);
    }
  }

  lemma {:induction false} ZerosValue(k: nat)
    ensures DigitsValue(Zeros(k)) == 0
  {
    if k > 0 {
      ZerosValue(k - 1);
      assert Zeros(k)[..k - 1] == Zeros(k - 1);
      DigitsValueLast(Zeros(k));
    }
  }

  /** Exactly `w` digits of `n`, most significant first (the value is taken
      modulo 10^w); `strftime` renders each date field this way. */
  function FixedDigits(n: nat, w: nat): (r: string)
    ensures |r| == w && AllDigits(r)
    decreases w
  {
    if w == 0 then [] else FixedDigits(n / 10, w - 1) + [DigitChar(n % 10)]
  }

  /** A value below 10^w survives rendering with `w` digits. */
  lemma {:induction false} FixedDigitsValue(n: nat, w: nat)
    requires n < Pow10(w)
    ensures DigitsValue(FixedDigits(n, w)) == n
    decreases w
  {
    if w > 0 {
      var r := FixedDigits(n, w);
      assert r[..w - 1] == FixedDigits(n / 10, w - 1);
      FixedDigitsValue(n / 10, w - 1);
      DigitsValueLast(r);
    }
  }

  /** Rendering the value of a digit string with its own width reproduces it. */
  lemma {:induction false} FixedDigitsOfValue(s: string)
    requires AllDigits(s)
    ensures FixedDigits(DigitsValue(s), |s|) == s
    decreases |s|
  {
    if s != [] {
      var t := s[..|s| - 1];
      var d := DigitValue(s[|s| - 1]);
      DigitsValueLast(s);
      var v := DigitsValue(t) * 10 + d;
      assert v / 10 == DigitsValue(t) && v % 10 == d;
      FixedDigitsOfValue(t);
      assert s == t + [s[|s| - 1]];
    }
  }

  // ---------------------------------------------------------------------------
  // Integers: `int(text)` and `str(n)`
  // ---------------------------------------------------------------------------

  /** `str(n)` for an `int`. */
  function ShowInt(n: int): string {
    (if n < 0 then "-" else "") + NatDigits(if n < 0 then -n else n)
  }

  /** Every character of `str(n)` is a digit or a minus sign. */
  lemma ShowIntChars(n: int)
    ensures forall c :: c in ShowInt(n) ==> IsDigit(c) || c == '-'
    ensures ShowInt(n) != [] && Stripped(ShowInt(n))
  {
    var s := ShowInt(n);
    assert forall c :: c in s ==> IsDigit(c) || c == '-';
    NoSpaceStripped(s);
  }

  /** `int(text)` in base 10: surrounding whitespace, an optional sign and
      ASCII digits; anything else is the `ValueError` (`None`). */
  function ParseInt(s: string): Option<int> {
    var t := Strip(s);
    if t != [] && (t[0] == '-' || t[0] == '+') then
      if IsDigits(t[1..]) then
        Some(if t[0] == '-' then -(DigitsValue(t[1..]) as int) else DigitsValue(t[1..]) as int)
      else None
    else if IsDigits(t) then Some(DigitsValue(t) as int)
    else None
  }

  /** `int(str(n)) == n`. */
  lemma ParseShowInt(n: int)
    ensures ParseInt(ShowInt(n)) == Some(n)
  {
    if n < 0 {
      assert ShowInt(n) == ['-'] + NatDigits(-n);
      ParseMinusDigits(NatDigits(-n));
    } else {
      assert ShowInt(n) == NatDigits(n);
      ParseDigits(NatDigits(n));
    }
  }

  /** A minus sign and a digit string read back as the negated value. */
  lemma ParseMinusDigits(ds: string)
    requires IsDigits(ds)
    ensures ParseInt(['-'] + ds) == Some(-(DigitsValue(ds) as int))
  {
    var s := ['-'] + ds;
    assert s[1..] == ds;
    assert s[|s| - 1] == ds[|ds| - 1];
    assert Strip(s) == s;
  }

  /** A digit string reads back as its value. */
  lemma ParseDigits(s: string)
    requires IsDigits(s)
    ensures ParseInt(s) == Some(DigitsValue(s) as int)
  {
    assert forall c :: c in s ==> !IsSpace(c);
    NoSpaceStripped(s);
    StripStripped(s);
  }

  // ---------------------------------------------------------------------------
  // Splitting and joining
  // ---------------------------------------------------------------------------

  /** Python's `s.split(sep)` for a non-empty separator: the pieces between
      the non-overlapping occurrences of `sep`, scanned left to right. */
  function Split(s: string, sep: string): (r: seq<string>)
    requires sep != []
    ensures |r| >= 1
    decreases |s|
  {
    if |s| < |sep| then [s]
    else if s[..|sep|] == sep then [[]] + Split(s[|sep|..], sep)
    else
      var rest := Split(s[1..], sep);
      [[s[0]] + rest[0]] + rest[1..]
  }

  /** `sep.join(xs)`. */
  function Join(xs: seq<string>, sep: string): string
    decreases |xs|
  {
    if xs == [] then []
    else if |xs| == 1 then xs[0]
    else xs[0] + sep + Join(xs[1..], sep)
  }

  /** Joining the pieces of a split with the same separator gives the text back. */
  lemma {:induction false} JoinSplit(s: string, sep: string)
    requires sep != []
    ensures Join(Split(s, sep), sep) == s
    decreases |s|
  {
    if |s| < |sep| {
    } else if s[..|sep|] == sep {
      var tail := s[|sep|..];
      JoinSplit(tail, sep);
      var rest := Split(tail, sep);
      assert Split(s, sep) == [[]] + rest;
      assert ([[]] + rest)[1..] == rest;
      assert s == [] + sep + tail;
    } else {
      var tail := s[1..];
      JoinSplit(tail, sep);
      var rest := Split(tail, sep);
      var r := [[s[0]] + rest[0]] + rest[1..];
      assert Split(s, sep) == r;
      if |rest| == 1 {
        assert s == [s[0]] + tail;
      } else {
        assert r[1..] == rest[1..];
        assert Join(rest, sep) == rest[0] + sep + Join(rest[1..], sep);
        assert s == [s[0]] + tail;
      }
    }
  }

  /** If the character `sep[k]` occurs neither in `a` nor earlier in `sep`, the
      first occurrence of `sep` in `a + sep + b` is the one right after `a`. */
  lemma {:induction false} SplitOff(a: string, sep: string, b: string, k: nat)
    requires k < |sep| && sep[k] !in a && sep[k] !in sep[..k]
    ensures Split(a + sep + b, sep) == [a] + Split(b, sep)
    decreases |a|
  {
    var s := a + sep + b;
    if a == [] {
      assert s[..|sep|] == sep && s[|sep|..] == b;
    } else {
      assert s[..|sep|] != sep by {
        if k < |a| {
          assert s[k] == a[k];
          assert a[k] in a;
        } else {
          assert s[k] == sep[k - |a|];
          assert sep[k - |a|] in sep[..k];
        }
      }
      assert s[1..] == a[1..] + sep + b;
      assert sep[k] !in a[1..] by {
        assert forall c :: c in a[1..] ==> c in a;
      }
      SplitOff(a[1..], sep, b, k);
      assert [a[0]] + a[1..] == a;
    }
  }

  /** Text that lacks some character of the separator is not split at all. */
  lemma {:induction false} SplitNone(s: string, sep: string, k: nat)
    requires k < |sep| && sep[k] !in s
    ensures Split(s, sep) == [s]
    decreases |s|
  {
    if |s| >= |sep| {
      assert s[..|sep|] != sep by {
        assert s[k] in s;
      }
      assert sep[k] !in s[1..] by {
        assert forall c :: c in s[1..] ==> c in s;
      }
      SplitNone(s[1..], sep, k);
      assert [s[0]] + s[1..] == s;
    }
  }

  /** Splitting what was joined gives the pieces back when no piece holds the
      character `sep[k]` and that character opens its first occurrence in `sep`. */
  lemma {:induction false} SplitJoin(xs: seq<string>, sep: string, k: nat)
    requires xs != [] && k < |sep| && sep[k] !in sep[..k]
    requires forall i :: 0 <= i < |xs| ==> sep[k] !in xs[i]
    ensures Split(Join(xs, sep), sep) == xs
    decreases |xs|
  {
    if |xs| == 1 {
      SplitNone(xs[0], sep, k);
    } else {
      SplitJoin(xs[1..], sep, k);
      SplitOff(xs[0], sep, Join(xs[1..], sep), k);
      assert [xs[0]] + xs[1..] == xs;
    }
  }

  /** A piece of a split on a single character never contains that character. */
  lemma {:induction false} SplitPiecesFree(s: string, c: char)
    ensures forall i :: 0 <= i < |Split(s, [c])| ==> c !in Split(s, [c])[i]
    decreases |s|
  {
    var sep := [c];
    if |s| < 1 {
    } else if s[..1] == sep {
      SplitPiecesFree(s[1..], c);
      var rest := Split(s[1..], sep);
      assert Split(s, sep) == [[]] + rest;
    } else {
      SplitPiecesFree(s[1..], c);
      var rest := Split(s[1..], sep);
      assert s[0] != c by {
        assert s[..1] == [s[0]];
      }
      assert c !in [s[0]] + rest[0];
      var r := [[s[0]] + rest[0]] + rest[1..];
      assert Split(s, sep) == r;
      forall i | 0 <= i < |r|
        ensures c !in r[i]
      {
        if i > 0 {
          assert r[i] == rest[i];
        }
      }
    }
  }

  /** Python indexing `xs[i]`, where a missing index is the `IndexError`. */
  function Item(xs: seq<string>, i: nat): (r: Option<string>)
    ensures r.Some? <==> i < |xs|
    ensures r.Some? ==> r.value == xs[i]
  {
    if i < |xs| then Some(xs[i]) else None
  }

  /** `s.split(c, 1)` unpacked into exactly two names: the text before the
      first `c` and the text after it; `None` when `c` does not occur. */
  function SplitOnce(s: string, c: char): (r: Option<(string, string)>)
    ensures r.Some? <==> c in s
    ensures r.Some? ==> s == r.value.0 + [c] + r.value.1 && c !in r.value.0
    decreases |s|
  {
    if s == [] then None
    else if s[0] == c then Some(([], s[1..]))
    else
      match SplitOnce(s[1..], c)
      case None => None
      case Some(p) => Some(([s[0]] + p.0, p.1))
  }

  /** The two halves of `SplitOnce` are determined by the first occurrence. */
  lemma {:induction false} SplitOnceAt(a: string, c: char, b: string)
    requires c !in a
    ensures SplitOnce(a + [c] + b, c) == Some((a, b))
    decreases |a|
  {
    var s := a + [c] + b;
    if a == [] {
      assert s[1..] == b;
    } else {
      assert s[0] == a[0] && a[0] in a;
      assert s[1..] == a[1..] + [c] + b;
      assert c !in a[1..] by {
        assert forall x :: x in a[1..] ==> x in a;
      }
      SplitOnceAt(a[1..], c, b);
      assert [a[0]] + a[1..] == a;
    }
  }

  /** `s.replace(c, '', 1)`: drop the first occurrence of `c`, if any. */
  function RemoveFirst(s: string, c: char): string {
    match SplitOnce(s, c)
    case None => s
    case Some(p) => p.0 + p.1
  }
}
