/** Turnaround times. The program writes them as `DD-hh-mm` text, turns them
    into `timedelta`s (functions.py:459-461) and shows `timedelta`s again as
    `days-hours-minutes` (functions.py:595-597). A whole-minute duration is an
    `int` count of minutes here; the average of several is a count of
    microseconds, the unit `timedelta` rounds to. */
module Durations {
  import opened Options
  import opened Text

  const MinutesPerDay: int := 1440
  const MicrosPerSecond: int := 1_000_000
  const MicrosPerMinute: int := 60_000_000
  const MicrosPerDay: int := 86_400_000_000

  /** The largest day count a `timedelta` holds, in either direction. */
  const MaxDays: int := 999_999_999

  /** A count of minutes a `timedelta` can hold: `timedelta` normalises to a
      floor day count and raises `OverflowError` when that count lies
      beyond `MaxDays` either way. */
  predicate MinutesFit(minutes: int) {
    -MaxDays <= minutes / MinutesPerDay <= MaxDays
  }

  /** The same range, for a count of microseconds. */
  predicate MicrosFit(us: int) {
    -MaxDays <= us / MicrosPerDay <= MaxDays
  }

  /** `convert_to_timedelta`: split on `-`, exactly three pieces, each read by
      `int`, combined as days, hours and minutes. Wrong piece counts and
      unreadable pieces are the `ValueError` (`None`), a total beyond the
      range of `timedelta` the `OverflowError` (`None`). A piece never holds
      a minus sign, so the result is never negative. */
  function ConvertToMinutes(t: string): (r: Option<int>)
    ensures r.Some? ==> r.value >= 0 && r.value / MinutesPerDay <= MaxDays
  {
    var parts := Split(t, "-");
    if |parts| != 3 then None
    else
      SplitPiecesFree(t, '-');
      assert '-' !in parts[0] && '-' !in parts[1] && '-' !in parts[2];
      ParseIntNoMinus(parts[0]);
      ParseIntNoMinus(parts[1]);
      ParseIntNoMinus(parts[2]);
      CombineParts(ParseInt(parts[0]), ParseInt(parts[1]), ParseInt(parts[2]))
  }

  function CombineParts(d: Option<int>, h: Option<int>, m: Option<int>): Option<int> {
    match (d, h, m)
    case (Some(days), Some(hours), Some(minutes)) =>
      var total := days * MinutesPerDay + hours * 60 + minutes;
      if MinutesFit(total) then Some(total) else None
    case _ => None
  }

  lemma ParseIntNoMinus(s: string)
    requires '-' !in s
    ensures ParseInt(s).Some? ==> ParseInt(s).value >= 0
  {
    StripInside(s);
    var t := Strip(s);
    if t != [] {
      assert t[0] in t;
    }
  }

  /** `validate_turnaround_time`: three pieces around `-`, each a non-empty
      run of digits, with hours below 24 and minutes below 60. The days are
      not bounded, so text that passes can still overflow `timedelta`. */
  predicate ValidateTurnaround(v: string) {
    var parts := Split(v, "-");
    && |parts| == 3
    && IsDigits(parts[0]) && IsDigits(parts[1]) && IsDigits(parts[2])
    && DigitsValue(parts[1]) < 24 && DigitsValue(parts[2]) < 60
  }

  lemma DigitsNoMinus(s: string)
    requires AllDigits(s)
    ensures '-' !in s
  {
  }

  /** Three digit runs joined by `-` split back into themselves. */
  lemma SplitThree(a: string, b: string, c: string)
    requires AllDigits(a) && AllDigits(b) && AllDigits(c)
    ensures Split(a + "-" + b + "-" + c, "-") == [a, b, c]
  {
    DigitsNoMinus(a);
    DigitsNoMinus(b);
    DigitsNoMinus(c);
    SplitNone(c, "-", 0);
    SplitOff(b, "-", c, 0);
    SplitOff(a, "-", b + "-" + c, 0);
    assert a + "-" + b + "-" + c == a + "-" + (b + "-" + c);
  }

  /** Validation, read from the other side: three digit runs joined by `-`
      pass exactly when the hours are below 24 and the minutes below 60, and
      such text converts to `days * 1440 + hours * 60 + minutes` exactly
      when that total is within the range of `timedelta`. */
  lemma ValidateJoin(a: string, b: string, c: string)
    requires IsDigits(a) && IsDigits(b) && IsDigits(c)
    ensures ValidateTurnaround(a + "-" + b + "-" + c) <==> DigitsValue(b) < 24 && DigitsValue(c) < 60
    ensures var total := DigitsValue(a) * MinutesPerDay + DigitsValue(b) * 60 + DigitsValue(c);
      ConvertToMinutes(a + "-" + b + "-" + c) == if MinutesFit(total) then Some(total) else None
  {
    var v := a + "-" + b + "-" + c;
    SplitThree(a, b, c);
    ConvertThree(v, a, b, c);
  }

  lemma ConvertThree(v: string, a: string, b: string, c: string)
    requires IsDigits(a) && IsDigits(b) && IsDigits(c) && Split(v, "-") == [a, b, c]
    ensures var total := DigitsValue(a) * MinutesPerDay + DigitsValue(b) * 60 + DigitsValue(c);
      ConvertToMinutes(v) == if MinutesFit(total) then Some(total) else None
  {
    ParseDigits(a);
    ParseDigits(b);
    ParseDigits(c);
    ConvertParsed(v, a, b, c, DigitsValue(a), DigitsValue(b), DigitsValue(c));
  }

  lemma ConvertParsed(v: string, a: string, b: string, c: string, d: int, h: int, m: int)
    requires Split(v, "-") == [a, b, c]
    requires ParseInt(a) == Some(d) && ParseInt(b) == Some(h) && ParseInt(c) == Some(m)
    ensures var total := d * MinutesPerDay + h * 60 + m;
      ConvertToMinutes(v) == if MinutesFit(total) then Some(total) else None
  {
    assert ConvertToMinutes(v) == CombineParts(ParseInt(a), ParseInt(b), ParseInt(c));
  }

  /** Hours below a day and minutes below an hour leave the day count as
      written. */
  lemma DayCount(d: int, h: int, m: int)
    requires 0 <= h < 24 && 0 <= m < 60
    ensures (d * MinutesPerDay + h * 60 + m) / MinutesPerDay == d
  {
    assert 0 <= h * 60 + m < MinutesPerDay;
  }

  /** Every text that passes validation is three digit runs joined by `-`,
      and it converts exactly when its day count is at most `MaxDays`;
      beyond that `timedelta` raises `OverflowError`. */
  lemma ValidateSplit(v: string)
    requires ValidateTurnaround(v)
    ensures var p := Split(v, "-");
      var total := DigitsValue(p[0]) * MinutesPerDay + DigitsValue(p[1]) * 60 + DigitsValue(p[2]);
      && v == p[0] + "-" + p[1] + "-" + p[2]
      && ConvertToMinutes(v) == if DigitsValue(p[0]) <= MaxDays then Some(total) else None
  {
    var p := Split(v, "-");
    JoinSplit(v, "-");
    JoinThree(p, "-");
    ConvertThree(v, p[0], p[1], p[2]);
    DayCount(DigitsValue(p[0]), DigitsValue(p[1]), DigitsValue(p[2]));
  }

  /** Validation does not bound the days: `1000000000-0-0` passes
      `validate_turnaround_time`, and converting it raises `OverflowError`. */
  lemma ValidatedOverflow()
    ensures var v := NatDigits(MaxDays + 1) + "-0-0";
      ValidateTurnaround(v) && ConvertToMinutes(v).None?
  {
    var a := NatDigits(MaxDays + 1);
    var z := NatDigits(0);
    assert z == "0";
    assert a + "-0-0" == a + "-" + z + "-" + z;
    ValidateJoin(a, z, z);
    DayCount(MaxDays + 1, 0, 0);
  }

  lemma JoinThree(p: seq<string>, sep: string)
    requires |p| == 3
    ensures Join(p, sep) == p[0] + sep + p[1] + sep + p[2]
  {
    assert p[1..][1..] == p[2..];
    assert Join(p[2..], sep) == p[2];
    assert Join(p[1..], sep) == p[1] + sep + p[2];
  }

  /** What `{td.days}-{td.seconds // 3600}-{(td.seconds // 60) % 60}` prints. */
  datatype Clock = Clock(days: int, hours: int, minutes: int)

  function ClockMinutes(c: Clock): int {
    c.days * MinutesPerDay + c.hours * 60 + c.minutes
  }

  /** The fields of a `timedelta` of `us` microseconds: `days` is the floor
      of the day count and `seconds` the whole seconds of the rest (Python's
      `//` and `%` floor, as Dafny's do for a positive divisor). */
  function Decompose(us: int): (c: Clock)
    ensures 0 <= c.hours < 24 && 0 <= c.minutes < 60
    ensures ClockMinutes(c) == us / MicrosPerMinute
  {
    var days := us / 86_400_000_000;
    var rest := us % 86_400_000_000;
    var seconds := rest / 1_000_000;
    DecomposeMinutes(us);
    Clock(days, seconds / 3600, (seconds / 60) % 60)
  }

  /** The minute count survives splitting off days, then seconds, then hours. */
  lemma DecomposeMinutes(us: int)
    ensures var rest := us % 86_400_000_000;
      var seconds := rest / 1_000_000;
      (us / 86_400_000_000) * 1440 + (seconds / 3600) * 60 + (seconds / 60) % 60 == us / 60_000_000
  {
    var days := us / 86_400_000_000;
    var rest := us % 86_400_000_000;
    var seconds := rest / 1_000_000;
    var mins := seconds / 60;
    assert us == days * 86_400_000_000 + rest;
    assert rest == seconds * 1_000_000 + rest % 1_000_000;
    assert seconds == mins * 60 + seconds % 60;
    assert mins == (seconds / 3600) * 60 + mins % 60;
    assert us == (days * 1440 + mins) * 60_000_000 + (seconds % 60) * 1_000_000 + rest % 1_000_000;
  }

  /** The printed `days-hours-minutes` text of a `timedelta`. */
  function ShowDuration(us: int): string {
    var c := Decompose(us);
    ShowInt(c.days) + "-" + ShowInt(c.hours) + "-" + ShowInt(c.minutes)
  }

  /** A whole-minute duration as a `timedelta` in microseconds. */
  function Micros(minutes: int): int {
    minutes * MicrosPerMinute
  }

  /** The printed form of a non-negative duration is itself an acceptable
      turnaround time, and converting it back gives the whole minutes of the
      duration; for whole-minute durations that is the duration itself. */
  lemma ShowDurationRoundTrip(us: int)
    requires us >= 0 && MicrosFit(us)
    ensures ValidateTurnaround(ShowDuration(us))
    ensures ConvertToMinutes(ShowDuration(us)) == Some(us / MicrosPerMinute)
  {
    var c := Decompose(us);
    ShowDurationDigits(us);
    ValidateJoin(NatDigits(c.days), NatDigits(c.hours), NatDigits(c.minutes));
    DayCount(c.days, c.hours, c.minutes);
  }

  /** A non-negative duration prints as three digit runs. */
  lemma ShowDurationDigits(us: int)
    requires us >= 0
    ensures var c := Decompose(us);
      c.days >= 0 && ShowDuration(us) == NatDigits(c.days) + "-" + NatDigits(c.hours) + "-" + NatDigits(c.minutes)
  {
  }

  lemma ShowMinutesRoundTrip(n: nat)
    requires MinutesFit(n)
    ensures ConvertToMinutes(ShowDuration(Micros(n))) == Some(n)
  {
    MicrosMinutes(n);
    MicrosDays(n);
    ShowDurationRoundTrip(Micros(n));
  }

  lemma MicrosMinutes(n: int)
    ensures Micros(n) / MicrosPerMinute == n
  {
  }

  /** Minutes and microseconds agree on the day count. */
  lemma MicrosDays(n: int)
    ensures Micros(n) / MicrosPerDay == n / MinutesPerDay
  {
    var d := n / MinutesPerDay;
    var r := n % MinutesPerDay;
    assert n == d * MinutesPerDay + r;
    assert Micros(n) == d * MicrosPerDay + r * MicrosPerMinute;
    assert 0 <= r * MicrosPerMinute < MicrosPerDay;
  }
}
