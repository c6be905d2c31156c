/** Wire times of a reservation request.

    The component takes the current instant, moves it forward by a whole number
    of hours with `setHours(getHours() + h)`, and sends the time-of-day part of
    its ISO 8601 rendering (`toISOString().substr(11, 8)`), i.e. `HH:MM:SS` in
    UTC. Here an instant is represented by its UTC time of day in whole seconds;
    moving it forward by `h` hours wraps around at midnight.
 */
module WireTime {

  import opened Wrappers

  const SecondsPerHour: nat := 3600
  const SecondsPerDay: nat := 86400

  /** Whole seconds since UTC midnight; milliseconds are dropped by `substr(11, 8)`. */
  type TimeOfDay = t: int | 0 <= t < 86400

  function Hours(t: TimeOfDay): (h: nat)
    ensures h < 24
  {
    t / 60 / 60
  }

  function Minutes(t: TimeOfDay): (m: nat)
    ensures m < 60
  {
    t / 60 % 60
  }

  function Seconds(t: TimeOfDay): (s: nat)
    ensures s < 60
  {
    t % 60
  }

  /** The clock reading `t` moved forward by `h` hours, as `setHours(getHours() + h)`
      does: the one time of day that is `h` hours after `t`, modulo a day. */
  function Shift(t: TimeOfDay, h: nat): (r: TimeOfDay)
    ensures (r - t) % SecondsPerDay == (h * SecondsPerHour) % SecondsPerDay
  {
    var r := (t + h * SecondsPerHour) % SecondsPerDay;
    assert r - t == h * 3600 - ((t + h * 3600) / 86400) * 86400;
    ModShift(h * 3600, (t + h * 3600) / 86400);
    r
  }

  /** The time of day with the given fields. */
  function Compose(h: nat, m: nat, s: nat): TimeOfDay
    requires h < 24 && m < 60 && s < 60
  {
    h * 3600 + m * 60 + s
  }

  // ---------------------------------------------------------------------------
  // Arithmetic on the fields

  lemma DivModUnique(a: int, n: int, q: int, r: int)
    requires 0 < n && 0 <= r < n && a == q * n + r
    ensures a / n == q && a % n == r
  {
    var q', r' := a / n, a % n;
    assert a == q' * n + r';
    if q' < q {
      assert (q - q') * n == r' - r;
      assert (q - q') * n >= n by { MulAtLeast(q - q', n); }
    } else if q' > q {
      assert (q' - q) * n == r - r';
      assert (q' - q) * n >= n by { MulAtLeast(q' - q, n); }
    }
  }

  lemma MulAtLeast(k: int, n: int)
    requires k >= 1 && n > 0
    ensures k * n >= n
  {
  }

  /** Composing fields and reading them back gives the same fields. */
  lemma {:induction false} FieldsOfCompose(h: nat, m: nat, s: nat)
    requires h < 24 && m < 60 && s < 60
    ensures Hours(Compose(h, m, s)) == h
    ensures Minutes(Compose(h, m, s)) == m
    ensures Seconds(Compose(h, m, s)) == s
  {
    var t := Compose(h, m, s);
    DivModUnique(t, 60, h * 60 + m, s);
    DivModUnique(h * 60 + m, 60, h, m);
  }

  /** Every time of day is composed of its own fields. */
  lemma {:induction false} ComposeOfFields(t: TimeOfDay)
    ensures Compose(Hours(t), Minutes(t), Seconds(t)) == t
  {
    var q := t / 60;
    assert t == q * 60 + t % 60;
    assert q == (q / 60) * 60 + q % 60;
  }

  /** Adding `h` hours of seconds to a reading and reducing modulo a day adds
      `h` to its hour field modulo 24 and leaves its minutes and seconds. */
  lemma {:induction false} AddHours(t: TimeOfDay, h: nat)
    ensures (t + h * 3600) % 86400 == Compose((Hours(t) + h) % 24, Minutes(t), Seconds(t))
  {
    var hh, mm, ss := Hours(t), Minutes(t), Seconds(t);
    ComposeOfFields(t);
    var n := hh + h;
    var k, q := n % 24, n / 24;
    var rest := mm * 60 + ss;
    assert t + h * 3600 == n * 3600 + rest;
    assert n == q * 24 + k;
    assert n * 3600 == q * 86400 + k * 3600;
    DivModUnique(t + h * 3600, 86400, q, k * 3600 + rest);
  }

  /** Moving a clock reading forward by `h` hours adds `h` to its hour field
      modulo 24 and leaves the rest of the reading alone. */
  lemma {:induction false} ShiftCompose(t: TimeOfDay, h: nat)
    ensures Shift(t, h) == Compose((Hours(t) + h) % 24, Minutes(t), Seconds(t))
  {
    AddHours(t, h);
  }

  /** Moving a clock reading forward by whole hours keeps its minutes and
      seconds and advances its hour modulo 24. */
  lemma {:induction false} ShiftFields(t: TimeOfDay, h: nat)
    ensures Hours(Shift(t, h)) == (Hours(t) + h) % 24
    ensures Minutes(Shift(t, h)) == Minutes(t)
    ensures Seconds(Shift(t, h)) == Seconds(t)
  {
    ShiftCompose(t, h);
    FieldsOfCompose((Hours(t) + h) % 24, Minutes(t), Seconds(t));
  }

  /** Two forward moves add up; the clock is a cyclic group of hours. */
  lemma {:induction false} ShiftShift(t: TimeOfDay, a: nat, b: nat)
    ensures Shift(Shift(t, a), b) == Shift(t, a + b)
  {
    var x := t + a * 3600;
    var y := x + b * 3600;
    var z := x % 86400 + b * 3600;
    assert y == (x / 86400) * 86400 + z;
    assert y == (x / 86400 + z / 86400) * 86400 + z % 86400;
    DivModUnique(y, 86400, x / 86400 + z / 86400, z % 86400);
  }

  // ---------------------------------------------------------------------------
  // The `HH:MM:SS` rendering and its inverse

  function Digit(n: nat): (c: char)
    requires n < 10
    ensures '0' <= c <= '9'
  {
    (48 + n) as char
  }

  predicate IsDigit(c: char) {
    '0' <= c <= '9'
  }

  function DigitValue(c: char): (n: nat)
    requires IsDigit(c)
    ensures n < 10
  {
    c as int - 48
  }

  /** A number below 100, zero-padded to two characters. */
  function TwoDigits(n: nat): (s: string)
    requires n < 100
    ensures |s| == 2 && IsDigit(s[0]) && IsDigit(s[1])
  {
    [Digit(n / 10), Digit(n % 10)]
  }

  /** The `HH:MM:SS` rendering of a time of day. */
  function Format(t: TimeOfDay): (s: string)
    ensures |s| == 8 && s[2] == ':' && s[5] == ':'
    ensures IsDigit(s[0]) && IsDigit(s[1]) && IsDigit(s[3])
    ensures IsDigit(s[4]) && IsDigit(s[6]) && IsDigit(s[7])
    ensures PairAt(s, 0) == Hours(t) && PairAt(s, 3) == Minutes(t) && PairAt(s, 6) == Seconds(t)
  {
    var s := TwoDigits(Hours(t)) + ":" + TwoDigits(Minutes(t)) + ":" + TwoDigits(Seconds(t));
    PairAtTwoDigits(Hours(t), s, 0);
    PairAtTwoDigits(Minutes(t), s, 3);
    PairAtTwoDigits(Seconds(t), s, 6);
    s
  }

  /** The two-digit number at positions `i` and `i + 1` of `s`. */
  function PairAt(s: string, i: nat): (n: nat)
    requires i + 1 < |s| && IsDigit(s[i]) && IsDigit(s[i + 1])
    ensures n < 100
  {
    DigitValue(s[i]) * 10 + DigitValue(s[i + 1])
  }

  /** Reads a zero-padded 24-hour `HH:MM:SS` string; `None` for anything else. */
  function Parse(s: string): (r: Option<TimeOfDay>)
  {
    if |s| == 8 && s[2] == ':' && s[5] == ':'
       && IsDigit(s[0]) && IsDigit(s[1]) && IsDigit(s[3])
       && IsDigit(s[4]) && IsDigit(s[6]) && IsDigit(s[7])
       && PairAt(s, 0) < 24 && PairAt(s, 3) < 60 && PairAt(s, 6) < 60
    then Some(Compose(PairAt(s, 0), PairAt(s, 3), PairAt(s, 6)))
    else None
  }

  lemma {:induction false} PairAtTwoDigits(n: nat, s: string, i: nat)
    requires n < 100 && i + 1 < |s| && s[i..i + 2] == TwoDigits(n)
    ensures IsDigit(s[i]) && IsDigit(s[i + 1]) && PairAt(s, i) == n
  {
    assert s[i] == TwoDigits(n)[0] && s[i + 1] == TwoDigits(n)[1];
  }

  /** Reading back a rendered time gives the time itself. */
  lemma {:induction false} ParseFormat(t: TimeOfDay)
    ensures Parse(Format(t)) == Some(t)
  {
    ComposeOfFields(t);
  }

  lemma {:induction false} TwoDigitsOfPair(s: string, i: nat)
    requires i + 1 < |s| && IsDigit(s[i]) && IsDigit(s[i + 1])
    ensures TwoDigits(PairAt(s, i)) == s[i..i + 2]
  {
    var n := PairAt(s, i);
    DivModUnique(n, 10, DigitValue(s[i]), DigitValue(s[i + 1]));
  }

  /** Every string that reads as a time is exactly the rendering of that time. */
  lemma {:induction false} FormatParse(s: string)
    requires Parse(s).Some?
    ensures Format(Parse(s).value) == s
  {
    var h, m, sec := PairAt(s, 0), PairAt(s, 3), PairAt(s, 6);
    FieldsOfCompose(h, m, sec);
    TwoDigitsOfPair(s, 0);
    TwoDigitsOfPair(s, 3);
    TwoDigitsOfPair(s, 6);
    assert s == s[0..2] + ":" + s[3..5] + ":" + s[6..8];
  }

  /** The rendering is injective: distinct times are sent as distinct strings. */
  lemma {:induction false} FormatInjective(t: TimeOfDay, u: TimeOfDay)
    requires Format(t) == Format(u)
    ensures t == u
  {
    ParseFormat(t);
    ParseFormat(u);
  }

  // ---------------------------------------------------------------------------
  // The two wire times of a create request

  /** Hours added to the clock on top of the duration. */
  const StartOffsetHours: nat := 2

  /** `startTime`: the clock reading two hours ahead. */
  function StartTime(now: TimeOfDay): (r: string)
    ensures Parse(r) == Some(Shift(now, StartOffsetHours))
  {
    ParseFormat(Shift(now, StartOffsetHours));
    Format(Shift(now, StartOffsetHours))
  }

  /** `endTime`: the clock reading `duration + 2` hours ahead. */
  function EndTime(now: TimeOfDay, duration: nat): (r: string)
    ensures Parse(r) == Some(Shift(now, duration + StartOffsetHours))
  {
    ParseFormat(Shift(now, duration + StartOffsetHours));
    Format(Shift(now, duration + StartOffsetHours))
  }

  /** Read from one clock reading, the wire end time is the wire start time
      moved forward by the duration: the hour differs by the duration modulo 24,
      and minutes and seconds agree. */
  lemma {:induction false} EndIsStartPlusDuration(now: TimeOfDay, duration: nat)
    ensures Parse(StartTime(now)).Some? && Parse(EndTime(now, duration)).Some?
    ensures Parse(EndTime(now, duration)).value
            == Shift(Parse(StartTime(now)).value, duration)
    ensures Hours(Parse(EndTime(now, duration)).value)
            == (Hours(Parse(StartTime(now)).value) + duration) % 24
    ensures Minutes(Parse(EndTime(now, duration)).value) == Minutes(now)
    ensures Seconds(Parse(EndTime(now, duration)).value) == Seconds(now)
    ensures (Parse(EndTime(now, duration)).value - Parse(StartTime(now)).value) % SecondsPerDay
            == (duration * SecondsPerHour) % SecondsPerDay
  {
    var start := Shift(now, StartOffsetHours);
    ShiftShift(now, StartOffsetHours, duration);
    assert Shift(now, duration + StartOffsetHours) == Shift(start, duration);
    ParseFormat(start);
    ParseFormat(Shift(start, duration));
    ShiftFields(start, duration);
    ShiftFields(now, StartOffsetHours);
  }

  lemma ModShift(a: int, q: int)
    ensures (a - q * 86400) % 86400 == a % 86400
  {
    DivModUnique(a - q * 86400, 86400, a / 86400 - q, a % 86400);
  }

  /** The rendering of the time `t` is the string `str` whose three digit
      pairs read as the hours, minutes and seconds of `t`. */
  lemma {:induction false} RendersAs(str: string, t: TimeOfDay)
    requires |str| == 8 && str[2] == ':' && str[5] == ':'
    requires IsDigit(str[0]) && IsDigit(str[1]) && IsDigit(str[3])
    requires IsDigit(str[4]) && IsDigit(str[6]) && IsDigit(str[7])
    requires PairAt(str, 0) == Hours(t) && PairAt(str, 3) == Minutes(t) && PairAt(str, 6) == Seconds(t)
    ensures Format(t) == str
  {
    FormatParse(str);
    ComposeOfFields(t);
  }

  /** The example of a reservation computed at 10:00:00 for three hours. */
  lemma {:induction false} TenOClockForThreeHours(now: TimeOfDay)
    requires Hours(now) == 10 && Minutes(now) == 0 && Seconds(now) == 0
    ensures StartTime(now) == "12:00:00"
    ensures EndTime(now, 3) == "15:00:00"
  {
    ShiftFields(now, 2);
    ShiftFields(now, 5);
    RendersAs("12:00:00", Shift(now, 2));
    RendersAs("15:00:00", Shift(now, 5));
  }

  /** An end time past midnight wraps to the next day's time of day. */
  lemma {:induction false} WrapsPastMidnight(now: TimeOfDay)
    requires Hours(now) == 23 && Minutes(now) == 30 && Seconds(now) == 15
    ensures StartTime(now) == "01:30:15"
    ensures EndTime(now, 24) == "01:30:15"
  {
    ShiftFields(now, 2);
    ShiftFields(now, 26);
    RendersAs("01:30:15", Shift(now, 2));
    RendersAs("01:30:15", Shift(now, 26));
  }
}
