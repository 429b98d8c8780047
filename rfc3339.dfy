/** Go's `time.Time` as far as the cache's timestamp file needs it: the
    instant and its displayed zone, `Format(time.RFC3339)` and
    `time.Parse(time.RFC3339, _)` (section 5.6 of RFC 3339, in the form Go's
    `time` package writes and reads it), and the proleptic Gregorian calendar
    behind both. */
module Rfc3339 {
  import opened Wrappers

  /** An instant as nanoseconds since 1970-01-01T00:00:00Z, with the offset in
      seconds east of UTC of the zone in which it is displayed. */
  datatype Time = Time(unixNanos: int, zoneOffset: int)

  /** Go's `t.Sub(u)`, in nanoseconds. Go saturates the int64 result; the
      saturated value has the same sign as the exact one and a magnitude of
      more than 24 hours, so every comparison the cache makes agrees. */
  function Sub(t: Time, u: Time): (d: int)
    ensures u.unixNanos + d == t.unixNanos
    ensures d > 0 <==> t.unixNanos > u.unixNanos
  {
    t.unixNanos - u.unixNanos
  }

  /** `t` with its sub-second part dropped (Go keeps the nanoseconds in `[0, 1e9)`). */
  function TruncateToSecond(t: Time): (r: Time)
    ensures r.zoneOffset == t.zoneOffset
    ensures r.unixNanos <= t.unixNanos < r.unixNanos + 1_000_000_000
    ensures r.unixNanos % 1_000_000_000 == 0
  {
    t.(unixNanos := t.unixNanos / 1_000_000_000 * 1_000_000_000)
  }

  /* ---------------------------------------------------------------------- */
  /* The calendar                                                           */

  predicate IsLeap(y: int) {
    y % 4 == 0 && (y % 100 != 0 || y % 400 == 0)
  }

  function YearLength(y: int): int {
    if IsLeap(y) then 366 else 365
  }

  /** The number of leap years in `[1, y)` (negative for `y < 1`). */
  function LeapsBefore(y: int): int {
    (y - 1) / 4 - (y - 1) / 100 + (y - 1) / 400
  }

  /** Days from 1970-01-01 to January 1st of year `y`. */
  function DaysBeforeYear(y: int): int {
    365 * (y - 1970) + LeapsBefore(y) - LeapsBefore(1970)
  }

  lemma YearStep(y: int)
    ensures DaysBeforeYear(y + 1) == DaysBeforeYear(y) + YearLength(y)
  {
    DivStep(y, 4);
    DivStep(y, 100);
    DivStep(y, 400);
  }

  /** How `(y - 1) / k` and `y / k` differ, for the three divisors the
      calendar uses. */
  lemma DivStep(y: int, k: int)
    requires k == 4 || k == 100 || k == 400
    ensures y / k - (y - 1) / k == if y % k == 0 then 1 else 0
  {
    var q, r := (y - 1) / k, (y - 1) % k;
    assert y - 1 == k * q + r && 0 <= r < k;
    if r + 1 < k {
      assert y == k * q + (r + 1);
    } else {
      assert y == k * (q + 1);
    }
  }

  lemma {:induction false} LeapsMonotone(a: int, b: int)
    requires a <= b
    ensures LeapsBefore(a) <= LeapsBefore(b)
    decreases b - a
  {
    if a < b {
      YearStep(a);
      LeapsMonotone(a + 1, b);
    }
  }

  /** Years are laid end to end: a later year starts after an earlier one ends. */
  lemma YearsOrdered(a: int, b: int)
    requires a < b
    ensures DaysBeforeYear(a + 1) <= DaysBeforeYear(b)
  {
    LeapsMonotone(a + 1, b);
  }

  /** The year containing day `days`, searched upward from a year that starts
      no later than it. */
  function YearFrom(days: int, y: int): (r: int)
    requires DaysBeforeYear(y) <= days
    ensures DaysBeforeYear(r) <= days < DaysBeforeYear(r + 1)
    decreases days - DaysBeforeYear(y)
  {
    YearStep(y);
    if days < DaysBeforeYear(y + 1) then y else YearFrom(days, y + 1)
  }

  /** The year containing day `days` (counted from 1970-01-01). */
  function YearOfDay(days: int): (r: int)
    ensures DaysBeforeYear(r) <= days < DaysBeforeYear(r + 1)
  {
    if days >= 0 then YearFrom(days, 1970)
    else
      LeapsMonotone(1970 + days, 1970);
      YearFrom(days, 1970 + days)
  }

  /** Days from January 1st to the first day of month `m` (13 stands for the
      end of the year). */
  function DaysBeforeMonth(y: int, m: int): (r: int)
    requires 1 <= m <= 13
    ensures m == 13 ==> r == YearLength(y)
  {
    if m <= 2 then 31 * (m - 1)
    else (153 * (m - 3) + 2) / 5 + 59 + (if IsLeap(y) then 1 else 0)
  }

  /** Go's `daysIn(month, year)`. */
  function DaysIn(y: int, m: int): (r: int)
    requires 1 <= m <= 12
    ensures 28 <= r <= 31
    ensures m == 2 ==> r == if IsLeap(y) then 29 else 28
  {
    DaysBeforeMonth(y, m + 1) - DaysBeforeMonth(y, m)
  }

  /** The month containing day-of-year `doy`, searched upward from month `m`. */
  function MonthFrom(y: int, doy: int, m: int): (r: int)
    requires 1 <= m <= 12 && DaysBeforeMonth(y, m) <= doy < YearLength(y)
    ensures 1 <= r <= 12 && DaysBeforeMonth(y, r) <= doy < DaysBeforeMonth(y, r + 1)
    decreases 12 - m
  {
    if doy < DaysBeforeMonth(y, m + 1) then m else MonthFrom(y, doy, m + 1)
  }

  /** A wall-clock reading: a date and a time of day. */
  datatype Civil = Civil(year: int, month: int, day: int, hour: int, minute: int, second: int)

  predicate ValidCivil(c: Civil) {
    && 1 <= c.month <= 12
    && 1 <= c.day <= DaysIn(c.year, c.month)
    && 0 <= c.hour < 24 && 0 <= c.minute < 60 && 0 <= c.second < 60
  }

  /** Days from 1970-01-01 to the date of `c`. */
  function DayNumber(c: Civil): int
    requires 1 <= c.month <= 12
  {
    DaysBeforeYear(c.year) + DaysBeforeMonth(c.year, c.month) + c.day - 1
  }

  /** Seconds from midnight to the time of day of `c`. */
  function TimeOfDay(c: Civil): int {
    c.hour * 3600 + c.minute * 60 + c.second
  }

  /** Seconds from 1970-01-01T00:00:00 to the reading `c`. */
  function SecondsOf(c: Civil): int
    requires 1 <= c.month <= 12
  {
    DayNumber(c) * 86400 + TimeOfDay(c)
  }

  /** The date of day `days` (counted from 1970-01-01), as a reading at midnight. */
  function DateOf(days: int): (c: Civil)
    ensures ValidCivil(c) && DayNumber(c) == days && TimeOfDay(c) == 0
  {
    var y := YearOfDay(days);
    YearStep(y);
    var doy := days - DaysBeforeYear(y);
    var m := MonthFrom(y, doy, 1);
    Civil(y, m, doy - DaysBeforeMonth(y, m) + 1, 0, 0, 0)
  }

  /** Splits the seconds since midnight into hour, minute and second. */
  lemma SplitTimeOfDay(sod: int)
    requires 0 <= sod < 86400
    ensures 0 <= sod / 3600 < 24 && 0 <= sod % 3600 / 60 < 60 && 0 <= sod % 60 < 60
    ensures sod / 3600 * 3600 + sod % 3600 / 60 * 60 + sod % 60 == sod
  {
  }

  /** The wall-clock reading `secs` seconds after 1970-01-01T00:00:00. */
  function CivilOf(secs: int): (c: Civil)
    ensures ValidCivil(c) && SecondsOf(c) == secs
  {
    var days, sod := secs / 86400, secs % 86400;
    SplitTimeOfDay(sod);
    DateOf(days).(hour := sod / 3600, minute := sod % 3600 / 60, second := sod % 60)
  }

  lemma {:induction false} YearUnique(days: int, a: int, b: int)
    requires DaysBeforeYear(a) <= days < DaysBeforeYear(a + 1)
    requires DaysBeforeYear(b) <= days < DaysBeforeYear(b + 1)
    ensures a == b
  {
    if a < b { YearsOrdered(a, b); }
    if b < a { YearsOrdered(b, a); }
  }

  lemma MonthUnique(y: int, doy: int, a: int, b: int)
    requires 1 <= a <= 12 && 1 <= b <= 12
    requires DaysBeforeMonth(y, a) <= doy < DaysBeforeMonth(y, a + 1)
    requires DaysBeforeMonth(y, b) <= doy < DaysBeforeMonth(y, b + 1)
    ensures a == b
  {
  }

  lemma MonthsOrdered(y: int, a: int, b: int)
    requires 1 <= a < b <= 13
    ensures 0 <= DaysBeforeMonth(y, a) < DaysBeforeMonth(y, b)
  {
  }

  /** Where the date of `c` falls within its year. */
  lemma DayOfYearBounds(c: Civil)
    requires ValidCivil(c)
    ensures var doy := DaysBeforeMonth(c.year, c.month) + c.day - 1;
      && DaysBeforeMonth(c.year, c.month) <= doy < DaysBeforeMonth(c.year, c.month + 1)
      && 0 <= doy < YearLength(c.year)
  {
    MonthsOrdered(c.year, c.month, c.month + 1);
    if c.month < 12 { MonthsOrdered(c.year, c.month + 1, 13); }
  }

  /** The year `YearOfDay` finds for the day number of a valid date is the
      date's year. */
  lemma YearOfDayNumber(c: Civil)
    requires ValidCivil(c)
    ensures YearOfDay(DayNumber(c)) == c.year
  {
    DayOfYearBounds(c);
    YearStep(c.year);
    YearUnique(DayNumber(c), YearOfDay(DayNumber(c)), c.year);
  }

  /** The month `MonthFrom` finds for the day of the year of a valid date is
      the date's month. */
  lemma MonthOfDayOfYear(c: Civil)
    requires ValidCivil(c)
    ensures var doy := DaysBeforeMonth(c.year, c.month) + c.day - 1;
      0 <= doy < YearLength(c.year) && MonthFrom(c.year, doy, 1) == c.month
  {
    var doy := DaysBeforeMonth(c.year, c.month) + c.day - 1;
    DayOfYearBounds(c);
    MonthUnique(c.year, doy, MonthFrom(c.year, doy, 1), c.month);
  }

  /** A valid date is the one `DateOf` gives for its own day number. */
  lemma DateOfDayNumber(c: Civil)
    requires ValidCivil(c)
    ensures DateOf(DayNumber(c)) == c.(hour := 0, minute := 0, second := 0)
  {
    YearOfDayNumber(c);
    MonthOfDayOfYear(c);
  }

  lemma DivModUnique(n: int, k: int, q: int, r: int)
    requires k == 60 || k == 3600 || k == 86400
    requires n == q * k + r && 0 <= r < k
    ensures n / k == q && n % k == r
  {
  }

  /** Every valid reading is the one `CivilOf` gives for its own seconds, so
      `CivilOf` and `SecondsOf` are inverse bijections. */
  lemma {:induction false} CivilOfSecondsOf(c: Civil)
    requires ValidCivil(c)
    ensures CivilOf(SecondsOf(c)) == c
  {
    var secs := SecondsOf(c);
    var sod := TimeOfDay(c);
    DivModUnique(secs, 86400, DayNumber(c), sod);
    DateOfDayNumber(c);
    DivModUnique(sod, 3600, c.hour, c.minute * 60 + c.second);
    DivModUnique(c.minute * 60 + c.second, 60, c.minute, c.second);
    DivModUnique(sod, 60, c.hour * 60 + c.minute, c.second);
  }

  /* ---------------------------------------------------------------------- */
  /* Decimal fields                                                         */

  predicate IsDigit(ch: char) {
    '0' <= ch <= '9'
  }

  predicate AllDigits(s: string) {
    forall i :: 0 <= i < |s| ==> IsDigit(s[i])
  }

  /** Every character is 7-bit ASCII, so the text is its own byte encoding. */
  predicate Ascii(s: string) {
    forall i :: 0 <= i < |s| ==> s[i] as int < 128
  }

  function DigitChar(d: int): (ch: char)
    requires 0 <= d < 10
    ensures IsDigit(ch)
  {
    ('0' as int + d) as char
  }

  function Pow10(k: nat): (r: nat)
    ensures r >= 1
  {
    if k == 0 then 1 else 10 * Pow10(k - 1)
  }

  /** Go's `appendInt` for a non-negative value: its decimal digits, padded
      with leading zeros to at least `width` characters. */
  function Digits(n: nat, width: nat): (s: string)
    ensures |s| >= 1 && AllDigits(s)
    decreases n + width
  {
    if n < 10 && width <= 1 then [DigitChar(n)]
    else Digits(n / 10, if width == 0 then 0 else width - 1) + [DigitChar(n % 10)]
  }

  /** Go's `appendInt`: a minus sign for negative values, then the padded digits. */
  function AppendInt(x: int, width: nat): string {
    if x < 0 then "-" + Digits(-x, width) else Digits(x, width)
  }

  /** The value of a string of decimal digits. */
  function Value(s: string): nat
    requires AllDigits(s)
  {
    if s == [] then 0 else Value(s[..|s| - 1]) * 10 + (s[|s| - 1] as int - '0' as int)
  }

  /** A value below 10^width is written in exactly `width` digits, and reading
      them gives the value back. */
  lemma {:induction false} DigitsRoundTrip(n: nat, width: nat)
    requires 1 <= width && n < Pow10(width)
    ensures |Digits(n, width)| == width && Value(Digits(n, width)) == n
  {
    if width == 1 {
      assert Digits(n, 1) == [DigitChar(n)];
    } else {
      var front := Digits(n / 10, width - 1);
      DigitsRoundTrip(n / 10, width - 1);
      var s := front + [DigitChar(n % 10)];
      assert Digits(n, width) == s;
      assert s[..|s| - 1] == front;
    }
  }

  /** Go's `parseUint` on a fixed-width field: all digits, and within `[lo, hi]`. */
  function ParseUint(s: string, lo: int, hi: int): (r: Option<int>)
    ensures r.Some? ==> lo <= r.value <= hi
  {
    if AllDigits(s) && lo <= Value(s) <= hi then Some(Value(s)) else None
  }

  /* ---------------------------------------------------------------------- */
  /* Format                                                                 */

  /** The wall-clock seconds `t` shows in its own zone. */
  function LocalSeconds(t: Time): int {
    t.unixNanos / 1_000_000_000 + t.zoneOffset
  }

  /** The `Z07:00` element of the layout: `Z` for UTC, otherwise the sign and
      the hours and minutes of the offset, with Go's truncating `offset / 60`
      (seconds of an offset are dropped). */
  function ZoneSuffix(offset: int): (s: string)
    ensures Ascii(s) && |s| >= 1 && s[0] != '.'
  {
    if offset == 0 then "Z"
    else
      var zone := if offset < 0 then -((-offset) / 60) else offset / 60;
      var minutes := if zone < 0 then -zone else zone;
      var s := (if zone < 0 then "-" else "+") + Digits(minutes / 60, 2) + ":" + Digits(minutes % 60, 2);
      assert s[0] == '-' || s[0] == '+';
      s
  }

  /** The date element of the layout, `2006-01-02`. */
  function DateText(c: Civil): string {
    AppendInt(c.year, 4) + "-" + AppendInt(c.month, 2) + "-" + AppendInt(c.day, 2)
  }

  /** The time element of the layout, `15:04:05`. */
  function ClockText(c: Civil): string {
    AppendInt(c.hour, 2) + ":" + AppendInt(c.minute, 2) + ":" + AppendInt(c.second, 2)
  }

  /** The date and time elements of the layout, `2006-01-02T15:04:05`. */
  function DateTimeText(c: Civil): string {
    DateText(c) + "T" + ClockText(c)
  }

  /** `t.Format(time.RFC3339)`, layout `2006-01-02T15:04:05Z07:00`. */
  function Format(t: Time): (s: string)
    ensures Ascii(s)
  {
    var c := CivilOf(LocalSeconds(t));
    TextAscii(c, t.zoneOffset);
    DateTimeText(c) + ZoneSuffix(t.zoneOffset)
  }

  lemma AsciiAppend(a: string, b: string)
    requires Ascii(a) && Ascii(b)
    ensures Ascii(a + b)
  {
    forall i | 0 <= i < |a + b|
      ensures (a + b)[i] as int < 128
    {
      if i >= |a| { assert (a + b)[i] == b[i - |a|]; }
    }
  }

  lemma AppendIntAscii(x: int, width: nat)
    ensures Ascii(AppendInt(x, width))
  {
    if x < 0 {
      AsciiAppend("-", Digits(-x, width));
    }
  }

  /** The text written for a reading in a zone is 7-bit ASCII. */
  lemma TextAscii(c: Civil, offset: int)
    ensures Ascii(DateTimeText(c) + ZoneSuffix(offset))
  {
    AppendIntAscii(c.year, 4);
    AppendIntAscii(c.month, 2);
    AppendIntAscii(c.day, 2);
    AppendIntAscii(c.hour, 2);
    AppendIntAscii(c.minute, 2);
    AppendIntAscii(c.second, 2);
    AsciiAppend(AppendInt(c.year, 4), "-");
    AsciiAppend(AppendInt(c.year, 4) + "-", AppendInt(c.month, 2));
    AsciiAppend(AppendInt(c.year, 4) + "-" + AppendInt(c.month, 2), "-");
    AsciiAppend(AppendInt(c.year, 4) + "-" + AppendInt(c.month, 2) + "-", AppendInt(c.day, 2));
    AsciiAppend(AppendInt(c.hour, 2), ":");
    AsciiAppend(AppendInt(c.hour, 2) + ":", AppendInt(c.minute, 2));
    AsciiAppend(AppendInt(c.hour, 2) + ":" + AppendInt(c.minute, 2), ":");
    AsciiAppend(AppendInt(c.hour, 2) + ":" + AppendInt(c.minute, 2) + ":", AppendInt(c.second, 2));
    AsciiAppend(DateText(c), "T");
    AsciiAppend(DateText(c) + "T", ClockText(c));
    AsciiAppend(DateTimeText(c), ZoneSuffix(offset));
  }

  /* ---------------------------------------------------------------------- */
  /* Parse                                                                  */

  /** The length of the run of digits `s` starts with. */
  function LeadingDigits(s: string): (n: nat)
    ensures n <= |s| && AllDigits(s[..n]) && (n < |s| ==> !IsDigit(s[n]))
  {
    if s == [] || !IsDigit(s[0]) then 0
    else
      var n := 1 + LeadingDigits(s[1..]);
      assert s[..n] == [s[0]] + s[1..][..n - 1];
      n
  }

  /** Go's `parseNanoseconds`: the first nine digits of a fraction, scaled to
      nanoseconds; further digits are ignored. */
  function FractionNanos(digits: string): (ns: nat)
    requires AllDigits(digits)
  {
    var k := if |digits| > 9 then 9 else |digits|;
    assert AllDigits(digits[..k]);
    Value(digits[..k]) * Pow10(9 - k)
  }

  /** A separator followed by a run of digits: the run's nanoseconds and what
      follows it. */
  function FractionRun(s: string): (r: (nat, string))
    requires |s| >= 2 && IsDigit(s[1])
    ensures |r.1| < |s| - 1
  {
    var n := 1 + LeadingDigits(s[1..]);
    assert s[1..n] == s[1..][..n - 1];
    (FractionNanos(s[1..n]), s[n..])
  }

  /** An optional fractional second `.d+` at the head of `s`: its nanoseconds
      and what follows it. */
  function ParseFraction(s: string): (r: (nat, string))
    ensures |s| == 0 || s[0] != '.' ==> r == (0, s)
  {
    if |s| >= 2 && s[0] == '.' && IsDigit(s[1]) then FractionRun(s) else (0, s)
  }

  /** A whole number of minutes east of UTC, less than a day either way. */
  predicate ValidOffset(offset: int) {
    -86400 < offset < 86400 && offset % 60 == 0
  }

  /** The zone element: `Z`, or `+hh:mm` / `-hh:mm` with hours at most 23 and
      minutes at most 59. */
  function ParseZone(z: string): (r: Option<int>)
    ensures r.Some? ==> ValidOffset(r.value)
  {
    if z == "Z" then Some(0)
    else if |z| != 6 then None
    else
      var hr := ParseUint(z[1..3], 0, 23);
      var mm := ParseUint(z[4..6], 0, 59);
      if hr.None? || mm.None? || !((z[0] == '-' || z[0] == '+') && z[3] == ':') then None
      else
        var offset := (hr.value * 60 + mm.value) * 60;
        Some(if z[0] == '-' then -offset else offset)
  }

  /** The date element `2006-01-02`: year, month and day at fixed positions,
      each in range (the day within its month), with `-` between them. */
  function ParseDate(s: string): (r: Option<(int, int, int)>)
    requires |s| == 10
    ensures r.Some? ==> 0 <= r.value.0 <= 9999 && 1 <= r.value.1 <= 12
    ensures r.Some? ==> 1 <= r.value.2 <= DaysIn(r.value.0, r.value.1)
  {
    var year := ParseUint(s[0..4], 0, 9999);
    var month := ParseUint(s[5..7], 1, 12);
    if year.None? || month.None? then None
    else
      var day := ParseUint(s[8..10], 1, DaysIn(year.value, month.value));
      if day.None? || !(s[4] == '-' && s[7] == '-') then None
      else Some((year.value, month.value, day.value))
  }

  /** The time element `15:04:05`: hour, minute and second at fixed positions,
      each in range, with `:` between them. */
  function ParseClock(s: string): (r: Option<(int, int, int)>)
    requires |s| == 8
    ensures r.Some? ==> 0 <= r.value.0 < 24 && 0 <= r.value.1 < 60 && 0 <= r.value.2 < 60
  {
    var hour := ParseUint(s[0..2], 0, 23);
    var minute := ParseUint(s[3..5], 0, 59);
    var second := ParseUint(s[6..8], 0, 59);
    if hour.None? || minute.None? || second.None? || !(s[2] == ':' && s[5] == ':') then None
    else Some((hour.value, minute.value, second.value))
  }

  /** The date and time elements `2006-01-02T15:04:05`: a date, `T`, a time. */
  function ParseDateTime(s: string): (r: Option<Civil>)
    requires |s| == 19
    ensures r.Some? ==> ValidCivil(r.value) && 0 <= r.value.year <= 9999
  {
    match (ParseDate(s[..10]), ParseClock(s[11..]))
    case (Some((y, m, d)), Some((hh, mm, ss))) =>
      if s[10] == 'T' then Some(Civil(y, m, d, hh, mm, ss)) else None
    case _ => None
  }

  /** Go's fast path for this layout (`parseRFC3339`): the date and time
      elements at fixed positions, an optional `.` fraction, then the zone
      element, and nothing else; the reading, its nanoseconds and the zone
      offset. */
  function FastFields(s: string): (r: Option<(Civil, nat, int)>)
    ensures r.Some? ==> |s| >= 20 && ValidCivil(r.value.0) && 0 <= r.value.0.year <= 9999
    ensures r.Some? ==> ValidOffset(r.value.2)
  {
    if |s| < 19 then None
    else
      match ParseDateTime(s[..19])
      case None => None
      case Some(c) =>
        var (nanos, zone) := ParseFraction(s[19..]);
        match ParseZone(zone)
        case None => None
        case Some(offset) => Some((c, nanos, offset))
  }

  /** Go's `getnum`: the number one or two leading digits spell, and what
      follows them; with `fixed`, exactly two digits are required. */
  function GetNum(s: string, fixed: bool): (r: Option<(int, string)>)
    ensures r.Some? ==> 0 <= r.value.0 < 100 && |r.value.1| < |s|
    ensures r.Some? && fixed ==> |s| >= 2 && AllDigits(s[..2]) && r.value == (Value(s[..2]), s[2..])
    ensures |s| >= 2 && AllDigits(s[..2]) ==> r == Some((Value(s[..2]), s[2..]))
    ensures |s| >= 1 && IsDigit(s[0]) && (|s| == 1 || !IsDigit(s[1])) && !fixed ==> r == Some((Value(s[..1]), s[1..]))
    ensures |s| == 0 || !IsDigit(s[0]) ==> r == None
  {
    if |s| == 0 || !IsDigit(s[0]) then None
    else if |s| == 1 || !IsDigit(s[1]) then
      if fixed then None
      else
        ValueBound(s[..1]);
        Some((Value(s[..1]), s[1..]))
    else
      ValueBound(s[..2]);
      Some((Value(s[..2]), s[2..]))
  }

  /** A string of `n` digits spells a number below 10^n. */
  lemma {:induction false} ValueBound(s: string)
    requires AllDigits(s)
    ensures Value(s) < Pow10(|s|)
  {
    if s != [] {
      ValueBound(s[..|s| - 1]);
    }
  }

  /** The layout's chunks `2006`, `-`, `01`, `-`, `02` as Go's general parser
      reads them: four digits of year, two of month (1 to 12) and two of day,
      whose range is checked only once the whole text is read; and what
      follows. */
  function LayoutDate(s: string): (r: Option<(int, int, int, string)>)
    ensures r.Some? ==> |s| >= 10 && r.value.3 == s[10..]
    ensures r.Some? ==> 0 <= r.value.0 <= 9999 && 1 <= r.value.1 <= 12 && 0 <= r.value.2 < 100
  {
    if |s| < 5 || !AllDigits(s[..4]) || s[4] != '-' then None
    else
      ValueBound(s[..4]);
      match GetNum(s[5..], true)
      case None => None
      case Some((month, rest)) =>
        if !(1 <= month <= 12) || |rest| == 0 || rest[0] != '-' then None
        else
          match GetNum(rest[1..], true)
          case None => None
          case Some((day, rest')) =>
            assert rest == s[7..] && rest[1..] == s[8..] && rest' == s[10..];
            Some((Value(s[..4]), month, day, rest'))
  }

  /** The chunks `T`, `15`, `:`, `04`, `:`, `05`: an hour of one or two digits
      below 24, then two digits each of minute and second below 60; and what
      follows. */
  function LayoutClock(s: string): (r: Option<(int, int, int, string)>)
    ensures r.Some? ==> |r.value.3| + 8 <= |s|
    ensures r.Some? ==> 0 <= r.value.0 < 24 && 0 <= r.value.1 < 60 && 0 <= r.value.2 < 60
  {
    if |s| == 0 || s[0] != 'T' then None
    else
      match GetNum(s[1..], false)
      case None => None
      case Some((hour, r1)) =>
        if hour >= 24 || |r1| == 0 || r1[0] != ':' then None
        else
          match GetNum(r1[1..], true)
          case None => None
          case Some((minute, r2)) =>
            if minute >= 60 || |r2| == 0 || r2[0] != ':' then None
            else
              match GetNum(r2[1..], true)
              case None => None
              case Some((second, r3)) =>
                if second >= 60 then None else Some((hour, minute, second, r3))
  }

  /** The fraction Go's general parser accepts after the seconds although the
      layout has none: `.` or `,` and at least one digit. */
  function LayoutFraction(s: string): (r: (nat, string))
    ensures |r.1| <= |s|
    ensures |s| == 0 || (s[0] != '.' && s[0] != ',') ==> r == (0, s)
  {
    if |s| >= 2 && (s[0] == '.' || s[0] == ',') && IsDigit(s[1]) then FractionRun(s) else (0, s)
  }

  /** A whole number of minutes of at most 25 hours either way: every offset
      Go's general parser reads, since it lets a zone's hours reach 24 and its
      minutes 60. */
  predicate ReadableOffset(offset: int) {
    -90000 <= offset <= 90000 && offset % 60 == 0
  }

  /** The chunk `Z07:00`: `Z`, or a sign, two digits of hours, `:` and two
      digits of minutes, with the hours at most 24 and the minutes at most 60;
      the offset in seconds east of UTC and what follows. */
  function LayoutZone(s: string): (r: Option<(int, string)>)
    ensures r.Some? ==> ReadableOffset(r.value.0) && |r.value.1| < |s|
    ensures |s| >= 1 && s[0] == 'Z' ==> r == Some((0, s[1..]))
  {
    if |s| >= 1 && s[0] == 'Z' then Some((0, s[1..]))
    else if |s| < 6 || s[3] != ':' then None
    else
      match (GetNum(s[1..3], true), GetNum(s[4..6], true))
      case (Some((hr, _)), Some((mm, _))) =>
        if hr > 24 || mm > 60 || !(s[0] == '+' || s[0] == '-') then None
        else
          var offset := (hr * 60 + mm) * 60;
          Some((if s[0] == '-' then -offset else offset, s[6..]))
      case _ => None
  }

  /** Go's general parser on the layout `2006-01-02T15:04:05Z07:00`, which
      `time.Parse` falls back to when the fast path refuses the text: the
      chunks in order, no text left over, and the day within its month. */
  function LayoutFields(s: string): (r: Option<(Civil, nat, int)>)
    ensures r.Some? ==> |s| >= 19 && ValidCivil(r.value.0) && 0 <= r.value.0.year <= 9999
    ensures r.Some? ==> ReadableOffset(r.value.2)
  {
    match LayoutDate(s)
    case None => None
    case Some((year, month, day, r1)) =>
      match LayoutClock(r1)
      case None => None
      case Some((hour, minute, second, r2)) =>
        var (nanos, r3) := LayoutFraction(r2);
        match LayoutZone(r3)
        case None => None
        case Some((offset, extra)) =>
          if extra != [] || !(1 <= day <= DaysIn(year, month)) then None
          else Some((Civil(year, month, day, hour, minute, second), nanos, offset))
  }

  /** What `time.Parse(time.RFC3339, s)` reads: the fast path's fields when it
      accepts the text, the general parser's otherwise. */
  function ParseFields(s: string): (r: Option<(Civil, nat, int)>)
    ensures r.Some? ==> |s| >= 19 && ValidCivil(r.value.0) && 0 <= r.value.0.year <= 9999
    ensures r.Some? ==> ReadableOffset(r.value.2)
  {
    match FastFields(s)
    case Some(f) => Some(f)
    case None => LayoutFields(s)
  }

  /** `time.Parse(time.RFC3339, s)`: the instant the reading stands for in the
      zone the text names. */
  function Parse(s: string): (r: Option<Time>)
    ensures r.Some? ==> |s| >= 19 && ReadableOffset(r.value.zoneOffset)
  {
    match ParseFields(s)
    case None => None
    case Some((c, nanos, offset)) => Some(Time((SecondsOf(c) - offset) * 1_000_000_000 + nanos, offset))
  }

  /** Text that does not start with a digit is not an RFC 3339 timestamp. */
  lemma ParseRejectsNonDigit(s: string)
    requires |s| == 0 || !IsDigit(s[0])
    ensures Parse(s) == None
  {
    if |s| >= 19 {
      var d := s[..19][..10];
      assert !AllDigits(d[0..4]) by { assert d[0..4][0] == s[0]; }
    }
    if |s| >= 5 {
      assert !AllDigits(s[..4]) by { assert s[..4][0] == s[0]; }
    }
  }

  /* ---------------------------------------------------------------------- */
  /* The round trip                                                         */

  /** The instants whose formatted text Go can parse back: a whole-minute
      offset under a day, and a local year of four digits. */
  predicate Formattable(t: Time) {
    ValidOffset(t.zoneOffset) && 0 <= CivilOf(LocalSeconds(t)).year <= 9999
  }

  lemma ZoneRoundTrip(offset: int)
    requires ValidOffset(offset)
    ensures ParseZone(ZoneSuffix(offset)) == Some(offset)
  {
    if offset != 0 {
      var sign := if offset < 0 then '-' else '+';
      var minutes := (if offset < 0 then -offset else offset) / 60;
      ZoneSuffixShape(offset);
      OffsetMinutes(if offset < 0 then -offset else offset);
      ParseZoneShape(sign, minutes / 60, minutes % 60);
    }
  }

  /** A non-zero offset is written as its sign, then its whole minutes as
      hours and minutes. */
  lemma ZoneSuffixShape(offset: int)
    requires ValidOffset(offset) && offset != 0
    ensures var minutes := (if offset < 0 then -offset else offset) / 60;
      ZoneSuffix(offset) == [if offset < 0 then '-' else '+'] + Digits(minutes / 60, 2) + ":" + Digits(minutes % 60, 2)
  {
    if offset > 0 {
      assert offset / 60 > 0;
    }
  }

  /** A whole number of minutes under a day splits into hours below 24 and
      minutes below 60 that add back up to it. */
  lemma OffsetMinutes(a: int)
    requires 0 < a < 86400 && a % 60 == 0
    ensures a / 60 / 60 < 24 && (a / 60 / 60 * 60 + a / 60 % 60) * 60 == a
  {
  }

  /** The zone element for a sign, hours and minutes reads back as the offset. */
  lemma ParseZoneShape(sign: char, hours: nat, minutes: nat)
    requires (sign == '-' || sign == '+') && hours < 24 && minutes < 60
    ensures var offset := (hours * 60 + minutes) * 60;
      ParseZone([sign] + Digits(hours, 2) + ":" + Digits(minutes, 2)) == Some(if sign == '-' then -offset else offset)
  {
    ParseUintDigits(hours, 2, 0, 23);
    ParseUintDigits(minutes, 2, 0, 59);
    var z := [sign] + Digits(hours, 2) + ":" + Digits(minutes, 2);
    assert z[1..3] == Digits(hours, 2) && z[4..6] == Digits(minutes, 2) && z[3] == ':';
  }

  /** A field written in exactly its width reads back as itself. */
  lemma ParseUintDigits(n: nat, width: nat, lo: int, hi: int)
    requires 1 <= width && n < Pow10(width) && lo <= n <= hi
    ensures |Digits(n, width)| == width && ParseUint(Digits(n, width), lo, hi) == Some(n)
  {
    DigitsRoundTrip(n, width);
  }

  lemma ParseDateText(c: Civil)
    requires ValidCivil(c) && 0 <= c.year <= 9999
    ensures |DateText(c)| == 10 && ParseDate(DateText(c)) == Some((c.year, c.month, c.day))
  {
    ParseUintDigits(c.year, 4, 0, 9999);
    ParseUintDigits(c.month, 2, 1, 12);
    ParseUintDigits(c.day, 2, 1, DaysIn(c.year, c.month));
    var s := DateText(c);
    assert s[0..4] == Digits(c.year, 4) && s[5..7] == Digits(c.month, 2) && s[8..10] == Digits(c.day, 2);
  }

  lemma ParseClockText(c: Civil)
    requires ValidCivil(c)
    ensures |ClockText(c)| == 8 && ParseClock(ClockText(c)) == Some((c.hour, c.minute, c.second))
  {
    ParseUintDigits(c.hour, 2, 0, 23);
    ParseUintDigits(c.minute, 2, 0, 59);
    ParseUintDigits(c.second, 2, 0, 59);
    var s := ClockText(c);
    assert s[0..2] == Digits(c.hour, 2) && s[3..5] == Digits(c.minute, 2) && s[6..8] == Digits(c.second, 2);
  }

  /** Reading back the date and time elements of a four-digit-year reading
      gives the reading. */
  lemma ParseDateTimeText(c: Civil)
    requires ValidCivil(c) && 0 <= c.year <= 9999
    ensures |DateTimeText(c)| == 19 && ParseDateTime(DateTimeText(c)) == Some(c)
  {
    ParseDateText(c);
    ParseClockText(c);
    var s := DateTimeText(c);
    assert s[..10] == DateText(c) && s[10] == 'T' && s[11..] == ClockText(c);
  }

  /** Text whose first nineteen characters read as `c` and whose rest is a
      zone element without a fraction reads as `c` in that zone. */
  lemma ParseNoFraction(s: string, c: Civil, z: string, offset: int)
    requires |s| >= 19 && ParseDateTime(s[..19]) == Some(c) && s[19..] == z
    requires (|z| == 0 || z[0] != '.') && ParseZone(z) == Some(offset)
    ensures FastFields(s) == Some((c, 0, offset))
  {
    assert ParseFraction(z) == (0, z);
  }

  /** The date and time elements of a reading, followed by a zone element
      without a fraction, read as that reading in that zone. */
  lemma ParseText(c: Civil, z: string, offset: int)
    requires ValidCivil(c) && 0 <= c.year <= 9999
    requires (|z| == 0 || z[0] != '.') && ParseZone(z) == Some(offset)
    ensures FastFields(DateTimeText(c) + z) == Some((c, 0, offset))
  {
    ParseDateTimeText(c);
    SplitAppend(DateTimeText(c), z);
    ParseNoFraction(DateTimeText(c) + z, c, z, offset);
  }

  lemma SplitAppend(a: string, b: string)
    ensures (a + b)[..|a|] == a && (a + b)[|a|..] == b
  {
  }

  /** Parsing what `Format` wrote gives back the instant and its zone, less the
      sub-second part that the layout does not write. */
  lemma ParseFormat(t: Time)
    requires Formattable(t)
    ensures Parse(Format(t)) == Some(TruncateToSecond(t))
  {
    var c := CivilOf(LocalSeconds(t));
    var z := ZoneSuffix(t.zoneOffset);
    ZoneRoundTrip(t.zoneOffset);
    ParseText(c, z, t.zoneOffset);
    ParseWritten(t, c, DateTimeText(c) + z);
  }

  /** Text that reads as the local reading of `t` with no fraction, in `t`'s
      zone, parses as `t` truncated to the second. */
  lemma ParseWritten(t: Time, c: Civil, s: string)
    requires ParseFields(s) == Some((c, 0, t.zoneOffset)) && SecondsOf(c) == LocalSeconds(t)
    ensures Parse(s) == Some(TruncateToSecond(t))
  {
    assert Parse(s) == Some(Time((SecondsOf(c) - t.zoneOffset) * 1_000_000_000 + 0, t.zoneOffset));
    TruncateLocal(t, SecondsOf(c));
  }

  /** The whole seconds of `t`'s local reading, less its offset, are `t`
      truncated to the second. */
  lemma TruncateLocal(t: Time, local: int)
    requires local == LocalSeconds(t)
    ensures Time((local - t.zoneOffset) * 1_000_000_000 + 0, t.zoneOffset) == TruncateToSecond(t)
  {
  }

  /* ---------------------------------------------------------------------- */
  /* What only the general parser accepts                                   */

  /** The time element with a one-digit hour, `3:04:05`. */
  function ShortClockText(c: Civil): string
    requires 0 <= c.hour < 10
  {
    [DigitChar(c.hour)] + ":" + AppendInt(c.minute, 2) + ":" + AppendInt(c.second, 2)
  }

  /** The general parser reads a four-digit-year date element back. */
  lemma LayoutDateText(c: Civil, rest: string)
    requires ValidCivil(c) && 0 <= c.year <= 9999
    ensures LayoutDate(DateText(c) + rest) == Some((c.year, c.month, c.day, rest))
  {
    DigitsRoundTrip(c.year, 4);
    DigitsRoundTrip(c.month, 2);
    DigitsRoundTrip(c.day, 2);
    LayoutDateShape(Digits(c.year, 4), Digits(c.month, 2), Digits(c.day, 2), rest);
  }

  /** Four digits, `-`, two digits of a month, `-`, two digits: what the
      general parser reads as the date. */
  lemma LayoutDateShape(y: string, m: string, dd: string, rest: string)
    requires |y| == 4 && |m| == 2 && |dd| == 2 && AllDigits(y) && AllDigits(m) && AllDigits(dd)
    requires 1 <= Value(m) <= 12
    ensures LayoutDate(y + "-" + m + "-" + dd + rest) == Some((Value(y), Value(m), Value(dd), rest))
  {
    var tail := dd + rest;
    var r1 := "-" + tail;
    var s := y + "-" + m + "-" + dd + rest;
    assert s == y + "-" + (m + r1);
    assert s[..4] == y && s[4] == '-' && s[5..] == m + r1;
    assert GetNum(m + r1, true) == Some((Value(m), r1)) by {
      assert (m + r1)[..2] == m && (m + r1)[2..] == r1;
    }
    assert GetNum(r1[1..], true) == Some((Value(dd), rest)) by {
      assert r1[1..] == tail && tail[..2] == dd && tail[2..] == rest;
    }
  }

  /** The general parser reads a time element with a one-digit hour. */
  lemma LayoutShortClock(c: Civil, rest: string)
    requires ValidCivil(c) && c.hour < 10
    ensures LayoutClock("T" + ShortClockText(c) + rest) == Some((c.hour, c.minute, c.second, rest))
  {
    DigitsRoundTrip(c.minute, 2);
    DigitsRoundTrip(c.second, 2);
    var s := "T" + ShortClockText(c) + rest;
    assert s[1..][..1] == [DigitChar(c.hour)] && s[1..][1] == ':' && s[1..][1..] == s[2..];
    assert Value([DigitChar(c.hour)]) == c.hour by { assert [DigitChar(c.hour)][..0] == []; }
    assert s[2..][1..] == s[3..] && s[3..][..2] == Digits(c.minute, 2) && s[3..][2..] == s[5..] && s[5] == ':';
    assert s[5..][1..] == s[6..] && s[6..][..2] == Digits(c.second, 2) && s[6..][2..] == rest;
  }

  /** Text with `:` where the fast path expects the second digit of the hour
      is refused by the fast path. */
  lemma FastRefusesShortHour(s: string)
    requires |s| >= 19 && s[12] == ':'
    ensures FastFields(s) == None
  {
    assert s[..19][11..][0..2][1] == ':';
  }

  /** The general parser reads a timestamp with a one-digit hour in UTC. */
  lemma LayoutShortHour(c: Civil)
    requires ValidCivil(c) && 0 <= c.year <= 9999 && c.hour < 10
    ensures LayoutFields(DateText(c) + "T" + ShortClockText(c) + "Z") == Some((c, 0, 0))
  {
    var rest := "T" + ShortClockText(c) + "Z";
    assert DateText(c) + "T" + ShortClockText(c) + "Z" == DateText(c) + rest;
    LayoutDateText(c, rest);
    LayoutShortClock(c, "Z");
    assert LayoutFraction("Z") == (0, "Z");
  }

  /** A timestamp whose hour has one digit: the fast path refuses it, and
      `time.Parse` still reads it, through the general parser, as the
      instant of its reading in UTC. */
  lemma ParseShortHour(c: Civil)
    requires ValidCivil(c) && 0 <= c.year <= 9999 && c.hour < 10
    ensures FastFields(DateText(c) + "T" + ShortClockText(c) + "Z") == None
    ensures Parse(DateText(c) + "T" + ShortClockText(c) + "Z") == Some(Time(SecondsOf(c) * 1_000_000_000, 0))
  {
    var s := DateText(c) + "T" + ShortClockText(c) + "Z";
    assert |DateText(c)| == 10 by {
      DigitsRoundTrip(c.year, 4);
      DigitsRoundTrip(c.month, 2);
      DigitsRoundTrip(c.day, 2);
    }
    assert |s| >= 19 && s[12] == ':';
    FastRefusesShortHour(s);
    LayoutShortHour(c);
  }

  /** The length of a run of digits followed by a non-digit. */
  lemma {:induction false} LeadingDigitsOf(digits: string, rest: string)
    requires AllDigits(digits) && (rest == [] || !IsDigit(rest[0]))
    ensures LeadingDigits(digits + rest) == |digits|
  {
    if digits != [] {
      LeadingDigitsOf(digits[1..], rest);
      assert (digits + rest)[1..] == digits[1..] + rest;
    }
  }

  /** A fraction after a comma: the general parser reads it, the fast path
      leaves the text unread (and then is refused by the zone element). */
  lemma CommaFraction(digits: string, rest: string)
    requires |digits| >= 1 && AllDigits(digits) && (rest == [] || !IsDigit(rest[0]))
    ensures LayoutFraction([','] + digits + rest) == (FractionNanos(digits), rest)
    ensures ParseFraction([','] + digits + rest) == (0, [','] + digits + rest)
  {
    var s := [','] + digits + rest;
    assert s[1..] == digits + rest;
    LeadingDigitsOf(digits, rest);
    assert s[1..|digits| + 1] == digits && s[|digits| + 1..] == rest;
  }

  /** A signed zone of two-digit hours and minutes, as the general parser
      reads it: hours up to 24 and minutes up to 60. */
  lemma LayoutZoneReach(sign: char, hours: nat, minutes: nat)
    requires (sign == '-' || sign == '+') && hours < 100 && minutes < 100
    ensures var offset := (hours * 60 + minutes) * 60;
      LayoutZone([sign] + Digits(hours, 2) + ":" + Digits(minutes, 2)) ==
        if hours <= 24 && minutes <= 60 then Some((if sign == '-' then -offset else offset, [])) else None
  {
    DigitsRoundTrip(hours, 2);
    DigitsRoundTrip(minutes, 2);
    var z := [sign] + Digits(hours, 2) + ":" + Digits(minutes, 2);
    assert |z| == 6 && z[3] == ':' && z[0] == sign && z[6..] == [];
    assert GetNum(z[1..3], true) == Some((hours, [])) by {
      assert z[1..3] == Digits(hours, 2) && z[1..3][..2] == z[1..3];
    }
    assert GetNum(z[4..6], true) == Some((minutes, [])) by {
      assert z[4..6] == Digits(minutes, 2) && z[4..6][..2] == z[4..6];
    }
    LayoutZoneFields(z, hours, minutes);
  }

  /** A zone element whose hour and minute fields read as `h` and `m`. */
  lemma LayoutZoneFields(z: string, h: int, m: int)
    requires |z| == 6 && (z[0] == '-' || z[0] == '+') && z[3] == ':'
    requires GetNum(z[1..3], true) == Some((h, [])) && GetNum(z[4..6], true) == Some((m, []))
    ensures var offset := (h * 60 + m) * 60;
      LayoutZone(z) == if h <= 24 && m <= 60 then Some((if z[0] == '-' then -offset else offset, z[6..])) else None
  {
  }

  /** An offset from 24 hours up to 25 hours is written as `±24:mm`: the
      fast path refuses that zone element and the general parser reads it
      back as the offset. */
  lemma LateZoneReadsBack(offset: int)
    requires 86400 <= (if offset < 0 then -offset else offset) < 90000 && offset % 60 == 0
    ensures ParseZone(ZoneSuffix(offset)) == None
    ensures LayoutZone(ZoneSuffix(offset)) == Some((offset, []))
  {
    var a := if offset < 0 then -offset else offset;
    var minutes := a / 60;
    assert minutes / 60 == 24 && (24 * 60 + minutes % 60) * 60 == a;
    var sign := if offset < 0 then '-' else '+';
    assert ZoneSuffix(offset) == [sign] + Digits(24, 2) + ":" + Digits(minutes % 60, 2);
    LayoutZoneReach(sign, 24, minutes % 60);
    FastZoneReach(sign, 24, minutes % 60);
  }

  /** The same zone as the fast path reads it: hours up to 23 and minutes up
      to 59 only. */
  lemma FastZoneReach(sign: char, hours: nat, minutes: nat)
    requires (sign == '-' || sign == '+') && hours < 100 && minutes < 100
    ensures var offset := (hours * 60 + minutes) * 60;
      ParseZone([sign] + Digits(hours, 2) + ":" + Digits(minutes, 2)) ==
        if hours <= 23 && minutes <= 59 then Some(if sign == '-' then -offset else offset) else None
  {
    DigitsRoundTrip(hours, 2);
    DigitsRoundTrip(minutes, 2);
    var z := [sign] + Digits(hours, 2) + ":" + Digits(minutes, 2);
    assert z[1..3] == Digits(hours, 2) && z[4..6] == Digits(minutes, 2) && z[3] == ':' && z[0] == sign;
  }

  /** The digits of the example instant's fields. */
  lemma ExampleDigits()
    ensures Digits(2019, 4) == "2019" && Digits(10, 2) == "10"
    ensures Digits(1, 2) == "01" && Digits(0, 2) == "00"
  {
    assert Digits(2, 1) == "2";
    assert Digits(20, 2) == "20";
    assert Digits(201, 3) == "201";
    assert Digits(0, 1) == "0";
    assert Digits(1, 1) == "1";
  }

  /** The text `Format` writes for the instant a local reading stands for is
      that reading's text, whatever the zone. */
  lemma FormatOfCivil(t: Time, c: Civil)
    requires ValidCivil(c) && t.unixNanos == (SecondsOf(c) - t.zoneOffset) * 1_000_000_000
    ensures Format(t) == DateTimeText(c) + ZoneSuffix(t.zoneOffset)
  {
    assert LocalSeconds(t) == SecondsOf(c);
    CivilOfSecondsOf(c);
  }

  /** The reading 2019-10-01T00:00:00, field by field. */
  predicate IsExampleCivil(c: Civil) {
    c.year == 2019 && c.month == 10 && c.day == 1 && c.hour == 0 && c.minute == 0 && c.second == 0
  }

  /** The reading 2019-10-01T00:00:00: valid, 1569888000 seconds after the
      Unix epoch, and written `2019-10-01T00:00:00`. */
  lemma ExampleReading() returns (c: Civil)
    ensures ValidCivil(c) && 0 <= c.year <= 9999
    ensures SecondsOf(c) == 1_569_888_000
    ensures DateTimeText(c) == "2019-10-01T00:00:00"
  {
    assert IsExampleCivil(Civil(2019, 10, 1, 0, 0, 0));
    c :| IsExampleCivil(c);
    ExampleSeconds(c);
    ExampleText(c);
  }

  /** The layout's example instant, as the cache's test expects it written. */
  lemma FormatExample(t: Time)
    requires t.unixNanos == 1_569_888_000_000_000_000 && t.zoneOffset == 0
    ensures Format(t) == "2019-10-01T00:00:00Z"
  {
    var c := ExampleReading();
    FormatOfCivil(t, c);
    ExampleConcat();
  }

  /** The layout's example text reads back as the example instant. */
  lemma ParseExample(t: Time)
    requires t.unixNanos == 1_569_888_000_000_000_000 && t.zoneOffset == 0
    ensures Parse("2019-10-01T00:00:00Z") == Some(t)
  {
    FormatExample(t);
    ParseExampleFormat(t);
  }

  lemma ParseExampleFormat(t: Time)
    requires t.unixNanos == 1_569_888_000_000_000_000 && t.zoneOffset == 0
    ensures Parse(Format(t)) == Some(t)
  {
    var c := ExampleReading();
    FormattableOf(t, c);
    ParseFormat(t);
  }

  /** The instant of a four-digit local reading in a valid zone can be
      formatted, and is a whole second. */
  lemma FormattableOf(t: Time, c: Civil)
    requires ValidCivil(c) && 0 <= c.year <= 9999 && ValidOffset(t.zoneOffset)
    requires t.unixNanos == (SecondsOf(c) - t.zoneOffset) * 1_000_000_000
    ensures Formattable(t) && TruncateToSecond(t) == t
  {
    assert LocalSeconds(t) == SecondsOf(c);
    CivilOfSecondsOf(c);
  }

  /** 2019-10-01T00:00:00 is 1569888000 seconds after the Unix epoch. */
  lemma ExampleSeconds(c: Civil)
    requires IsExampleCivil(c)
    ensures SecondsOf(c) == 1_569_888_000
  {
    ExampleDayNumber(c);
    assert TimeOfDay(c) == 0;
  }

  lemma ExampleDayNumber(c: Civil)
    requires IsExampleCivil(c)
    ensures DayNumber(c) == 18170
  {
    ExampleYearDays(c.year);
    ExampleMonthDays(c.year, c.month);
  }

  lemma ExampleYearDays(y: int)
    requires y == 2019
    ensures DaysBeforeYear(y) == 17897
  {
  }

  lemma ExampleMonthDays(y: int, m: int)
    requires y == 2019 && m == 10
    ensures DaysBeforeMonth(y, m) == 273
  {
  }

  lemma ExampleText(c: Civil)
    requires IsExampleCivil(c)
    ensures ValidCivil(c) && DateTimeText(c) == "2019-10-01T00:00:00"
  {
    ExampleDigits();
    assert c == Civil(2019, 10, 1, 0, 0, 0);
  }

  lemma ExampleConcat()
    ensures "2019-10-01T00:00:00" + "Z" == "2019-10-01T00:00:00Z"
  {
  }
}
