/** The parts of JavaScript's `Date` the service relies on. A `Date` is its
    time value (integer milliseconds since 1970-01-01T00:00:00Z); the host's
    time zone is a fixed offset from UTC. */
module JsDate {
  import opened Wrappers
  import opened Strings
  import Calendar

  const SecondMs := 1000
  const MinuteMs := 60 * SecondMs
  const HourMs := 60 * MinuteMs
  const DayMs := 24 * HourMs

  /** Offset of the host's local time from UTC in milliseconds
      (local wall clock = UTC + offset). */
  type ZoneOffset = z: int | -DayMs < z < DayMs

  /** Number of the local calendar day holding instant `t`. */
  function LocalDayNumber(t: int, zone: ZoneOffset): int {
    (t + zone) / DayMs
  }

  /** `getFullYear()`, `getMonth() + 1` and `getDate()` of instant `t`. */
  function LocalDate(t: int, zone: ZoneOffset): (d: Calendar.Date)
    ensures Calendar.ValidDate(d)
  {
    Calendar.CivilFromDays(LocalDayNumber(t, zone))
  }

  /** Instants on the same local day have the same local date, and only they. */
  lemma SameLocalDate(t: int, u: int, zone: ZoneOffset)
    ensures LocalDate(t, zone) == LocalDate(u, zone) <==> LocalDayNumber(t, zone) == LocalDayNumber(u, zone)
  {
    if LocalDate(t, zone) == LocalDate(u, zone) {
      Calendar.CivilFromDaysInjective(LocalDayNumber(t, zone), LocalDayNumber(u, zone));
    }
  }

  /** `d.setHours(h, m, s, ms)`: the instant at that local wall-clock time of
      the local day holding `t`. */
  function SetHours(t: int, zone: ZoneOffset, h: int, m: int, s: int, ms: int): int {
    LocalDayNumber(t, zone) * DayMs - zone + h * HourMs + m * MinuteMs + s * SecondMs + ms
  }

  /** `setHours(0, 0, 0, 0)` and `setHours(23, 59, 59, 999)` bracket exactly
      the instants of the same local day. */
  lemma LocalDayBracket(t: int, u: int, zone: ZoneOffset)
    ensures SetHours(u, zone, 0, 0, 0, 0) <= t <= SetHours(u, zone, 23, 59, 59, 999)
            <==> LocalDayNumber(t, zone) == LocalDayNumber(u, zone)
  {
    var n := LocalDayNumber(u, zone);
    var k := LocalDayNumber(t, zone);
    assert k * DayMs <= t + zone < k * DayMs + DayMs;
    if k < n {
      assert k * DayMs + DayMs <= n * DayMs;
    } else if n < k {
      assert n * DayMs + DayMs <= k * DayMs;
    }
  }

  /** The instant local day number `n` begins at. */
  function LocalMidnight(n: int, zone: ZoneOffset): int {
    n * DayMs - zone
  }

  /** The instants from local midnight of day `n` through the last
      millisecond before the next local midnight are exactly those whose
      local day is `n`. */
  lemma LocalDayInterval(n: int, t: int, zone: ZoneOffset)
    ensures LocalMidnight(n, zone) <= t <= LocalMidnight(n, zone) + DayMs - 1 <==> LocalDayNumber(t, zone) == n
  {
    var k := LocalDayNumber(t, zone);
    assert k * DayMs <= t + zone < k * DayMs + DayMs;
    if k < n {
      assert k * DayMs + DayMs <= n * DayMs;
    } else if n < k {
      assert n * DayMs + DayMs <= k * DayMs;
    }
  }

  /** The `YYYY-MM-DD` shape of ECMAScript's date-only time string format. */
  predicate IsDateOnlyForm(s: string) {
    |s| == 10 && s[4] == '-' && s[7] == '-'
    && AllDigits(s[..4]) && AllDigits(s[5..7]) && AllDigits(s[8..])
  }

  /** Year, month and day fields of a `YYYY-MM-DD` string. */
  function DateOnlyFields(s: string): Calendar.Date
    requires IsDateOnlyForm(s)
  {
    Calendar.Date(DigitsValue(s[..4]), DigitsValue(s[5..7]), DigitsValue(s[8..]))
  }

  /** A date-only string is determined by its three fields. */
  lemma DateOnlyFormUnique(s: string, r: string)
    requires IsDateOnlyForm(s) && IsDateOnlyForm(r)
    requires DateOnlyFields(s) == DateOnlyFields(r)
    ensures s == r
  {
    DigitsValueInjective(s[..4], r[..4]);
    DigitsValueInjective(s[5..7], r[5..7]);
    DigitsValueInjective(s[8..], r[8..]);
    assert s == s[..4] + "-" + s[5..7] + "-" + s[8..];
    assert r == r[..4] + "-" + r[5..7] + "-" + r[8..];
  }

  /** `new Date(s)` for a date-only string: UTC midnight of the named day, or
      `None` for an Invalid Date. A day past the end of its month (up to 31)
      rolls into the next month, as MakeDay does. */
  function ParseDateOnly(s: string): (r: Option<int>)
    ensures r.Some? ==> r.value % DayMs == 0
    ensures r.Some? <==> IsDateOnlyForm(s) && 1 <= DateOnlyFields(s).month <= 12 && 1 <= DateOnlyFields(s).day <= 31
  {
    if !IsDateOnlyForm(s) then None
    else
      var f := DateOnlyFields(s);
      if 1 <= f.month <= 12 && 1 <= f.day <= 31
      then
        var n := Calendar.MakeDay(f.year, f.month, f.day);
        DayMultiple(n);
        Some(n * DayMs)
      else None
  }

  lemma DayMultiple(n: int)
    ensures (n * DayMs) % DayMs == 0
  {
  }

  /** A valid `YYYY-MM-DD` string parses to midnight UTC of exactly that date. */
  lemma ParseDateOnlyNamesItsDate(s: string)
    requires IsDateOnlyForm(s) && Calendar.ValidDate(DateOnlyFields(s))
    ensures ParseDateOnly(s).Some?
    ensures LocalDate(ParseDateOnly(s).value, 0) == DateOnlyFields(s)
  {
    var f := DateOnlyFields(s);
    var t := ParseDateOnly(s).value;
    assert t == Calendar.DaysFromCivil(f) * DayMs;
    assert LocalDayNumber(t, 0) == Calendar.DaysFromCivil(f);
    Calendar.CivilOfDaysFromCivil(f);
  }

  /** `String(n).padStart(2, '0')` for `n` below 100. */
  function TwoDigits(n: nat): (s: string)
    requires n < 100
    ensures |s| == 2 && AllDigits(s) && DigitsValue(s) == n
  {
    ZeroPadRoundTrip(n, 2);
    ZeroPad(n, 2)
  }

  /** Year field of `toISOString`: four digits for years 0 to 9999, otherwise
      a sign and six digits. */
  function IsoYear(y: int): (s: string)
    ensures 0 <= y <= 9999 ==> |s| == 4 && AllDigits(s) && DigitsValue(s) == y
  {
    if 0 <= y <= 9999 then
      ZeroPadRoundTrip(y, 4);
      ZeroPad(y, 4)
    else if y < 0 then "-" + ZeroPad(-y, 6)
    else "+" + ZeroPad(y, 6)
  }

  /** Hours, minutes, seconds and milliseconds of a time of day. */
  datatype TimeOfDay = TimeOfDay(hours: nat, minutes: nat, seconds: nat, millis: nat)

  function SplitTime(ms: int): (r: TimeOfDay)
    requires 0 <= ms < DayMs
    ensures r.hours < 24 && r.minutes < 60 && r.seconds < 60 && r.millis < 1000
    ensures r.hours * HourMs + r.minutes * MinuteMs + r.seconds * SecondMs + r.millis == ms
  {
    var q1 := ms / 1000;
    var q2 := q1 / 60;
    assert ms == 1000 * q1 + ms % 1000;
    assert q1 == 60 * q2 + q1 % 60;
    assert q2 == 60 * (q2 / 60) + q2 % 60;
    TimeOfDay(q2 / 60, q2 % 60, q1 % 60, ms % 1000)
  }

  /** Time-of-day field of `toISOString`, `HH:mm:ss.sss`, for the
      milliseconds since midnight. */
  function IsoTime(ms: int): (s: string)
    requires 0 <= ms < DayMs
    ensures |s| == 12 && s[2] == ':' && s[5] == ':' && s[8] == '.'
    ensures AllDigits(s[..2]) && AllDigits(s[3..5]) && AllDigits(s[6..8]) && AllDigits(s[9..])
    ensures DigitsValue(s[..2]) * HourMs + DigitsValue(s[3..5]) * MinuteMs
            + DigitsValue(s[6..8]) * SecondMs + DigitsValue(s[9..]) == ms
  {
    var f := SplitTime(ms);
    var fr := ZeroPad(f.millis, 3);
    ZeroPadRoundTrip(f.millis, 3);
    var hh, mm, ss := TwoDigits(f.hours), TwoDigits(f.minutes), TwoDigits(f.seconds);
    TimeTextParts(hh, mm, ss, fr);
    hh + ":" + mm + ":" + ss + "." + fr
  }

  /** Where the fields sit inside `hh:mm:ss.sss`. */
  lemma TimeTextParts(hh: string, mm: string, ss: string, fr: string)
    requires |hh| == 2 && |mm| == 2 && |ss| == 2 && |fr| == 3
    ensures var r := hh + ":" + mm + ":" + ss + "." + fr;
      |r| == 12 && r[2] == ':' && r[5] == ':' && r[8] == '.'
      && r[..2] == hh && r[3..5] == mm && r[6..8] == ss && r[9..] == fr
  {
    var r := hh + ":" + mm + ":" + ss + "." + fr;
    assert r[..2] == hh && r[3..5] == mm;
    assert r[6..8] == ss && r[9..] == fr;
  }

  /** Date field of `toISOString`, `YYYY-MM-DD` for years 0 to 9999. */
  function IsoDate(d: Calendar.Date): (s: string)
    requires Calendar.ValidDate(d)
    ensures 0 <= d.year <= 9999 ==> IsDateOnlyForm(s) && DateOnlyFields(s) == d
  {
    var y4, mo, da := IsoYear(d.year), TwoDigits(d.month), TwoDigits(d.day);
    var r := y4 + "-" + mo + "-" + da;
    if 0 <= d.year <= 9999 then
      assert r[..4] == y4 && r[5..7] == mo && r[8..] == da;
      r
    else r
  }

  /** `toISOString()`: the UTC rendering `YYYY-MM-DDTHH:mm:ss.sssZ`. */
  function ToIsoString(t: int): string {
    IsoDate(LocalDate(t, 0)) + "T" + IsoTime(t % DayMs) + "Z"
  }

  /** Reads a `YYYY-MM-DDTHH:mm:ss.sssZ` text back into its instant. */
  function ParseIsoString(s: string): Option<int> {
    if |s| == 24 && IsDateOnlyForm(s[..10]) && s[10] == 'T' && s[23] == 'Z'
       && AllDigits(s[11..13]) && AllDigits(s[14..16]) && AllDigits(s[17..19]) && AllDigits(s[20..23])
       && 1 <= DateOnlyFields(s[..10]).month <= 12
    then
      var d := DateOnlyFields(s[..10]);
      Some(Calendar.MakeDay(d.year, d.month, d.day) * DayMs
           + DigitsValue(s[11..13]) * HourMs + DigitsValue(s[14..16]) * MinuteMs
           + DigitsValue(s[17..19]) * SecondMs + DigitsValue(s[20..23]))
    else None
  }

  /** `s` has the `YYYY-MM-DDTHH:mm:ss.sssZ` shape, its date part reads as
      `d` and its time part as `ms` milliseconds after midnight. */
  predicate IsoFields(s: string, d: Calendar.Date, ms: int) {
    |s| == 24 && s[10] == 'T' && s[23] == 'Z'
    && IsDateOnlyForm(s[..10]) && DateOnlyFields(s[..10]) == d
    && AllDigits(s[11..13]) && AllDigits(s[14..16]) && AllDigits(s[17..19]) && AllDigits(s[20..23])
    && DigitsValue(s[11..13]) * HourMs + DigitsValue(s[14..16]) * MinuteMs
       + DigitsValue(s[17..19]) * SecondMs + DigitsValue(s[20..23]) == ms
  }

  /** For years 0 to 9999, `toISOString` is 24 characters whose date part
      reads back as the instant's UTC date and whose time part reads back as
      its time of day. */
  lemma ToIsoStringFields(t: int)
    requires 0 <= LocalDate(t, 0).year <= 9999
    ensures IsoFields(ToIsoString(t), LocalDate(t, 0), t % DayMs)
  {
    IsoTextFields(LocalDate(t, 0), t % DayMs);
  }

  /** The same for any date of years 0 to 9999 and any time of day. */
  lemma IsoTextFields(d: Calendar.Date, ms: int)
    requires Calendar.ValidDate(d) && 0 <= d.year <= 9999 && 0 <= ms < DayMs
    ensures IsoFields(IsoDate(d) + "T" + IsoTime(ms) + "Z", d, ms)
  {
    IsoTextParts(IsoDate(d), IsoTime(ms));
  }

  /** Where the date and time texts sit inside `date + "T" + time + "Z"`. */
  lemma IsoTextParts(dt: string, tm: string)
    requires |dt| == 10 && |tm| == 12
    ensures var s := dt + "T" + tm + "Z";
      |s| == 24 && s[10] == 'T' && s[23] == 'Z' && s[..10] == dt
      && s[11..13] == tm[..2] && s[14..16] == tm[3..5] && s[17..19] == tm[6..8] && s[20..23] == tm[9..]
  {
    var s := dt + "T" + tm + "Z";
    assert s[..10] == dt;
    assert s[11..23] == tm;
  }

  /** A text of that shape reads back as the day of its date plus its time. */
  lemma ParseIsoStringOfFields(s: string, d: Calendar.Date, ms: int)
    requires IsoFields(s, d, ms) && Calendar.ValidDate(d)
    ensures ParseIsoString(s) == Some(Calendar.DaysFromCivil(d) * DayMs + ms)
  {
  }

  /** In years 0 to 9999 the `toISOString` text reads back as the instant it
      was rendered from. */
  lemma ToIsoStringRoundTrip(t: int)
    requires 0 <= LocalDate(t, 0).year <= 9999
    ensures ParseIsoString(ToIsoString(t)) == Some(t)
  {
    ToIsoStringFields(t);
    ParseIsoStringOfInstantFields(ToIsoString(t), t);
  }

  lemma ParseIsoStringOfInstantFields(s: string, t: int)
    requires IsoFields(s, LocalDate(t, 0), t % DayMs)
    ensures ParseIsoString(s) == Some(t)
  {
    ParseIsoStringOfFields(s, LocalDate(t, 0), t % DayMs);
    Calendar.DaysFromCivilOfCivil(LocalDayNumber(t, 0));
    DayAndTime(t);
  }

  lemma DayAndTime(t: int)
    ensures t == LocalDayNumber(t, 0) * DayMs + t % DayMs
  {
  }

  /** Hence distinct instants in years 0 to 9999 render differently. */
  lemma ToIsoStringInjective(t: int, u: int)
    requires 0 <= LocalDate(t, 0).year <= 9999 && 0 <= LocalDate(u, 0).year <= 9999
    requires ToIsoString(t) == ToIsoString(u)
    ensures t == u
  {
    ToIsoStringRoundTrip(t);
    ToIsoStringRoundTrip(u);
  }
}
