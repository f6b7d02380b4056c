/** The proleptic Gregorian calendar that JavaScript's `Date` uses, on day
    numbers counted from 1970-01-01 (day 0). `CivilFromDays` is what
    `getFullYear`/`getMonth`/`getDate` report for a day, `DaysFromCivil` is
    the day a calendar date names; the two are proved mutually inverse. */
module Calendar {

  /** A calendar date; `month` is 1-based (JavaScript's `getMonth() + 1`). */
  datatype Date = Date(year: int, month: int, day: int)

  predicate IsLeapYear(y: int) {
    y % 4 == 0 && (y % 100 != 0 || y % 400 == 0)
  }

  function DaysInYear(y: int): int {
    if IsLeapYear(y) then 366 else 365
  }

  function DaysInMonth(y: int, m: int): int
    requires 1 <= m <= 12
  {
    if m == 2 then (if IsLeapYear(y) then 29 else 28)
    else if m == 4 || m == 6 || m == 9 || m == 11 then 30
    else 31
  }

  predicate ValidDate(d: Date) {
    1 <= d.month <= 12 && 1 <= d.day <= DaysInMonth(d.year, d.month)
  }

  /** Days of year `y` before the first of month `m`. */
  function DaysBeforeMonth(y: int, m: int): int
    requires 1 <= m <= 12
  {
    var common :=
      if m == 1 then 0 else if m == 2 then 31 else if m == 3 then 59
      else if m == 4 then 90 else if m == 5 then 120 else if m == 6 then 151
      else if m == 7 then 181 else if m == 8 then 212 else if m == 9 then 243
      else if m == 10 then 273 else if m == 11 then 304 else 334;
    if m > 2 && IsLeapYear(y) then common + 1 else common
  }

  /** Leap years among 1 .. y-1 (negative counts for years before 1). */
  function LeapYearsBefore(y: int): int {
    (y - 1) / 4 - (y - 1) / 100 + (y - 1) / 400
  }

  /** Day number of January 1st of year `y`. */
  function DaysBeforeYear(y: int): int {
    365 * (y - 1970) + LeapYearsBefore(y) - LeapYearsBefore(1970)
  }

  /** Going from `y - 1` to `y` raises the quotient by `k` exactly when `k`
      divides `y`. */
  lemma StepDiv(y: int, k: int)
    requires k == 4 || k == 100 || k == 400
    ensures y / k - (y - 1) / k == (if y % k == 0 then 1 else 0)
  {
    var q, r := (y - 1) / k, (y - 1) % k;
    assert y == k * q + r + 1;
    if r == k - 1 {
      assert y == k * (q + 1);
    }
  }

  lemma NextYear(y: int)
    ensures DaysBeforeYear(y + 1) == DaysBeforeYear(y) + DaysInYear(y)
  {
    StepDiv(y, 4);
    StepDiv(y, 100);
    StepDiv(y, 400);
  }

  /** A year lasts 365.2425 days on average: the day number of January 1st
      stays within 700/400 days of that line. */
  lemma DaysBeforeYearNearLine(y: int)
    ensures -700 < 400 * DaysBeforeYear(y) - 146097 * (y - 1970) < 700
  {
    var a := y - 1;
    assert 4 * (a / 4) <= a < 4 * (a / 4) + 4;
    assert 100 * (a / 100) <= a < 100 * (a / 100) + 100;
    assert 400 * (a / 400) <= a < 400 * (a / 400) + 400;
    assert LeapYearsBefore(1970) == 477;
  }

  lemma DaysBeforeYearIncreasing(a: int, b: int)
    requires a < b
    ensures DaysBeforeYear(a) + 365 <= DaysBeforeYear(b)
  {
    if b == a + 1 {
      NextYear(a);
    } else {
      DaysBeforeYearNearLine(a);
      DaysBeforeYearNearLine(b);
    }
  }

  /** The year that day `n` falls in. */
  function YearOfDay(n: int): (y: int)
    ensures DaysBeforeYear(y) <= n < DaysBeforeYear(y + 1)
  {
    var e := 1970 + (400 * n) / 146097;
    YearEstimate(n);
    if n < DaysBeforeYear(e) then e - 1
    else if n < DaysBeforeYear(e + 1) then e
    else e + 1
  }

  /** The average-length estimate of the year is off by at most one. */
  lemma YearEstimate(n: int)
    ensures var e := 1970 + (400 * n) / 146097;
      DaysBeforeYear(e - 1) <= n < DaysBeforeYear(e + 2)
  {
    var q := (400 * n) / 146097;
    assert 146097 * q <= 400 * n < 146097 * q + 146097;
    DaysBeforeYearNearLine(1970 + q - 1);
    DaysBeforeYearNearLine(1970 + q + 2);
  }

  /** Only one year contains a given day. */
  lemma YearUnique(n: int, y: int)
    requires DaysBeforeYear(y) <= n < DaysBeforeYear(y + 1)
    ensures YearOfDay(n) == y
  {
    var z := YearOfDay(n);
    if z < y {
      if z + 1 < y { DaysBeforeYearIncreasing(z + 1, y); }
    } else if y < z {
      if y + 1 < z { DaysBeforeYearIncreasing(y + 1, z); }
    }
  }

  lemma MonthsFillYear(y: int, m: int)
    requires 1 <= m <= 12
    ensures m < 12 ==> DaysBeforeMonth(y, m + 1) == DaysBeforeMonth(y, m) + DaysInMonth(y, m)
    ensures m == 12 ==> DaysBeforeMonth(y, m) + DaysInMonth(y, m) == DaysInYear(y)
  {
  }

  /** The month of year `y` holding day-of-year `doy`, searching from `m`. */
  function MonthFrom(y: int, doy: int, m: int): (r: int)
    requires 1 <= m <= 12
    requires DaysBeforeMonth(y, m) <= doy < DaysInYear(y)
    ensures m <= r <= 12
    ensures DaysBeforeMonth(y, r) <= doy < DaysBeforeMonth(y, r) + DaysInMonth(y, r)
    decreases 12 - m
  {
    MonthsFillYear(y, m);
    if m == 12 || doy < DaysBeforeMonth(y, m + 1) then m else MonthFrom(y, doy, m + 1)
  }

  lemma MonthUnique(y: int, doy: int, m: int, k: int)
    requires 1 <= m <= 12 && 1 <= k <= 12
    requires DaysBeforeMonth(y, m) <= doy < DaysBeforeMonth(y, m) + DaysInMonth(y, m)
    requires DaysBeforeMonth(y, k) <= doy < DaysBeforeMonth(y, k) + DaysInMonth(y, k)
    ensures m == k
  {
  }

  /** The calendar date of day number `n`. */
  function CivilFromDays(n: int): (d: Date)
    ensures ValidDate(d)
  {
    var y := YearOfDay(n);
    NextYear(y);
    var m := MonthFrom(y, n - DaysBeforeYear(y), 1);
    Date(y, m, n - DaysBeforeYear(y) - DaysBeforeMonth(y, m) + 1)
  }

  /** ECMAScript's MakeDay for a 1-based month: the day number of day `d` of
      month `m` of year `y`, counting past the month's end when `d` is larger
      than the month. */
  function MakeDay(y: int, m: int, d: int): int
    requires 1 <= m <= 12
  {
    DaysBeforeYear(y) + DaysBeforeMonth(y, m) + d - 1
  }

  /** The day number of a valid calendar date. */
  function DaysFromCivil(d: Date): int
    requires ValidDate(d)
  {
    MakeDay(d.year, d.month, d.day)
  }

  /** Decomposing a day and recomposing the date gives the day back. */
  lemma DaysFromCivilOfCivil(n: int)
    ensures DaysFromCivil(CivilFromDays(n)) == n
  {
  }

  /** Every month ends within its year. */
  lemma MonthWithinYear(y: int, m: int)
    requires 1 <= m <= 12
    ensures DaysBeforeMonth(y, m) + DaysInMonth(y, m) <= DaysInYear(y)
  {
  }

  /** Recomposing a valid date and decomposing the day gives the date back. */
  lemma CivilOfDaysFromCivil(d: Date)
    requires ValidDate(d)
    ensures CivilFromDays(DaysFromCivil(d)) == d
  {
    var n := DaysFromCivil(d);
    MonthWithinYear(d.year, d.month);
    NextYear(d.year);
    YearUnique(n, d.year);
    var doy := n - DaysBeforeYear(d.year);
    MonthUnique(d.year, doy, MonthFrom(d.year, doy, 1), d.month);
  }

  /** Distinct days have distinct dates. */
  lemma CivilFromDaysInjective(n: int, k: int)
    requires CivilFromDays(n) == CivilFromDays(k)
    ensures n == k
  {
    DaysFromCivilOfCivil(n);
    DaysFromCivilOfCivil(k);
  }
}
