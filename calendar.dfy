/** The proleptic Gregorian calendar of ECMAScript time values, at whole-day
    resolution and without time zones: a date is the number of days since
    1970-01-01 (the Unix epoch), and a calendar date is a (year, month, day)
    triple whose month counts from 0, as `Date.prototype.getMonth` does. */
module Calendar {

  /** A JavaScript `Date` at midnight UTC, as a day number relative to 1970-01-01. */
  datatype Date = Date(day: int)

  /** A calendar date as `getFullYear`, `getMonth` and `getDate` report it. */
  datatype Civil = Civil(year: int, month: int, day: int)

  predicate IsLeapYear(y: int) {
    y % 4 == 0 && (y % 100 != 0 || y % 400 == 0)
  }

  function DaysInYear(y: int): int {
    if IsLeapYear(y) then 366 else 365
  }

  function DaysInMonth(y: int, m: int): (n: int)
    requires 0 <= m < 12
    ensures 28 <= n <= 31
    ensures n == 31 <==> m in {0, 2, 4, 6, 7, 9, 11}
    ensures m == 1 ==> (n == 29 <==> IsLeapYear(y))
  {
    if m == 1 then (if IsLeapYear(y) then 29 else 28)
    else if m == 3 || m == 5 || m == 8 || m == 10 then 30
    else 31
  }

  /** Days of year `y` that come before the first day of month `m` (0 <= m <= 12). */
  function DaysBeforeMonth(y: int, m: int): int
    requires 0 <= m <= 12
  {
    var common :=
      if m == 0 then 0 else if m == 1 then 31 else if m == 2 then 59
      else if m == 3 then 90 else if m == 4 then 120 else if m == 5 then 151
      else if m == 6 then 181 else if m == 7 then 212 else if m == 8 then 243
      else if m == 9 then 273 else if m == 10 then 304 else if m == 11 then 334
      else 365;
    common + (if m >= 2 && IsLeapYear(y) then 1 else 0)
  }

  lemma DaysBeforeMonthStep(y: int, m: int)
    requires 0 <= m < 12
    ensures DaysBeforeMonth(y, m + 1) == DaysBeforeMonth(y, m) + DaysInMonth(y, m)
    ensures DaysBeforeMonth(y, 12) == DaysInYear(y)
  {
  }

  /** Leap years in the years 1 .. x (for x < 1: minus those in x + 1 .. 0). */
  function LeapYearsThrough(x: int): int {
    x / 4 - x / 100 + x / 400
  }

  /** Days from 1970-01-01 to the first day of year `y` (negative before 1970). */
  function DaysBeforeYear(y: int): int {
    365 * (y - 1970) + LeapYearsThrough(y - 1) - LeapYearsThrough(1969)
  }

  lemma DivisorStep(y: int)
    ensures y / 4 - (y - 1) / 4 == (if y % 4 == 0 then 1 else 0)
    ensures y / 100 - (y - 1) / 100 == (if y % 100 == 0 then 1 else 0)
    ensures y / 400 - (y - 1) / 400 == (if y % 400 == 0 then 1 else 0)
  {
  }

  /** Every multiple of 400 is one of 100. */
  lemma MultipleOf400(y: int)
    requires y % 400 == 0
    ensures y % 100 == 0
  {
    assert y == 100 * (4 * (y / 400));
  }

  /** Every multiple of 100 is one of 4. */
  lemma MultipleOf100(y: int)
    requires y % 100 == 0
    ensures y % 4 == 0
  {
    assert y == 4 * (25 * (y / 100));
  }

  /** Year `y` is a leap year exactly when it adds one to the leap-year count. */
  lemma LeapYearsStep(y: int)
    ensures LeapYearsThrough(y) - LeapYearsThrough(y - 1) == (if IsLeapYear(y) then 1 else 0)
  {
    DivisorStep(y);
    if y % 400 == 0 {
      MultipleOf400(y);
    }
    if y % 100 == 0 {
      MultipleOf100(y);
    }
  }

  /** One year further on is exactly that year's length further on. */
  lemma YearStep(y: int)
    ensures DaysBeforeYear(y + 1) == DaysBeforeYear(y) + DaysInYear(y)
  {
    LeapYearsStep(y);
    assert DaysBeforeYear(y + 1) - DaysBeforeYear(y) == 365 + LeapYearsThrough(y) - LeapYearsThrough(y - 1);
  }

  lemma {:induction false} DaysBeforeYearMonotone(a: int, b: int)
    requires a <= b
    ensures DaysBeforeYear(a) + 365 * (b - a) <= DaysBeforeYear(b)
    decreases b - a
  {
    if a < b {
      YearStep(a);
      DaysBeforeYearMonotone(a + 1, b);
    }
  }

  /** ECMAScript MakeDay for a month already within 0..11: the day number of
      day `d` of month `m` of year `y`, where `d` may run past the month's end
      (a day past the end lands in the following month, as `new Date` does). */
  function MakeDay(y: int, m: int, d: int): int
    requires 0 <= m < 12
  {
    DaysBeforeYear(y) + DaysBeforeMonth(y, m) + d - 1
  }

  predicate ValidCivil(c: Civil) {
    0 <= c.month < 12 && 1 <= c.day <= DaysInMonth(c.year, c.month)
  }

  function DayOf(c: Civil): int
    requires 0 <= c.month < 12
  {
    MakeDay(c.year, c.month, c.day)
  }

  /** The year containing day `n`, searched upwards from a year that starts on or before it. */
  function YearUp(n: int, y: int): (r: int)
    requires DaysBeforeYear(y) <= n
    ensures DaysBeforeYear(r) <= n < DaysBeforeYear(r + 1)
    decreases n - DaysBeforeYear(y)
  {
    YearStep(y);
    if n < DaysBeforeYear(y + 1) then y else YearUp(n, y + 1)
  }

  /** The year containing day `n`, searched downwards from a year that ends after it. */
  function YearDown(n: int, y: int): (r: int)
    requires n < DaysBeforeYear(y + 1)
    ensures DaysBeforeYear(r) <= n < DaysBeforeYear(r + 1)
    decreases DaysBeforeYear(y + 1) - n
  {
    YearStep(y);
    if DaysBeforeYear(y) <= n then y else YearDown(n, y - 1)
  }

  function YearOf(n: int): (r: int)
    ensures DaysBeforeYear(r) <= n < DaysBeforeYear(r + 1)
  {
    if n >= 0 then YearUp(n, 1970) else YearDown(n, 1969)
  }

  /** The month of year `y` holding day-of-year `doy`, searched from month `m` downwards. */
  function MonthDown(y: int, doy: int, m: int): (r: int)
    requires 0 <= m < 12 && 0 <= doy < DaysBeforeMonth(y, m + 1)
    ensures 0 <= r <= m
    ensures DaysBeforeMonth(y, r) <= doy < DaysBeforeMonth(y, r + 1)
  {
    if DaysBeforeMonth(y, m) <= doy then m else MonthDown(y, doy, m - 1)
  }

  /** YearFromTime, MonthFromTime and DateFromTime of ECMAScript, for a whole day. */
  function CivilFromDays(n: int): (c: Civil)
    ensures ValidCivil(c)
    ensures DayOf(c) == n
  {
    var y := YearOf(n);
    YearStep(y);
    DaysBeforeMonthStep(y, 11);
    var doy := n - DaysBeforeYear(y);
    var m := MonthDown(y, doy, 11);
    DaysBeforeMonthStep(y, m);
    Civil(y, m, doy - DaysBeforeMonth(y, m) + 1)
  }

  /** A valid calendar date lies inside its own year. */
  lemma DayWithinYear(c: Civil)
    requires ValidCivil(c)
    ensures DaysBeforeYear(c.year) <= DayOf(c) < DaysBeforeYear(c.year + 1)
  {
    YearStep(c.year);
    DaysBeforeMonthStep(c.year, c.month);
    if c.month < 11 {
      assert DaysBeforeMonth(c.year, c.month + 1) <= DaysBeforeMonth(c.year, 12);
    }
  }

  /** Only one year contains a given day. */
  lemma YearUnique(n: int, a: int, b: int)
    requires DaysBeforeYear(a) <= n < DaysBeforeYear(a + 1)
    requires DaysBeforeYear(b) <= n < DaysBeforeYear(b + 1)
    ensures a == b
  {
    if a < b {
      DaysBeforeYearMonotone(a + 1, b);
    } else if b < a {
      DaysBeforeYearMonotone(b + 1, a);
    }
  }

  lemma {:induction false} DaysBeforeMonthMonotone(y: int, a: int, b: int)
    requires 0 <= a <= b <= 12
    ensures DaysBeforeMonth(y, a) <= DaysBeforeMonth(y, b)
    decreases b - a
  {
    if a < b {
      DaysBeforeMonthStep(y, a);
      DaysBeforeMonthMonotone(y, a + 1, b);
    }
  }

  /** Only one month of a year contains a given day of the year. */
  lemma MonthUnique(y: int, doy: int, a: int, b: int)
    requires 0 <= a < 12 && DaysBeforeMonth(y, a) <= doy < DaysBeforeMonth(y, a + 1)
    requires 0 <= b < 12 && DaysBeforeMonth(y, b) <= doy < DaysBeforeMonth(y, b + 1)
    ensures a == b
  {
    if a < b {
      DaysBeforeMonthMonotone(y, a + 1, b);
    } else if b < a {
      DaysBeforeMonthMonotone(y, b + 1, a);
    }
  }

  /** Two valid calendar dates with the same day number are equal. */
  lemma DayOfInjective(c: Civil, c': Civil)
    requires ValidCivil(c) && ValidCivil(c')
    requires DayOf(c) == DayOf(c')
    ensures c == c'
  {
    DayWithinYear(c);
    DayWithinYear(c');
    YearUnique(DayOf(c), c.year, c'.year);
    var y := c.year;
    DaysBeforeMonthStep(y, c.month);
    DaysBeforeMonthStep(y, c'.month);
    var doy := DayOf(c) - DaysBeforeYear(y);
    assert doy == DaysBeforeMonth(y, c.month) + c.day - 1;
    assert doy == DaysBeforeMonth(y, c'.month) + c'.day - 1;
    MonthUnique(y, doy, c.month, c'.month);
  }

  /** Reading back the calendar fields of a valid date's day number gives that date. */
  lemma {:induction false} CivilOfDay(c: Civil)
    requires ValidCivil(c)
    ensures CivilFromDays(DayOf(c)) == c
  {
    DayOfInjective(CivilFromDays(DayOf(c)), c);
  }

  /** A day of month 1..31 written into a month 0..11 never leaves the following year. */
  lemma MakeDayYearBound(y: int, m: int, d: int)
    requires 0 <= m < 12 && 1 <= d <= 31
    ensures CivilFromDays(MakeDay(y, m, d)).year in {y, y + 1}
  {
    var n := MakeDay(y, m, d);
    DaysBeforeMonthMonotone(y, m, 11);
    assert DaysBeforeMonth(y, 11) <= 335;
    YearStep(y);
    YearStep(y + 1);
    assert DaysBeforeYear(y) <= n < DaysBeforeYear(y + 2);
    var c := CivilFromDays(n);
    WithinTwoYears(n, c.year, y);
  }

  /** A day within the two years from `y` belongs to `y` or to `y + 1`. */
  lemma WithinTwoYears(n: int, a: int, y: int)
    requires DaysBeforeYear(a) <= n < DaysBeforeYear(a + 1)
    requires DaysBeforeYear(y) <= n < DaysBeforeYear(y + 2)
    ensures a in {y, y + 1}
  {
    if a < y {
      DaysBeforeYearMonotone(a + 1, y);
    } else if a > y + 1 {
      DaysBeforeYearMonotone(y + 2, a);
    }
  }

  /** ECMAScript TimeClip at whole-day resolution: a time value is valid while
      its magnitude is at most 8.64e15 ms, that is 100,000,000 days. */
  predicate InTimeRange(n: int) {
    -100_000_000 <= n <= 100_000_000
  }

  /** Every date of the years 0..9999 is a valid time value. */
  lemma FourDigitYearInRange(y: int, m: int, d: int)
    requires 0 <= y <= 9999 && 0 <= m < 12 && 1 <= d <= 31
    ensures InTimeRange(MakeDay(y, m, d))
  {
  }

  const MsPerDay: int := 86_400_000
}
