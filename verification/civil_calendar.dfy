/** Zone-free civil-calendar arithmetic on the proleptic Gregorian calendar.
    A date is identified by its day number: the count of days from
    1970-01-01, the epoch of ECMAScript time values. Adding days walks forward
    month by month, rolling the month and the year over. */
module CivilCalendar {
  import opened Types

  predicate IsLeapYear(y: int) {
    y % 4 == 0 && (y % 100 != 0 || y % 400 == 0)
  }

  function DaysInMonth(y: int, m: int): (n: int)
    requires 1 <= m <= 12
    ensures 28 <= n <= 31
    ensures n == 29 <==> m == 2 && IsLeapYear(y)
  {
    if m == 2 then (if IsLeapYear(y) then 29 else 28)
    else if m == 4 || m == 6 || m == 9 || m == 11 then 30
    else 31
  }

  function YearLength(y: int): int {
    if IsLeapYear(y) then 366 else 365
  }

  /** A real calendar day: month 1..12 and a day within that month. */
  predicate ValidDate(d: GregorianDate) {
    1 <= d.month <= 12 && 1 <= d.day <= DaysInMonth(d.year, d.month)
  }

  /** Number of leap years among 1..x (extended to all x by floor division). */
  function LeapYearsThrough(x: int): int {
    x / 4 - x / 100 + x / 400
  }

  /** Day number of January 1st of year `y`. */
  function DaysBeforeYear(y: int): int {
    365 * (y - 1970) + LeapYearsThrough(y - 1) - LeapYearsThrough(1969)
  }

  /** Days of year `y` that precede the first of month `m`. */
  function DaysBeforeMonth(y: int, m: int): int
    requires 1 <= m <= 12
  {
    var common :=
      if m <= 6 then
        (if m == 1 then 0 else if m == 2 then 31 else if m == 3 then 59
         else if m == 4 then 90 else if m == 5 then 120 else 151)
      else
        (if m == 7 then 181 else if m == 8 then 212 else if m == 9 then 243
         else if m == 10 then 273 else if m == 11 then 304 else 334);
    common + (if m > 2 && IsLeapYear(y) then 1 else 0)
  }

  /** Day number of a date: days elapsed since 1970-01-01. */
  function DayNumber(d: GregorianDate): int
    requires 1 <= d.month <= 12
  {
    DaysBeforeYear(d.year) + DaysBeforeMonth(d.year, d.month) + d.day - 1
  }

  /** The first day of the month after the month of `d`. */
  function FirstOfNextMonth(d: GregorianDate): (f: GregorianDate)
    requires ValidDate(d)
    ensures ValidDate(f) && f.day == 1
    ensures DayNumber(f) == DayNumber(d) + (DaysInMonth(d.year, d.month) - d.day) + 1
  {
    if d.month == 12 then
      YearStep(d.year);
      GregorianDate(d.year + 1, 1, 1)
    else
      GregorianDate(d.year, d.month + 1, 1)
  }

  /** The date `n` days after `d`, walking month by month. */
  function AddDays(d: GregorianDate, n: nat): (r: GregorianDate)
    requires ValidDate(d)
    ensures ValidDate(r)
    ensures DayNumber(r) == DayNumber(d) + n
    decreases n
  {
    var rest := DaysInMonth(d.year, d.month) - d.day;
    if n <= rest then GregorianDate(d.year, d.month, d.day + n)
    else AddDays(FirstOfNextMonth(d), n - rest - 1)
  }

  /** Floor division by a positive constant grows by one exactly at multiples. */
  lemma DivStep(y: int, k: int)
    requires k == 4 || k == 100 || k == 400
    ensures y / k - (y - 1) / k == (if y % k == 0 then 1 else 0)
  {
    var q, r := y / k, y % k;
    assert y == k * q + r && 0 <= r < k;
    if r == 0 {
      assert y - 1 == k * (q - 1) + (k - 1);
    } else {
      assert y - 1 == k * q + (r - 1);
    }
  }

  /** A multiple of 100 is a multiple of 4. */
  lemma CenturyIsMultipleOfFour(y: int)
    requires y % 100 == 0
    ensures y % 4 == 0
  {
    assert y == 4 * (25 * (y / 100));
  }

  /** A multiple of 400 is a multiple of 100. */
  lemma QuadCenturyIsCentury(y: int)
    requires y % 400 == 0
    ensures y % 100 == 0
  {
    assert y == 100 * (4 * (y / 400));
  }

  /** The leap-year count grows by one exactly at a leap year. */
  lemma LeapCountStep(y: int)
    ensures LeapYearsThrough(y) - LeapYearsThrough(y - 1) == (if IsLeapYear(y) then 1 else 0)
  {
    DivStep(y, 4);
    DivStep(y, 100);
    DivStep(y, 400);
    if y % 100 == 0 {
      CenturyIsMultipleOfFour(y);
    }
    if y % 400 == 0 {
      QuadCenturyIsCentury(y);
    }
  }

  /** Each year adds its own length to the day number of January 1st. */
  lemma YearStep(y: int)
    ensures DaysBeforeYear(y + 1) == DaysBeforeYear(y) + YearLength(y)
  {
    LeapCountStep(y);
  }

  /** January 1st moves forward with the year. */
  lemma {:induction false} DaysBeforeYearMonotone(y1: int, y2: int)
    requires y1 <= y2
    ensures DaysBeforeYear(y1) <= DaysBeforeYear(y2)
    decreases y2 - y1
  {
    if y1 < y2 {
      YearStep(y1);
      DaysBeforeYearMonotone(y1 + 1, y2);
    }
  }

  /** A valid date's day number lies inside its own year. */
  lemma DayNumberWithinYear(d: GregorianDate)
    requires ValidDate(d)
    ensures DaysBeforeYear(d.year) <= DayNumber(d) < DaysBeforeYear(d.year + 1)
  {
    YearStep(d.year);
  }

  /** Later dates have larger day numbers: the calendar order and the day-number
      order agree on valid dates. */
  lemma DayNumberOrder(a: GregorianDate, b: GregorianDate)
    requires ValidDate(a) && ValidDate(b)
    requires a.year < b.year
          || (a.year == b.year && a.month < b.month)
          || (a.year == b.year && a.month == b.month && a.day < b.day)
    ensures DayNumber(a) < DayNumber(b)
  {
    if a.year < b.year {
      DayNumberWithinYear(a);
      DayNumberWithinYear(b);
      DaysBeforeYearMonotone(a.year + 1, b.year);
    }
  }

  /** Distinct valid dates have distinct day numbers. */
  lemma DayNumberInjective(a: GregorianDate, b: GregorianDate)
    requires ValidDate(a) && ValidDate(b)
    ensures DayNumber(a) == DayNumber(b) <==> a == b
  {
    if a != b {
      if a.year < b.year || (a.year == b.year && a.month < b.month)
         || (a.year == b.year && a.month == b.month && a.day < b.day) {
        DayNumberOrder(a, b);
      } else {
        DayNumberOrder(b, a);
      }
    }
  }

  /** Walking forward from `d` by the day-number distance to a later valid
      date `e` lands exactly on `e`. */
  lemma AddDaysRoundTrip(d: GregorianDate, e: GregorianDate)
    requires ValidDate(d) && ValidDate(e)
    requires DayNumber(d) <= DayNumber(e)
    ensures AddDays(d, DayNumber(e) - DayNumber(d)) == e
  {
    DayNumberInjective(AddDays(d, DayNumber(e) - DayNumber(d)), e);
  }

  /** Adding one more day is taking one more step after the sum. */
  lemma AddDaysSucc(d: GregorianDate, n: nat)
    requires ValidDate(d)
    ensures AddDays(d, n + 1) == AddDays(AddDays(d, n), 1)
  {
    DayNumberInjective(AddDays(d, n + 1), AddDays(AddDays(d, n), 1));
  }
}
