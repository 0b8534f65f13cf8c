/**
 * Calendar dates of the proleptic Gregorian calendar and their day numbers.
 *
 * The measurement table stores dates as ISO `YYYY-MM-DD` text, which compares
 * lexicographically; the rest of the model works on day numbers. This module
 * defines the conversion and proves that, on valid dates, the ISO (year, month,
 * day) order is exactly the order of day numbers, so a maximum or a `>=` filter
 * means the same thing on either representation.
 */
module Calendar {

  datatype Date = Date(year: int, month: int, day: int)

  predicate IsLeapYear(y: int) {
    y % 4 == 0 && (y % 100 != 0 || y % 400 == 0)
  }

  function YearLength(y: int): int {
    if IsLeapYear(y) then 366 else 365
  }

  function DaysInMonth(y: int, m: int): int
    requires 1 <= m <= 12
  {
    if m == 2 then (if IsLeapYear(y) then 29 else 28)
    else if m == 4 || m == 6 || m == 9 || m == 11 then 30
    else 31
  }

  /** A date that names a real day and has a four-digit ISO year, 0001 to 9999. */
  predicate Valid(d: Date) {
    1 <= d.year <= 9999 && 1 <= d.month <= 12 && 1 <= d.day <= DaysInMonth(d.year, d.month)
  }

  /** Days in the years 1 .. y-1. */
  function DaysBeforeYear(y: int): int {
    365 * (y - 1) + (y - 1) / 4 - (y - 1) / 100 + (y - 1) / 400
  }

  /** Days in the months 1 .. m-1 of year y. */
  function DaysBeforeMonth(y: int, m: int): int
    requires 1 <= m <= 12
  {
    if m == 1 then 0 else DaysBeforeMonth(y, m - 1) + DaysInMonth(y, m - 1)
  }

  /** The day number of a date: 0001-01-01 is day 0, and no valid date comes earlier. */
  function Days(d: Date): (r: int)
    requires Valid(d)
    ensures r >= 0
  {
    MonthsNonNegative(d.year, d.month);
    DaysBeforeYear(d.year) + DaysBeforeMonth(d.year, d.month) + d.day - 1
  }

  /**
   * Year, then month, then day. On valid dates, whose ISO form is exactly
   * `YYYY-MM-DD` with a four-digit year, this is the lexicographic order of that text.
   */
  predicate Before(a: Date, b: Date) {
    a.year < b.year
    || (a.year == b.year && a.month < b.month)
    || (a.year == b.year && a.month == b.month && a.day < b.day)
  }

  /** Moving from y-1 to y crosses a multiple of k exactly when k divides y. */
  lemma DivStep(y: int, k: int)
    requires k == 4 || k == 100 || k == 400
    ensures y / k - (y - 1) / k == (if y % k == 0 then 1 else 0)
  {
    var q, r := (y - 1) / k, (y - 1) % k;
    assert y - 1 == k * q + r && 0 <= r < k;
    if r == k - 1 {
      assert y == k * (q + 1);
    } else {
      assert y == k * q + (r + 1);
    }
  }

  lemma YearStep(y: int)
    requires 1 <= y
    ensures DaysBeforeYear(y + 1) == DaysBeforeYear(y) + YearLength(y)
  {
    DivStep(y, 4);
    DivStep(y, 100);
    DivStep(y, 400);
  }

  lemma {:induction false} YearsAdd(y1: int, y2: int)
    requires 1 <= y1 < y2
    ensures DaysBeforeYear(y1) + YearLength(y1) <= DaysBeforeYear(y2)
    decreases y2 - y1
  {
    YearStep(y1);
    if y1 + 1 < y2 {
      YearsAdd(y1 + 1, y2);
      YearStep(y1 + 1);
    }
  }

  lemma {:induction false} MonthsAdd(y: int, m1: int, m2: int)
    requires 1 <= m1 < m2 <= 12
    ensures DaysBeforeMonth(y, m1) + DaysInMonth(y, m1) <= DaysBeforeMonth(y, m2)
    decreases m2 - m1
  {
    if m1 + 1 < m2 {
      MonthsAdd(y, m1 + 1, m2);
    }
  }

  /** The usual table of days before each month, with one more after February in a leap year. */
  lemma {:induction false} DaysBeforeMonthTable(y: int, m: int)
    requires 1 <= m <= 12
    ensures DaysBeforeMonth(y, m)
      == [0, 31, 59, 90, 120, 151, 181, 212, 243, 273, 304, 334][m - 1]
         + (if m > 2 && IsLeapYear(y) then 1 else 0)
  {
    if m > 1 {
      DaysBeforeMonthTable(y, m - 1);
    }
  }

  lemma YearIsTwelveMonths(y: int)
    ensures DaysBeforeMonth(y, 12) + DaysInMonth(y, 12) == YearLength(y)
  {
    DaysBeforeMonthTable(y, 12);
  }

  /** The day of a valid date falls inside its year. */
  lemma {:induction false} DayWithinYear(d: Date)
    requires Valid(d)
    ensures DaysBeforeYear(d.year) <= Days(d) < DaysBeforeYear(d.year) + YearLength(d.year)
  {
    YearIsTwelveMonths(d.year);
    if d.month < 12 {
      MonthsAdd(d.year, d.month, 12);
    }
    assert DaysBeforeMonth(d.year, d.month) >= 0 by {
      MonthsNonNegative(d.year, d.month);
    }
  }

  lemma {:induction false} MonthsNonNegative(y: int, m: int)
    requires 1 <= m <= 12
    ensures DaysBeforeMonth(y, m) >= 0
  {
    if m > 1 {
      MonthsNonNegative(y, m - 1);
    }
  }

  /** A date before another in ISO order has a smaller day number. */
  lemma {:induction false} BeforeMonotone(a: Date, b: Date)
    requires Valid(a) && Valid(b) && Before(a, b)
    ensures Days(a) < Days(b)
  {
    if a.year < b.year {
      DayWithinYear(a);
      DayWithinYear(b);
      YearsAdd(a.year, b.year);
    } else if a.month < b.month {
      MonthsAdd(a.year, a.month, b.month);
    }
  }

  /**
   * On valid dates the ISO text order and the day-number order agree in both
   * directions, and two dates are equal exactly when their day numbers are.
   */
  lemma DaysOrderIsIsoOrder(a: Date, b: Date)
    requires Valid(a) && Valid(b)
    ensures Before(a, b) <==> Days(a) < Days(b)
    ensures a == b <==> Days(a) == Days(b)
  {
    if Before(a, b) {
      BeforeMonotone(a, b);
    } else if Before(b, a) {
      BeforeMonotone(b, a);
    }
  }
}
