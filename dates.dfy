/**
 * Gregorian calendar arithmetic on day numbers.
 *
 * A calendar day is represented by its day number: the number of days since
 * 1970-01-01 in the proleptic Gregorian calendar (negative before it). Months
 * are 0-based (0 = January .. 11 = December), as JavaScript's Date reports them.
 */
module Dates {

  /** Weekday index as Date.getDay reports it: 0 = Sunday .. 6 = Saturday. */
  type Weekday = d: int | 0 <= d < 7

  /** 1970-01-01, day number 0, was a Thursday. */
  const EpochWeekday: Weekday := 4

  function WeekdayOf(day: int): Weekday
  {
    (day + EpochWeekday) % 7
  }

  predicate IsLeapYear(y: int)
  {
    y % 4 == 0 && (y % 100 != 0 || y % 400 == 0)
  }

  function YearLength(y: int): int
  {
    if IsLeapYear(y) then 366 else 365
  }

  /** Length of month m (0-based) of year y. */
  function DaysInMonth(y: int, m: int): (n: int)
    requires 0 <= m < 12
    ensures 28 <= n <= 31
    ensures m == 1 ==> (n == 29 <==> IsLeapYear(y))
  {
    if m == 1 then (if IsLeapYear(y) then 29 else 28)
    else if m == 3 || m == 5 || m == 8 || m == 10 then 30
    else 31
  }

  /** Number of days of year y that lie before the first of month m. */
  function DaysBeforeMonth(y: int, m: int): (n: int)
    requires 0 <= m <= 12
    ensures 28 * m <= n <= 31 * m
  {
    if m == 0 then 0 else DaysBeforeMonth(y, m - 1) + DaysInMonth(y, m - 1)
  }

  /** Day number of January 1 of year y (719162 days separate 0001-01-01 from 1970-01-01). */
  function NewYearsDay(y: int): int
  {
    var p := y - 1;
    365 * p + p / 4 - p / 100 + p / 400 - 719162
  }

  predicate IsValidDate(y: int, m: int, d: int)
  {
    0 <= m < 12 && 1 <= d <= DaysInMonth(y, m)
  }

  /** Day number of day d of month m of year y. */
  function DayNumber(y: int, m: int, d: int): int
    requires 0 <= m < 12
  {
    NewYearsDay(y) + DaysBeforeMonth(y, m) + d - 1
  }

  /**
   * The (year, month) that lies k months after (y, m); k may be negative.
   * Its absolute month index 12 * year + month is that of (y, m) plus k.
   */
  function AddMonths(y: int, m: int, k: int): (r: (int, int))
    ensures 0 <= r.1 < 12
    ensures 12 * r.0 + r.1 == 12 * y + m + k
  {
    (y + (m + k) / 12, (m + k) % 12)
  }

  /** Two (year, month) pairs with the same absolute month index are the same. */
  lemma MonthIndexUnique(y1: int, m1: int, y2: int, m2: int)
    requires 0 <= m1 < 12 && 0 <= m2 < 12
    requires 12 * y1 + m1 == 12 * y2 + m2
    ensures y1 == y2 && m1 == m2
  {
  }

  /** Going k months forward and then k months back returns to the same month. */
  lemma AddMonthsInverse(y: int, m: int, k: int)
    requires 0 <= m < 12
    ensures var (y1, m1) := AddMonths(y, m, k); AddMonths(y1, m1, -k) == (y, m)
  {
    var (y1, m1) := AddMonths(y, m, k);
    var (y2, m2) := AddMonths(y1, m1, -k);
    MonthIndexUnique(y2, m2, y, m);
  }

  /** December rolls over to January of the next year, January back to December of the previous one. */
  lemma AddMonthsYearBoundary(y: int)
    ensures AddMonths(y, 11, 1) == (y + 1, 0)
    ensures AddMonths(y, 0, -1) == (y - 1, 11)
  {
    var (a, b) := AddMonths(y, 11, 1);
    MonthIndexUnique(a, b, y + 1, 0);
    var (c, d) := AddMonths(y, 0, -1);
    MonthIndexUnique(c, d, y - 1, 11);
  }

  /** Stepping p to p + 1 raises p / k by one exactly when k divides p + 1 (k = 4, 100, 400). */
  lemma DivSteps(p: int)
    ensures (p + 1) / 4 - p / 4 == if (p + 1) % 4 == 0 then 1 else 0
    ensures (p + 1) / 100 - p / 100 == if (p + 1) % 100 == 0 then 1 else 0
    ensures (p + 1) / 400 - p / 400 == if (p + 1) % 400 == 0 then 1 else 0
  {
  }

  lemma FullYear(y: int)
    ensures DaysBeforeMonth(y, 12) == YearLength(y)
  {
    var feb := DaysInMonth(y, 1);
    assert DaysBeforeMonth(y, 2) == 31 + feb;
    assert DaysBeforeMonth(y, 3) == 62 + feb;
    assert DaysBeforeMonth(y, 4) == 92 + feb;
    assert DaysBeforeMonth(y, 5) == 123 + feb;
    assert DaysBeforeMonth(y, 6) == 153 + feb;
    assert DaysBeforeMonth(y, 7) == 184 + feb;
    assert DaysBeforeMonth(y, 8) == 215 + feb;
    assert DaysBeforeMonth(y, 9) == 245 + feb;
    assert DaysBeforeMonth(y, 10) == 276 + feb;
    assert DaysBeforeMonth(y, 11) == 306 + feb;
  }

  /** January 1 of year y + 1 follows the last day of year y. */
  lemma NewYearsDayStep(y: int)
    ensures NewYearsDay(y + 1) == NewYearsDay(y) + DaysBeforeMonth(y, 12)
  {
    FullYear(y);
    var p := y - 1;
    DivSteps(p);
    assert y % 400 == 0 ==> y % 100 == 0;
    assert y % 100 == 0 ==> y % 4 == 0;
  }

  /** The day after the last day of a month is the first day of the next month. */
  lemma NextMonthFollowsLastDay(y: int, m: int)
    requires 0 <= m < 12
    ensures var (y1, m1) := AddMonths(y, m, 1);
            DayNumber(y1, m1, 1) == DayNumber(y, m, DaysInMonth(y, m)) + 1
  {
    var (y1, m1) := AddMonths(y, m, 1);
    if m == 11 {
      AddMonthsYearBoundary(y);
      NewYearsDayStep(y);
    } else {
      MonthIndexUnique(y1, m1, y, m + 1);
    }
  }

  lemma DaysBeforeMonthMonotone(y: int, m1: int, m2: int)
    requires 0 <= m1 <= m2 <= 12
    ensures DaysBeforeMonth(y, m1) <= DaysBeforeMonth(y, m2)
    decreases m2 - m1
  {
    if m1 < m2 {
      DaysBeforeMonthMonotone(y, m1, m2 - 1);
    }
  }

  /** A valid date of year y falls between January 1 of y and January 1 of y + 1. */
  lemma DayNumberWithinYear(y: int, m: int, d: int)
    requires IsValidDate(y, m, d)
    ensures NewYearsDay(y) <= DayNumber(y, m, d) < NewYearsDay(y + 1)
  {
    DaysBeforeMonthMonotone(y, m + 1, 12);
    NewYearsDayStep(y);
  }

  lemma {:induction false} NewYearsDayIncreasing(y1: int, y2: int)
    requires y1 < y2
    ensures NewYearsDay(y1 + 1) <= NewYearsDay(y2)
    decreases y2 - y1
  {
    if y1 + 1 < y2 {
      NewYearsDayIncreasing(y1 + 1, y2);
      NewYearsDayStep(y1 + 1);
    }
  }

  /** Valid dates with the same day number lie in the same year. */
  lemma SameDayNumberSameYear(y1: int, m1: int, d1: int, y2: int, m2: int, d2: int)
    requires IsValidDate(y1, m1, d1) && IsValidDate(y2, m2, d2)
    requires DayNumber(y1, m1, d1) == DayNumber(y2, m2, d2)
    ensures y1 == y2
  {
    DayNumberWithinYear(y1, m1, d1);
    DayNumberWithinYear(y2, m2, d2);
    if y1 < y2 {
      NewYearsDayIncreasing(y1, y2);
    } else if y2 < y1 {
      NewYearsDayIncreasing(y2, y1);
    }
  }

  /** Distinct valid dates have distinct day numbers. */
  lemma DayNumberInjective(y1: int, m1: int, d1: int, y2: int, m2: int, d2: int)
    requires IsValidDate(y1, m1, d1) && IsValidDate(y2, m2, d2)
    requires DayNumber(y1, m1, d1) == DayNumber(y2, m2, d2)
    ensures y1 == y2 && m1 == m2 && d1 == d2
  {
    SameDayNumberSameYear(y1, m1, d1, y2, m2, d2);
    SameOffsetSameMonth(y1, m1, d1, m2, d2);
  }

  /** Within one year, valid dates the same number of days into the year are the same date. */
  lemma SameOffsetSameMonth(y: int, m1: int, d1: int, m2: int, d2: int)
    requires IsValidDate(y, m1, d1) && IsValidDate(y, m2, d2)
    requires DaysBeforeMonth(y, m1) + d1 == DaysBeforeMonth(y, m2) + d2
    ensures m1 == m2 && d1 == d2
  {
    if m1 < m2 {
      DaysBeforeMonthMonotone(y, m1 + 1, m2);
    } else if m2 < m1 {
      DaysBeforeMonthMonotone(y, m2 + 1, m1);
    }
  }

  /** Anchors the day numbering: 2024-01-01 was a Monday. */
  lemma KnownMonday()
    ensures DayNumber(2024, 0, 1) == 19723
    ensures WeekdayOf(DayNumber(2024, 0, 1)) == 1
  {
  }
}
