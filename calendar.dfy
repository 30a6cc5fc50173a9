/**
 * Proleptic Gregorian calendar dates, as Python's `datetime.date` holds them:
 * validity, the day ordinal behind date subtraction, and the next day.
 */
module Calendar {

  datatype Date = Date(year: int, month: int, day: int)

  const MIN_YEAR := 1
  const MAX_YEAR := 9999

  /** The last date `datetime.date` can represent. */
  const LAST_DATE := Date(MAX_YEAR, 12, 31)

  /** Divisible by 4, except centuries not divisible by 400. */
  predicate IsLeapYear(y: int) {
    y % 4 == 0 && (y % 100 != 0 || y % 400 == 0)
  }

  function YearLength(y: int): int {
    if IsLeapYear(y) then 366 else 365
  }

  function DaysInMonth(y: int, m: int): (n: int)
    requires 1 <= m <= 12
    ensures 28 <= n <= 31
    ensures n == 29 <==> m == 2 && IsLeapYear(y)
  {
    if m == 2 then (if IsLeapYear(y) then 29 else 28)
    else if m == 4 || m == 6 || m == 9 || m == 11 then 30
    else 31
  }

  /** The dates the `date` constructor accepts; any other raises ValueError. */
  predicate ValidDate(dt: Date) {
    MIN_YEAR <= dt.year <= MAX_YEAR && 1 <= dt.month <= 12 && 1 <= dt.day <= DaysInMonth(dt.year, dt.month)
  }

  /** Chronological order of dates: by year, then month, then day. */
  predicate Before(a: Date, b: Date) {
    a.year < b.year || (a.year == b.year && (a.month < b.month || (a.month == b.month && a.day < b.day)))
  }

  /** Days in the years before year `y`, by the closed formula of `_days_before_year`. */
  function DaysBeforeYear(y: int): int
    requires 1 <= y
  {
    var p := y - 1;
    p * 365 + p / 4 - p / 100 + p / 400
  }

  /** Days in the months of year `y` before month `m`, from a table plus the leap day. */
  function DaysBeforeMonth(y: int, m: int): int
    requires 1 <= m <= 12
  {
    [0, 31, 59, 90, 120, 151, 181, 212, 243, 273, 304, 334][m - 1] + (if m > 2 && IsLeapYear(y) then 1 else 0)
  }

  /** The ordinal of a date, 1 for 0001-01-01 (`date.toordinal`). */
  function DayNumber(dt: Date): int
    requires ValidDate(dt)
  {
    DaysBeforeYear(dt.year) + DaysBeforeMonth(dt.year, dt.month) + dt.day
  }

  /** Whole days from `reference` to `today` (`(today - reference).days`). */
  function DaysDiff(today: Date, reference: Date): int
    requires ValidDate(today) && ValidDate(reference)
  {
    DayNumber(today) - DayNumber(reference)
  }

  /** The calendar day after `t`; after the last date it leaves the valid range. */
  function NextDay(t: Date): (r: Date)
    requires ValidDate(t)
    ensures Before(t, r)
    ensures t != LAST_DATE <==> ValidDate(r)
  {
    if t.day < DaysInMonth(t.year, t.month) then Date(t.year, t.month, t.day + 1)
    else if t.month < 12 then Date(t.year, t.month + 1, 1)
    else Date(t.year + 1, 1, 1)
  }

  // Reference definitions: the days before a date counted one year and one month at a time.

  function YearsTotal(y: int): int
    requires 1 <= y
    decreases y
  {
    if y == 1 then 0 else YearsTotal(y - 1) + YearLength(y - 1)
  }

  function MonthsTotal(y: int, m: int): int
    requires 1 <= m <= 12
  {
    if m == 1 then 0 else MonthsTotal(y, m - 1) + DaysInMonth(y, m - 1)
  }

  // Lemmas

  /** The closed formula grows by the length of each year. */
  lemma YearStep(y: int)
    requires 1 <= y
    ensures DaysBeforeYear(y + 1) == DaysBeforeYear(y) + YearLength(y)
  {
    DivStep(y, 4);
    DivStep(y, 100);
    DivStep(y, 400);
    assert y % 400 == 0 ==> y % 100 == 0;
    assert y % 100 == 0 ==> y % 4 == 0;
  }

  /** Going from `y - 1` to `y`, the quotient by `k` grows by one exactly at multiples of `k`. */
  lemma DivStep(y: int, k: int)
    requires k == 4 || k == 100 || k == 400
    ensures y / k - (y - 1) / k == (if y % k == 0 then 1 else 0)
  {
  }

  lemma MonthStep(y: int, m: int)
    requires 1 <= m < 12
    ensures DaysBeforeMonth(y, m + 1) == DaysBeforeMonth(y, m) + DaysInMonth(y, m)
  {
  }

  lemma {:induction false} DaysBeforeYearCounts(y: int)
    requires 1 <= y
    ensures DaysBeforeYear(y) == YearsTotal(y)
    decreases y
  {
    if y > 1 {
      DaysBeforeYearCounts(y - 1);
      YearStep(y - 1);
    }
  }

  lemma {:induction false} DaysBeforeMonthCounts(y: int, m: int)
    requires 1 <= m <= 12
    ensures DaysBeforeMonth(y, m) == MonthsTotal(y, m)
  {
    if m > 1 {
      DaysBeforeMonthCounts(y, m - 1);
      MonthStep(y, m - 1);
    }
  }

  /** The ordinal formula counts every day that precedes the date, plus one. */
  lemma DayNumberCounts(dt: Date)
    requires ValidDate(dt)
    ensures DayNumber(dt) == YearsTotal(dt.year) + MonthsTotal(dt.year, dt.month) + dt.day
  {
    DaysBeforeYearCounts(dt.year);
    DaysBeforeMonthCounts(dt.year, dt.month);
  }

  lemma {:induction false} YearsIncreasing(y1: int, y2: int)
    requires 1 <= y1 < y2
    ensures DaysBeforeYear(y1) + YearLength(y1) <= DaysBeforeYear(y2)
    decreases y2
  {
    YearStep(y2 - 1);
    if y1 < y2 - 1 {
      YearsIncreasing(y1, y2 - 1);
    }
  }

  lemma {:induction false} MonthsIncreasing(y: int, m1: int, m2: int)
    requires 1 <= m1 < m2 <= 12
    ensures DaysBeforeMonth(y, m1) + DaysInMonth(y, m1) <= DaysBeforeMonth(y, m2)
    decreases m2
  {
    MonthStep(y, m2 - 1);
    if m1 < m2 - 1 {
      MonthsIncreasing(y, m1, m2 - 1);
    }
  }

  lemma YearEnd(y: int)
    ensures DaysBeforeMonth(y, 12) + DaysInMonth(y, 12) == YearLength(y)
  {
  }

  /** Later dates have larger ordinals. */
  lemma DayNumberIncreasing(a: Date, b: Date)
    requires ValidDate(a) && ValidDate(b) && Before(a, b)
    ensures DayNumber(a) < DayNumber(b)
  {
    if a.year < b.year {
      if a.month < 12 {
        MonthsIncreasing(a.year, a.month, 12);
      }
      YearEnd(a.year);
      YearsIncreasing(a.year, b.year);
    } else if a.month < b.month {
      MonthsIncreasing(a.year, a.month, b.month);
    }
  }

  /** The ordinals run from 1 (0001-01-01) to 3652059 (9999-12-31). */
  lemma DayNumberRange(dt: Date)
    requires ValidDate(dt)
    ensures 1 <= DayNumber(dt) <= 3652059
  {
    if dt != LAST_DATE {
      DayNumberIncreasing(dt, LAST_DATE);
    }
  }

  /** The next day's ordinal is one more. */
  lemma NextDayNumber(t: Date)
    requires ValidDate(t) && t != LAST_DATE
    ensures DayNumber(NextDay(t)) == DayNumber(t) + 1
  {
    if t.day == DaysInMonth(t.year, t.month) {
      if t.month < 12 {
        MonthStep(t.year, t.month);
      } else {
        YearEnd(t.year);
        YearStep(t.year);
      }
    }
  }

  /**
   * The sign of the day difference says how the dates are ordered: zero
   * exactly when they are equal, negative exactly when the reference is
   * after today, positive exactly when it is before; swapping the dates
   * negates it.
   */
  lemma DaysDiffSign(today: Date, reference: Date)
    requires ValidDate(today) && ValidDate(reference)
    ensures DaysDiff(today, reference) == 0 <==> today == reference
    ensures DaysDiff(today, reference) < 0 <==> Before(today, reference)
    ensures DaysDiff(today, reference) > 0 <==> Before(reference, today)
    ensures DaysDiff(today, reference) == -DaysDiff(reference, today)
  {
    if Before(today, reference) {
      DayNumberIncreasing(today, reference);
    } else if Before(reference, today) {
      DayNumberIncreasing(reference, today);
    }
  }

  /** Advancing today by one calendar day adds exactly one to the difference. */
  lemma DaysDiffNextDay(today: Date, reference: Date)
    requires ValidDate(today) && ValidDate(reference) && today != LAST_DATE
    ensures DaysDiff(NextDay(today), reference) == DaysDiff(today, reference) + 1
  {
    NextDayNumber(today);
  }
}
