/** Time as the service sees it: a `DateTime` reduced to whole minutes since
    0001-01-01 00:00 (the first instant a .NET `DateTime` can hold), with an
    exact proleptic Gregorian calendar for the `.Year` and `.Month` the
    monthly report needs. */
module Calendar {

  /** Minutes in one day. */
  const MinutesPerDay: int := 1440

  /** Days from 0001-01-01 through 9999-12-31, the range of a `DateTime`
      (see `LastDayIsDecember31Of9999`). */
  const DaysInRange: int := 3652059

  /** Minutes in that range. */
  const MinutesInRange: int := 5258964960

  /** A calendar day, counted from 0001-01-01 (day 0). */
  type Day = d: int | 0 <= d < DaysInRange

  /** A `DateTime`, to the minute. */
  type Instant = t: int | 0 <= t < MinutesInRange

  /** `dt.Date`: the day an instant falls on. */
  function DayOf(t: Instant): (d: Day)
    ensures d * MinutesPerDay <= t < d * MinutesPerDay + MinutesPerDay
  {
    t / MinutesPerDay
  }

  /** `dt.Hour * 60 + dt.Minute`: minutes since that day's midnight. */
  function MinuteOfDay(t: Instant): (m: int)
    ensures 0 <= m < MinutesPerDay
    ensures DayOf(t) * MinutesPerDay + m == t
  {
    t % MinutesPerDay
  }

  // ---------------------------------------------------------------------
  // Gregorian calendar
  // ---------------------------------------------------------------------

  predicate IsLeapYear(y: int) {
    y % 4 == 0 && (y % 100 != 0 || y % 400 == 0)
  }

  function DaysInYear(y: int): int {
    if IsLeapYear(y) then 366 else 365
  }

  function DaysInMonth(y: int, m: int): int
    requires 1 <= m <= 12
  {
    if m == 2 then (if IsLeapYear(y) then 29 else 28)
    else if m == 4 || m == 6 || m == 9 || m == 11 then 30
    else 31
  }

  /** Days in year `y` before the first of month `m`; month 13 stands for
      the first day of the next year. */
  function DaysBeforeMonth(y: int, m: int): int
    requires 1 <= m <= 13
  {
    var common := [0, 31, 59, 90, 120, 151, 181, 212, 243, 273, 304, 334, 365][m - 1];
    if m > 2 && IsLeapYear(y) then common + 1 else common
  }

  lemma DaysBeforeNextMonth(y: int, m: int)
    requires 1 <= m <= 12
    ensures DaysBeforeMonth(y, m + 1) == DaysBeforeMonth(y, m) + DaysInMonth(y, m)
    ensures DaysBeforeMonth(y, 13) == DaysInYear(y)
  {
  }

  lemma DaysBeforeMonthMonotone(y: int, m1: int, m2: int)
    requires 1 <= m1 <= m2 <= 13
    ensures DaysBeforeMonth(y, m1) <= DaysBeforeMonth(y, m2)
  {
  }

  /** Days from 0001-01-01 to the first of January of year `y`. */
  function DaysBeforeYear(y: int): (d: int)
    requires 1 <= y
    ensures 0 <= d
  {
    var n := y - 1;
    365 * n + n / 4 - n / 100 + n / 400
  }

  /** Leap-day counting: each step of a year crosses a multiple of 4, 100
      or 400 exactly when the new year is one. */
  lemma MultiplesUpTo(y: int)
    ensures y / 4 - (y - 1) / 4 == (if y % 4 == 0 then 1 else 0)
    ensures y / 100 - (y - 1) / 100 == (if y % 100 == 0 then 1 else 0)
    ensures y / 400 - (y - 1) / 400 == (if y % 400 == 0 then 1 else 0)
  {
    assert y / 4 - (y - 1) / 4 == (if y % 4 == 0 then 1 else 0);
    assert y / 100 - (y - 1) / 100 == (if y % 100 == 0 then 1 else 0);
  }

  /** A year's length counts one leap day for a multiple of 4, minus one for
      a multiple of 100, plus one for a multiple of 400. */
  lemma DaysInYearByMultiples(y: int)
    ensures DaysInYear(y) == 365 + (if y % 4 == 0 then 1 else 0)
                                 - (if y % 100 == 0 then 1 else 0)
                                 + (if y % 400 == 0 then 1 else 0)
  {
    if y % 400 == 0 {
      var q := y / 400;
      assert y == 100 * (4 * q) && y == 4 * (100 * q);
    } else if y % 100 == 0 {
      var q := y / 100;
      assert y == 4 * (25 * q);
    }
  }

  /** One more year adds exactly that year's length. */
  lemma DaysBeforeNextYear(y: int)
    requires 1 <= y
    ensures DaysBeforeYear(y + 1) == DaysBeforeYear(y) + DaysInYear(y)
  {
    MultiplesUpTo(y);
    DaysInYearByMultiples(y);
    var n := y - 1;
    assert DaysBeforeYear(y + 1) == 365 * y + y / 4 - y / 100 + y / 400;
    assert DaysBeforeYear(y) == 365 * n + n / 4 - n / 100 + n / 400;
  }

  /** Every day of year `y1` comes before the first day of a later year. */
  lemma {:induction false} DaysBeforeYearMonotone(y1: int, y2: int)
    requires 1 <= y1 < y2
    ensures DaysBeforeYear(y1) + DaysInYear(y1) <= DaysBeforeYear(y2)
    decreases y2 - y1
  {
    DaysBeforeNextYear(y1);
    if y1 + 1 < y2 {
      DaysBeforeYearMonotone(y1 + 1, y2);
    }
  }

  /** A calendar date: year, month 1..12, day of month from 1. */
  datatype CivilDate = CivilDate(year: int, month: int, day: int)

  predicate ValidDate(c: CivilDate) {
    1 <= c.year && 1 <= c.month <= 12 && 1 <= c.day <= DaysInMonth(c.year, c.month)
  }

  /** Strict calendar order on dates. */
  predicate DateBefore(a: CivilDate, b: CivilDate) {
    a.year < b.year
    || (a.year == b.year && a.month < b.month)
    || (a.year == b.year && a.month == b.month && a.day < b.day)
  }

  /** The day number of a date. */
  function DaysFromCivil(c: CivilDate): (d: int)
    requires ValidDate(c)
    ensures DaysBeforeYear(c.year) <= d < DaysBeforeYear(c.year) + DaysInYear(c.year)
  {
    DaysBeforeNextMonth(c.year, c.month);
    DaysBeforeMonthMonotone(c.year, c.month + 1, 13);
    DaysBeforeYear(c.year) + DaysBeforeMonth(c.year, c.month) + c.day - 1
  }

  /** Walks the months of year `y` from month `m`, `r` days past the first of `m`. */
  function MonthFrom(y: int, m: int, r: nat): (c: CivilDate)
    requires 1 <= y && 1 <= m <= 12
    requires DaysBeforeMonth(y, m) + r < DaysInYear(y)
    ensures ValidDate(c) && c.year == y && m <= c.month
    ensures DaysFromCivil(c) == DaysBeforeYear(y) + DaysBeforeMonth(y, m) + r
    decreases 12 - m
  {
    DaysBeforeNextMonth(y, m);
    if r < DaysInMonth(y, m) then CivilDate(y, m, r + 1)
    else
      if m == 12 then assert false; CivilDate(y, m, 1)
      else MonthFrom(y, m + 1, r - DaysInMonth(y, m))
  }

  /** Walks the years from `y`, `r` days past the first of January of `y`. */
  function YearFrom(y: int, r: nat): (c: CivilDate)
    requires 1 <= y
    ensures ValidDate(c) && y <= c.year
    ensures DaysFromCivil(c) == DaysBeforeYear(y) + r
    decreases r
  {
    DaysBeforeNextMonth(y, 12);
    if r < DaysInYear(y) then MonthFrom(y, 1, r)
    else
      DaysBeforeNextYear(y);
      YearFrom(y + 1, r - DaysInYear(y))
  }

  /** The date of day number `d`: the inverse of `DaysFromCivil`. */
  function CivilFromDays(d: int): (c: CivilDate)
    requires 0 <= d
    ensures ValidDate(c) && DaysFromCivil(c) == d
  {
    YearFrom(1, d)
  }

  /** Later dates have larger day numbers. */
  lemma DaysFromCivilIncreasing(a: CivilDate, b: CivilDate)
    requires ValidDate(a) && ValidDate(b) && DateBefore(a, b)
    ensures DaysFromCivil(a) < DaysFromCivil(b)
  {
    if a.year < b.year {
      DaysBeforeYearMonotone(a.year, b.year);
    } else if a.month < b.month {
      DaysBeforeNextMonth(a.year, a.month);
      DaysBeforeMonthMonotone(a.year, a.month + 1, b.month);
    }
  }

  /** Turning a date into its day number and back gives the same date. */
  lemma CivilFromDaysOfDaysFromCivil(c: CivilDate)
    requires ValidDate(c)
    ensures CivilFromDays(DaysFromCivil(c)) == c
  {
    var c' := CivilFromDays(DaysFromCivil(c));
    if DateBefore(c, c') {
      DaysFromCivilIncreasing(c, c');
    } else if DateBefore(c', c) {
      DaysFromCivilIncreasing(c', c);
    }
  }

  /** The last day a `DateTime` can hold is day `DaysInRange - 1`. */
  lemma LastDayIsDecember31Of9999()
    ensures CivilFromDays(DaysInRange - 1) == CivilDate(9999, 12, 31)
    ensures MinutesInRange == DaysInRange * MinutesPerDay
  {
    var last := CivilDate(9999, 12, 31);
    assert DaysFromCivil(last) == DaysInRange - 1;
    CivilFromDaysOfDaysFromCivil(last);
  }

  // ---------------------------------------------------------------------
  // Months
  // ---------------------------------------------------------------------

  /** A `(Year, Month)` pair as the monthly report walks them. */
  datatype YearMonth = YearMonth(year: int, month: int)

  /** Months counted from the start of year 0: consecutive months have
      consecutive indices. */
  function MonthIndex(ym: YearMonth): int {
    ym.year * 12 + ym.month - 1
  }

  /** The month with a given index. */
  function YearMonthAt(n: int): (ym: YearMonth)
    ensures 1 <= ym.month <= 12
    ensures MonthIndex(ym) == n
  {
    YearMonth(n / 12, n % 12 + 1)
  }

  lemma YearMonthAtIndex(ym: YearMonth)
    requires 1 <= ym.month <= 12
    ensures YearMonthAt(MonthIndex(ym)) == ym
  {
  }

  /** `(d.Year, d.Month)` for the date of day `d`. The month is the one
      whose days contain `d`. */
  function YearMonthOfDay(d: Day): (ym: YearMonth)
    ensures 1 <= ym.year && 1 <= ym.month <= 12
    ensures var first := DaysFromCivil(CivilDate(ym.year, ym.month, 1));
            first <= d < first + DaysInMonth(ym.year, ym.month)
  {
    var c := CivilFromDays(d);
    YearMonth(c.year, c.month)
  }

  /** `(t.Year, t.Month)` for an instant. */
  function YearMonthOf(t: Instant): YearMonth {
    YearMonthOfDay(DayOf(t))
  }

  /** A later day never falls in an earlier month. */
  lemma YearMonthOfDayMonotone(d1: Day, d2: Day)
    requires d1 <= d2
    ensures MonthIndex(YearMonthOfDay(d1)) <= MonthIndex(YearMonthOfDay(d2))
  {
    var c1, c2 := CivilFromDays(d1), CivilFromDays(d2);
    if DateBefore(c2, c1) {
      DaysFromCivilIncreasing(c2, c1);
    }
  }

  /** A later instant never falls in an earlier month. */
  lemma YearMonthOfMonotone(t1: Instant, t2: Instant)
    requires t1 <= t2
    ensures MonthIndex(YearMonthOf(t1)) <= MonthIndex(YearMonthOf(t2))
  {
    YearMonthOfDayMonotone(DayOf(t1), DayOf(t2));
  }
}
