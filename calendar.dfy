/**
 * The proleptic Gregorian calendar on day numbers: day 0 is 1970-01-01,
 * negative numbers are earlier days. Years are astronomical (year 0 exists),
 * as in ECMAScript's Date.
 */
module Calendar {

  /** A calendar date: month 1..12, day of month 1..31. */
  datatype Civil = Civil(year: int, month: int, day: int)

  predicate IsLeapYear(y: int) {
    y % 4 == 0 && (y % 100 != 0 || y % 400 == 0)
  }

  function DaysInYear(y: int): int {
    if IsLeapYear(y) then 366 else 365
  }

  function DaysInMonth(y: int, m: int): int
    requires 1 <= m <= 12
  {
    if m == 2 then (if IsLeapYear(y) then 29 else 28)
    else if m == 4 || m == 6 || m == 9 || m == 11 then 30
    else 31
  }

  /** Number of days of year y that come before the first of month m. */
  function DaysBeforeMonth(y: int, m: int): (r: int)
    requires 1 <= m <= 12
    ensures 0 <= r && r + DaysInMonth(y, m) <= DaysInYear(y)
    ensures m == 12 ==> r + DaysInMonth(y, m) == DaysInYear(y)
  {
    var common :=
      if m == 1 then 0 else if m == 2 then 31 else if m == 3 then 59
      else if m == 4 then 90 else if m == 5 then 120 else if m == 6 then 151
      else if m == 7 then 181 else if m == 8 then 212 else if m == 9 then 243
      else if m == 10 then 273 else if m == 11 then 304 else 334;
    if m > 2 && IsLeapYear(y) then common + 1 else common
  }

  lemma DaysBeforeMonthStep(y: int, m: int)
    requires 1 <= m < 12
    ensures DaysBeforeMonth(y, m + 1) == DaysBeforeMonth(y, m) + DaysInMonth(y, m)
  {
  }

  /** Day number of 1 January of year y. */
  function YearStart(y: int): int
    decreases if y < 1970 then 1970 - y else y - 1970
  {
    if y == 1970 then 0
    else if y > 1970 then YearStart(y - 1) + DaysInYear(y - 1)
    else YearStart(y + 1) - DaysInYear(y)
  }

  lemma YearStartStep(y: int)
    ensures YearStart(y + 1) == YearStart(y) + DaysInYear(y)
  {
  }

  lemma {:induction false} YearStartMonotone(a: int, b: int)
    requires a < b
    ensures YearStart(a + 1) <= YearStart(b)
    decreases b - a
  {
    if a + 1 < b {
      YearStartMonotone(a + 1, b);
      YearStartStep(a + 1);
    }
  }

  predicate ValidCivil(c: Civil) {
    1 <= c.month <= 12 && 1 <= c.day <= DaysInMonth(c.year, c.month)
  }

  /** Day number of a calendar date (the day of month may overflow linearly). */
  function DayOf(c: Civil): int
    requires 1 <= c.month <= 12
  {
    YearStart(c.year) + DaysBeforeMonth(c.year, c.month) + c.day - 1
  }

  /** Every valid date of year y lies within that year. */
  lemma YearBounds(c: Civil)
    requires ValidCivil(c)
    ensures YearStart(c.year) <= DayOf(c) < YearStart(c.year + 1)
  {
    YearStartStep(c.year);
  }

  /**
   * The calendar date of day d of year y, searching the months from m on;
   * d lies in year y, at or after the first of month m.
   */
  function DateInYear(y: int, d: int, m: int): (c: Civil)
    requires 1 <= m <= 12 && YearStart(y) + DaysBeforeMonth(y, m) <= d < YearStart(y + 1)
    ensures ValidCivil(c) && DayOf(c) == d && c.year == y && m <= c.month
    decreases d - YearStart(y) - DaysBeforeMonth(y, m)
  {
    YearStartStep(y);
    if m == 12 then Civil(y, 12, d - YearStart(y) - DaysBeforeMonth(y, 12) + 1)
    else
      DaysBeforeMonthStep(y, m);
      if d < YearStart(y) + DaysBeforeMonth(y, m + 1)
      then Civil(y, m, d - YearStart(y) - DaysBeforeMonth(y, m) + 1)
      else DateInYear(y, d, m + 1)
  }

  lemma {:induction false} DateInYearOf(c: Civil, m: int)
    requires ValidCivil(c) && 1 <= m <= c.month
    ensures YearStart(c.year) + DaysBeforeMonth(c.year, m) <= DayOf(c) < YearStart(c.year + 1)
    ensures DateInYear(c.year, DayOf(c), m) == c
    decreases c.month - m
  {
    YearBounds(c);
    if m < c.month {
      DaysBeforeMonthMonotone(c.year, m, c.month);
      DaysBeforeMonthStep(c.year, m);
      DateInYearOf(c, m + 1);
    }
  }

  /** The calendar date of day d, searching the years from y towards d. */
  function CivilFrom(y: int, d: int): (c: Civil)
    ensures ValidCivil(c) && DayOf(c) == d
    decreases if d < YearStart(y) then 1 else 0, if d < YearStart(y) then YearStart(y) - d else d - YearStart(y)
  {
    YearStartStep(y);
    YearStartStep(y - 1);
    if d < YearStart(y) then CivilFrom(y - 1, d)
    else if d < YearStart(y + 1) then DateInYear(y, d, 1)
    else CivilFrom(y + 1, d)
  }

  /** The calendar date of day number d. */
  function CivilOf(d: int): (c: Civil)
    ensures ValidCivil(c) && DayOf(c) == d
  {
    CivilFrom(1970, d)
  }

  lemma {:induction false} CivilFromDayOf(y: int, c: Civil)
    requires ValidCivil(c)
    ensures CivilFrom(y, DayOf(c)) == c
    decreases if c.year < y then y - c.year else c.year - y
  {
    DateInYearOf(c, 1);
    YearStartStep(y);
    YearStartStep(y - 1);
    if c.year < y {
      YearStartMonotone(c.year, y);
      CivilFromDayOf(y - 1, c);
    } else if y < c.year {
      YearStartMonotone(y, c.year);
      CivilFromDayOf(y + 1, c);
    }
  }

  /** DayOf and CivilOf are inverse on valid dates. */
  lemma CivilOfDayOf(c: Civil)
    requires ValidCivil(c)
    ensures CivilOf(DayOf(c)) == c
  {
    CivilFromDayOf(1970, c);
  }

  /** The year of the date of day d is the year whose span contains d. */
  lemma YearOfDay(y: int, d: int)
    requires YearStart(y) <= d < YearStart(y + 1)
    ensures CivilOf(d).year == y
  {
    var c := CivilOf(d);
    YearBounds(c);
    if c.year < y {
      YearStartMonotone(c.year, y);
    } else if y < c.year {
      YearStartMonotone(y, c.year);
    }
  }

  lemma {:induction false} DaysBeforeMonthMonotone(y: int, a: int, b: int)
    requires 1 <= a < b <= 12
    ensures DaysBeforeMonth(y, a) + DaysInMonth(y, a) <= DaysBeforeMonth(y, b)
    decreases b - a
  {
    DaysBeforeMonthStep(y, a);
    if a + 1 < b {
      DaysBeforeMonthMonotone(y, a + 1, b);
    }
  }

  /** The first day of the month after month m of year y. */
  function FirstOfNextMonth(y: int, m: int): Civil
    requires 1 <= m <= 12
  {
    if m == 12 then Civil(y + 1, 1, 1) else Civil(y, m + 1, 1)
  }

  /** Day of the week of day number d, 0 = Sunday .. 6 = Saturday (1970-01-01 was a Thursday). */
  function Weekday(d: int): (w: int)
    ensures 0 <= w < 7
  {
    (d + 4) % 7
  }
}
