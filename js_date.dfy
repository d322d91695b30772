/**
 * The ECMAScript Date operations the capacity engine uses, on a single UTC
 * timeline: an instant is an integer number of milliseconds since
 * 1970-01-01T00:00:00Z, and local time is taken to be UTC.
 * Months are 0-based, as in getMonth/setMonth.
 */
module JsDate {
  import opened Calendar

  const MsPerDay: int := 86400000

  /** Day number of an instant (floor division, also before 1970). */
  function DayNumber(t: int): int {
    t / MsPerDay
  }

  /** Milliseconds since midnight. */
  function TimeInDay(t: int): (r: int)
    ensures 0 <= r < MsPerDay
  {
    t % MsPerDay
  }

  /** The instant at time-of-day tod on day number day. */
  function MakeDate(day: int, tod: int): int {
    day * MsPerDay + tod
  }

  lemma MakeDateParts(day: int, tod: int)
    requires 0 <= tod < MsPerDay
    ensures DayNumber(MakeDate(day, tod)) == day && TimeInDay(MakeDate(day, tod)) == tod
  {
    var t := MakeDate(day, tod);
    var q, r := t / MsPerDay, t % MsPerDay;
    assert t == q * MsPerDay + r;
    assert (day - q) * MsPerDay == r - tod;
  }

  lemma MakeDateOfParts(t: int)
    ensures MakeDate(DayNumber(t), TimeInDay(t)) == t
  {
  }

  lemma MakeDateOrder(d1: int, tod1: int, d2: int, tod2: int)
    requires 0 <= tod1 < MsPerDay && 0 <= tod2 < MsPerDay
    ensures MakeDate(d1, tod1) < MakeDate(d2, tod2) <==> d1 < d2 || (d1 == d2 && tod1 < tod2)
  {
    if d1 < d2 {
      assert (d2 - d1) * MsPerDay >= MsPerDay;
    } else if d2 < d1 {
      assert (d1 - d2) * MsPerDay >= MsPerDay;
    }
  }

  /** Later instants fall on the same or a later day. */
  lemma DayNumberMonotone(t1: int, t2: int)
    requires t1 <= t2
    ensures DayNumber(t1) <= DayNumber(t2)
  {
    MakeDateOfParts(t1);
    MakeDateOfParts(t2);
    if DayNumber(t2) < DayNumber(t1) {
      MakeDateOrder(DayNumber(t2), TimeInDay(t2), DayNumber(t1), TimeInDay(t1));
    }
  }

  /** An instant before midnight of day d falls on an earlier day. */
  lemma BeforeMidnight(t: int, d: int)
    requires t < MakeDate(d, 0)
    ensures DayNumber(t) < d
  {
    MakeDateOfParts(t);
    MakeDateOrder(d, 0, DayNumber(t), TimeInDay(t));
  }

  // Getters (Date.prototype.getDate, getDay, getMonth, getFullYear).

  function GetDate(t: int): int {
    CivilOf(DayNumber(t)).day
  }

  function GetDay(t: int): int {
    Weekday(DayNumber(t))
  }

  function GetMonth(t: int): int {
    CivilOf(DayNumber(t)).month - 1
  }

  function GetFullYear(t: int): int {
    CivilOf(DayNumber(t)).year
  }

  /**
   * MakeDay of ECMAScript: the day number of date dt of 0-based month m0 of
   * year y, where m0 carries into the year and dt overflows linearly.
   */
  function MakeDay(y: int, m0: int, dt: int): int {
    DayOf(Civil(y + m0 / 12, m0 % 12 + 1, 1)) + dt - 1
  }

  lemma MakeDaySameYear(y: int, m0: int, dt: int)
    requires 0 <= m0 < 12
    ensures MakeDay(y, m0, dt) == DayOf(Civil(y, m0 + 1, 1)) + dt - 1
  {
    assert m0 / 12 == 0 && m0 % 12 == m0;
  }

  lemma MakeDayNextYear(y: int, dt: int)
    ensures MakeDay(y, 12, dt) == YearStart(y + 1) + dt - 1
  {
    assert 12 / 12 == 1 && 12 % 12 == 0;
  }

  // Setters; each keeps the time of day.

  function SetDate(t: int, dt: int): int {
    MakeDate(MakeDay(GetFullYear(t), GetMonth(t), dt), TimeInDay(t))
  }

  function SetMonth(t: int, m0: int): int {
    MakeDate(MakeDay(GetFullYear(t), m0, GetDate(t)), TimeInDay(t))
  }

  function SetMonthDate(t: int, m0: int, dt: int): int {
    MakeDate(MakeDay(GetFullYear(t), m0, dt), TimeInDay(t))
  }

  function SetFullYear(t: int, y: int): int {
    MakeDate(MakeDay(y, GetMonth(t), GetDate(t)), TimeInDay(t))
  }

  function SetFullYearMonthDate(t: int, y: int, m0: int, dt: int): int {
    MakeDate(MakeDay(y, m0, dt), TimeInDay(t))
  }

  function SetHours(t: int, h: int, mi: int, s: int, ms: int): int {
    MakeDate(DayNumber(t), ((h * 60 + mi) * 60 + s) * 1000 + ms)
  }

  // Day-level facts about MakeDay.

  lemma JanuaryFirstDay(y: int)
    ensures DayOf(Civil(y, 1, 1)) == YearStart(y)
  {
    assert DaysBeforeMonth(y, 1) == 0;
  }

  lemma JanuaryFirst(y: int)
    ensures DayOf(Civil(y, 1, 1)) == YearStart(y) && CivilOf(YearStart(y)) == Civil(y, 1, 1)
  {
    JanuaryFirstDay(y);
    CivilOfDayOf(Civil(y, 1, 1));
  }

  lemma DecemberLast(y: int)
    ensures CivilOf(YearStart(y + 1) - 1) == Civil(y, 12, 31)
  {
    YearStartStep(y);
    assert DaysBeforeMonth(y, 12) + 31 == DaysInYear(y);
    assert DayOf(Civil(y, 12, 31)) == YearStart(y + 1) - 1;
    CivilOfDayOf(Civil(y, 12, 31));
  }

  /** The day after the last of a month is the first of the next month. */
  lemma NextMonthFirst(y: int, m: int)
    requires 1 <= m <= 12
    ensures DayOf(FirstOfNextMonth(y, m)) == DayOf(Civil(y, m, 1)) + DaysInMonth(y, m)
    ensures MakeDay(y, m, 1) == DayOf(FirstOfNextMonth(y, m))
  {
    YearStartStep(y);
    if m < 12 {
      DaysBeforeMonthStep(y, m);
      MakeDaySameYear(y, m, 1);
    } else {
      MakeDayNextYear(y, 1);
      JanuaryFirstDay(y + 1);
      assert DaysBeforeMonth(y, 12) + 31 == DaysInYear(y);
    }
  }

  lemma MakeDayShift(c: Civil, k: int)
    requires ValidCivil(c)
    ensures MakeDay(c.year, c.month - 1, c.day + k) == DayOf(c) + k
  {
    MakeDaySameYear(c.year, c.month - 1, c.day + k);
  }

  lemma MakeDayFirstOfMonth(c: Civil)
    requires ValidCivil(c)
    ensures MakeDay(c.year, c.month - 1, 1) == DayOf(c) - (c.day - 1)
  {
    MakeDaySameYear(c.year, c.month - 1, 1);
  }

  lemma FirstOfMonth(c: Civil)
    requires ValidCivil(c)
    ensures CivilOf(DayOf(c) - (c.day - 1)) == Civil(c.year, c.month, 1)
  {
    CivilOfDayOf(Civil(c.year, c.month, 1));
  }

  lemma MakeDayNextMonth(c: Civil)
    requires ValidCivil(c) && c.day == 1
    ensures MakeDay(c.year, c.month, 1) == DayOf(c) + DaysInMonth(c.year, c.month)
  {
    NextMonthFirst(c.year, c.month);
  }

  lemma FirstOfNextMonthOf(c: Civil)
    requires ValidCivil(c) && c.day == 1
    ensures CivilOf(DayOf(c) + DaysInMonth(c.year, c.month)) == FirstOfNextMonth(c.year, c.month)
  {
    NextMonthFirst(c.year, c.month);
    CivilOfDayOf(FirstOfNextMonth(c.year, c.month));
  }

  lemma MakeDayLastOfMonth(c: Civil)
    requires ValidCivil(c)
    ensures MakeDay(c.year, c.month, 0) == DayOf(c) - c.day + DaysInMonth(c.year, c.month)
  {
    NextMonthFirst(c.year, c.month);
    if c.month < 12 {
      MakeDaySameYear(c.year, c.month, 0);
    } else {
      MakeDayNextYear(c.year, 0);
    }
  }

  lemma LastOfMonth(c: Civil)
    requires ValidCivil(c)
    ensures CivilOf(DayOf(c) - c.day + DaysInMonth(c.year, c.month))
         == Civil(c.year, c.month, DaysInMonth(c.year, c.month))
  {
    CivilOfDayOf(Civil(c.year, c.month, DaysInMonth(c.year, c.month)));
  }

  lemma MakeDayNextYearFirst(c: Civil)
    requires ValidCivil(c) && c.month == 1 && c.day == 1
    ensures MakeDay(c.year + 1, 0, 1) == DayOf(c) + DaysInYear(c.year)
  {
    YearStartStep(c.year);
    MakeDaySameYear(c.year + 1, 0, 1);
    JanuaryFirstDay(c.year);
    JanuaryFirstDay(c.year + 1);
  }

  lemma MakeDayYearEnd(y: int)
    ensures MakeDay(y + 1, 0, 0) == YearStart(y + 1) - 1
  {
    MakeDaySameYear(y + 1, 0, 0);
    JanuaryFirstDay(y + 1);
  }

  // What the setter calls of the engine compute. Each instant-level fact
  // comes with the calendar date it lands on, as a separate lemma.

  /** setDate(getDate() + k) moves by k whole days. */
  lemma SetDateShift(t: int, k: int)
    ensures SetDate(t, GetDate(t) + k) == MakeDate(DayNumber(t) + k, TimeInDay(t))
  {
    MakeDayShift(CivilOf(DayNumber(t)), k);
  }

  /** setDate(1) moves to the first of the same month ... */
  lemma SetDateFirst(t: int)
    ensures SetDate(t, 1) == MakeDate(DayNumber(t) - (GetDate(t) - 1), TimeInDay(t))
  {
    MakeDayFirstOfMonth(CivilOf(DayNumber(t)));
  }

  /** ... which is day 1 of the month of t. */
  lemma SetDateFirstCivil(t: int)
    ensures CivilOf(DayNumber(t) - (GetDate(t) - 1)) == Civil(GetFullYear(t), GetMonth(t) + 1, 1)
  {
    FirstOfMonth(CivilOf(DayNumber(t)));
  }

  /** On the first of a month, setMonth(getMonth() + 1) moves to the first of the next month. */
  lemma SetMonthNext(t: int)
    requires GetDate(t) == 1
    ensures SetMonth(t, GetMonth(t) + 1)
         == MakeDate(DayNumber(t) + DaysInMonth(GetFullYear(t), GetMonth(t) + 1), TimeInDay(t))
  {
    MakeDayNextMonth(CivilOf(DayNumber(t)));
  }

  /** setMonth(0, 1) moves to 1 January of the same year. */
  lemma SetMonthDateJanuaryFirst(t: int)
    ensures SetMonthDate(t, 0, 1) == MakeDate(YearStart(GetFullYear(t)), TimeInDay(t))
  {
    MakeDaySameYear(GetFullYear(t), 0, 1);
    JanuaryFirstDay(GetFullYear(t));
  }

  /** On 1 January, setFullYear(getFullYear() + 1) moves to 1 January of the next year. */
  lemma SetFullYearNext(t: int)
    requires GetMonth(t) == 0 && GetDate(t) == 1
    ensures SetFullYear(t, GetFullYear(t) + 1)
         == MakeDate(DayNumber(t) + DaysInYear(GetFullYear(t)), TimeInDay(t))
  {
    MakeDayNextYearFirst(CivilOf(DayNumber(t)));
  }

  /** setMonth(getMonth() + 1, 0) moves to the last day of the same month. */
  lemma SetMonthDateLastDay(t: int)
    ensures SetMonthDate(t, GetMonth(t) + 1, 0)
         == MakeDate(DayNumber(t) - GetDate(t) + DaysInMonth(GetFullYear(t), GetMonth(t) + 1), TimeInDay(t))
  {
    MakeDayLastOfMonth(CivilOf(DayNumber(t)));
  }

  /** setFullYear(y + 1, 0, 0) moves to 31 December of year y. */
  lemma SetFullYearLastDay(t: int, y: int)
    ensures SetFullYearMonthDate(t, y + 1, 0, 0) == MakeDate(YearStart(y + 1) - 1, TimeInDay(t))
  {
    MakeDayYearEnd(y);
  }
}
