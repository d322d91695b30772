/**
 * Time buckets of the capacity engine: how a cursor instant is aligned to
 * the first day of its Day/Week/Month/Year bucket, how far one walk step
 * advances it, and where a bucket's period ends.
 *
 * Day numbers and instants are those of module JsDate (UTC, milliseconds).
 */
module Buckets {
  import opened Calendar
  import opened JsDate

  /** The granularities the engine's switch statements handle. */
  datatype ViewMode = Day | Week | Month | Year

  /** First day of the bucket the engine assigns day d to. */
  function AlignDay(g: ViewMode, d: int): int {
    match g
    case Day => d
    case Week => d - Weekday(d) + 1
    case Month => d - (CivilOf(d).day - 1)
    case Year => YearStart(CivilOf(d).year)
  }

  /** Day b can start a bucket: any day, a Monday, a first of month, a 1 January. */
  predicate Aligned(g: ViewMode, b: int) {
    match g
    case Day => true
    case Week => Weekday(b) == 1
    case Month => CivilOf(b).day == 1
    case Year => CivilOf(b).month == 1 && CivilOf(b).day == 1
  }

  /** Number of days of the bucket that starts on day b. */
  function Length(g: ViewMode, b: int): (n: int)
    ensures n >= 1
  {
    match g
    case Day => 1
    case Week => 7
    case Month => DaysInMonth(CivilOf(b).year, CivilOf(b).month)
    case Year => DaysInYear(CivilOf(b).year)
  }

  /**
   * How many days before its first day the days assigned to a bucket begin:
   * a Sunday is assigned to the week that starts on the following Monday.
   */
  function Lead(g: ViewMode): int {
    if g == Week then 1 else 0
  }

  // Per-granularity facts about alignment.

  lemma WeekAlign(d: int)
    ensures Aligned(Week, AlignDay(Week, d))
    ensures AlignDay(Week, d) - 1 <= d < AlignDay(Week, d) + 6
  {
  }

  lemma MonthAlign(d: int)
    ensures Aligned(Month, AlignDay(Month, d))
    ensures AlignDay(Month, d) <= d < AlignDay(Month, d) + Length(Month, AlignDay(Month, d))
  {
    var c := CivilOf(d);
    FirstOfMonth(c);
  }

  lemma YearAlign(d: int)
    ensures Aligned(Year, AlignDay(Year, d))
    ensures AlignDay(Year, d) <= d < AlignDay(Year, d) + Length(Year, AlignDay(Year, d))
  {
    var c := CivilOf(d);
    YearBounds(c);
    JanuaryFirst(c.year);
    YearStartStep(c.year);
  }

  /** Every day is assigned to an aligned bucket whose span contains it. */
  lemma AlignWindow(g: ViewMode, d: int)
    ensures Aligned(g, AlignDay(g, d))
    ensures AlignDay(g, d) - Lead(g) <= d < AlignDay(g, d) + Length(g, AlignDay(g, d)) - Lead(g)
  {
    match g
    case Day =>
    case Week => WeekAlign(d);
    case Month => MonthAlign(d);
    case Year => YearAlign(d);
  }

  /** An aligned day is its own bucket start. */
  lemma AlignOfAligned(g: ViewMode, b: int)
    requires Aligned(g, b)
    ensures AlignDay(g, b) == b
  {
    if g == Year {
      JanuaryFirstDay(CivilOf(b).year);
    }
  }

  lemma MonthNextAligned(b: int)
    requires Aligned(Month, b)
    ensures Aligned(Month, b + Length(Month, b))
  {
    var c := CivilOf(b);
    FirstOfNextMonthOf(c);
  }

  lemma YearNextAligned(b: int)
    requires Aligned(Year, b)
    ensures Aligned(Year, b + Length(Year, b))
  {
    var y := CivilOf(b).year;
    JanuaryFirstDay(y);
    assert b == YearStart(y);
    YearStartStep(y);
    JanuaryFirst(y + 1);
    assert b + Length(Year, b) == YearStart(y + 1);
  }

  /** The day after a bucket is the start of the next bucket. */
  lemma NextAligned(g: ViewMode, b: int)
    requires Aligned(g, b)
    ensures Aligned(g, b + Length(g, b))
  {
    match g
    case Day =>
    case Week =>
    case Month => MonthNextAligned(b);
    case Year => YearNextAligned(b);
  }

  lemma MonthNoneBetween(b: int, x: int)
    requires Aligned(Month, b) && b < x < b + Length(Month, b)
    ensures !Aligned(Month, x)
  {
    var c := CivilOf(b);
    var e := Civil(c.year, c.month, 1 + (x - b));
    assert ValidCivil(e) && DayOf(e) == x;
    CivilOfDayOf(e);
  }

  lemma YearNoneBetween(b: int, x: int)
    requires Aligned(Year, b) && b < x < b + Length(Year, b)
    ensures !Aligned(Year, x)
  {
    var y := CivilOf(b).year;
    JanuaryFirstDay(y);
    YearStartStep(y);
    YearOfDay(y, x);
  }

  /** No bucket starts strictly inside another bucket. */
  lemma NoneBetween(g: ViewMode, b: int, x: int)
    requires Aligned(g, b) && b < x < b + Length(g, b)
    ensures !Aligned(g, x)
  {
    match g
    case Week =>
    case Month => MonthNoneBetween(b, x);
    case Year => YearNoneBetween(b, x);
  }

  /** Aligned days are ordered like the buckets they start. */
  lemma AlignedGap(g: ViewMode, a: int, b: int)
    requires Aligned(g, a) && Aligned(g, b) && a < b
    ensures a + Length(g, a) <= b
  {
    if b < a + Length(g, a) {
      NoneBetween(g, a, b);
    }
  }

  /** Later days are never assigned to earlier buckets. */
  lemma AlignMonotone(g: ViewMode, d1: int, d2: int)
    requires d1 <= d2
    ensures AlignDay(g, d1) <= AlignDay(g, d2)
  {
    AlignWindow(g, d1);
    AlignWindow(g, d2);
    if AlignDay(g, d2) < AlignDay(g, d1) {
      AlignedGap(g, AlignDay(g, d2), AlignDay(g, d1));
    }
  }

  // The walk over buckets, on instants.

  /** The bucket key the engine computes for a cursor: the day number of the aligned cursor. */
  function KeyOf(g: ViewMode, c: int): int {
    AlignDay(g, DayNumber(c))
  }

  /** The cursor after one step of the engine's walk: the next bucket start, same time of day. */
  function NextCursor(g: ViewMode, c: int): int {
    MakeDate(KeyOf(g, c) + Length(g, KeyOf(g, c)), TimeInDay(c))
  }

  /** Each step moves the cursor strictly forward, to an aligned day, keeping its time of day. */
  lemma CursorAdvances(g: ViewMode, c: int)
    ensures NextCursor(g, c) > c
    ensures DayNumber(NextCursor(g, c)) == KeyOf(g, c) + Length(g, KeyOf(g, c))
    ensures TimeInDay(NextCursor(g, c)) == TimeInDay(c)
    ensures Aligned(g, DayNumber(NextCursor(g, c)))
  {
    var k := KeyOf(g, c);
    AlignWindow(g, DayNumber(c));
    NextAligned(g, k);
    MakeDateParts(k + Length(g, k), TimeInDay(c));
    MakeDateOfParts(c);
    MakeDateOrder(DayNumber(c), TimeInDay(c), k + Length(g, k), TimeInDay(c));
  }

  /** The keys a walk from cursor c produces while the cursor is at most limit. */
  ghost function WalkKeys(g: ViewMode, c: int, limit: int): set<int>
    decreases limit - c
  {
    if c > limit then {}
    else
      CursorAdvances(g, c);
      {KeyOf(g, c)} + WalkKeys(g, NextCursor(g, c), limit)
  }

  /** The aligned days from lo on whose instant at time of day tod is at most limit. */
  ghost function AlignedFrom(g: ViewMode, lo: int, tod: int, limit: int): set<int> {
    set b | lo <= b <= DayNumber(limit) && Aligned(g, b) && MakeDate(b, tod) <= limit
  }

  lemma {:induction false} WalkFromAligned(g: ViewMode, b: int, tod: int, limit: int)
    requires Aligned(g, b) && 0 <= tod < MsPerDay
    ensures WalkKeys(g, MakeDate(b, tod), limit) == AlignedFrom(g, b, tod, limit)
    decreases limit - MakeDate(b, tod)
  {
    var c := MakeDate(b, tod);
    MakeDateParts(b, tod);
    if c > limit {
      forall x | x in AlignedFrom(g, b, tod, limit)
        ensures false
      {
        MakeDateOrder(x, tod, b, tod);
      }
    } else {
      AlignOfAligned(g, b);
      CursorAdvances(g, c);
      var n := b + Length(g, b);
      assert NextCursor(g, c) == MakeDate(n, tod);
      WalkFromAligned(g, n, tod, limit);
      forall x | x in AlignedFrom(g, b, tod, limit)
        ensures x == b || x in AlignedFrom(g, n, tod, limit)
      {
        if b < x < n {
          NoneBetween(g, b, x);
        }
      }
      MakeDateOrder(DayNumber(limit), TimeInDay(limit), b, tod);
      MakeDateOfParts(limit);
      assert b in AlignedFrom(g, b, tod, limit);
    }
  }

  /**
   * The keys of a walk: the bucket of the starting day, then every later
   * bucket start whose instant at the cursor's time of day is still within
   * the limit. A bucket whose first day is within the limit is skipped when
   * the limit's time of day is earlier than the cursor's.
   */
  lemma WalkKeysSpec(g: ViewMode, c: int, limit: int)
    ensures WalkKeys(g, c, limit)
         == if c > limit then {}
            else {KeyOf(g, c)} + AlignedFrom(g, KeyOf(g, c) + 1, TimeInDay(c), limit)
  {
    if c <= limit {
      var k := KeyOf(g, c);
      CursorAdvances(g, c);
      var n := k + Length(g, k);
      assert NextCursor(g, c) == MakeDate(n, TimeInDay(c));
      WalkFromAligned(g, n, TimeInDay(c), limit);
      AlignWindow(g, DayNumber(c));
      forall x | x in AlignedFrom(g, k + 1, TimeInDay(c), limit)
        ensures x in AlignedFrom(g, n, TimeInDay(c), limit)
      {
        if x < n {
          NoneBetween(g, k, x);
        }
      }
    }
  }

  /** Every key of a walk is at least the key of its first step. */
  lemma WalkKeysFrom(g: ViewMode, c: int, limit: int, x: int)
    requires x in WalkKeys(g, c, limit)
    ensures KeyOf(g, c) <= x
  {
    WalkKeysSpec(g, c, limit);
  }

  /** The Day walk visits exactly the days whose instant at the cursor's time of day is within the limit. */
  lemma DayWalk(c: int, limit: int)
    ensures WalkKeys(Day, c, limit)
         == set d | DayNumber(c) <= d <= DayNumber(limit) && MakeDate(d, TimeInDay(c)) <= limit
  {
    WalkKeysSpec(Day, c, limit);
    MakeDateOfParts(c);
    if c <= limit {
      MakeDateOrder(DayNumber(c), TimeInDay(c), DayNumber(limit), TimeInDay(limit));
      MakeDateOfParts(limit);
    }
  }

  // The source's switch, on a Date cursor mutated in place.

  lemma DayStep(c: int)
    ensures DayNumber(c) == KeyOf(Day, c)
    ensures SetDate(c, GetDate(c) + 1) == NextCursor(Day, c)
  {
    SetDateShift(c, 1);
  }

  lemma WeekStep(c: int, a: int)
    requires a == SetDate(c, GetDate(c) - GetDay(c) + 1)
    ensures DayNumber(a) == KeyOf(Week, c)
    ensures SetDate(a, GetDate(a) + 7) == NextCursor(Week, c)
  {
    SetDateShift(c, 1 - GetDay(c));
    MakeDateParts(KeyOf(Week, c), TimeInDay(c));
    SetDateShift(a, 7);
  }

  lemma MonthStep(c: int, a: int)
    requires a == SetDate(c, 1)
    ensures DayNumber(a) == KeyOf(Month, c)
    ensures SetMonth(a, GetMonth(a) + 1) == NextCursor(Month, c)
  {
    SetDateFirst(c);
    SetDateFirstCivil(c);
    MakeDateParts(KeyOf(Month, c), TimeInDay(c));
    SetMonthNext(a);
  }

  lemma YearStepKey(c: int, a: int)
    requires a == SetMonthDate(c, 0, 1)
    ensures a == MakeDate(YearStart(GetFullYear(c)), TimeInDay(c))
    ensures DayNumber(a) == KeyOf(Year, c)
  {
    SetMonthDateJanuaryFirst(c);
    MakeDateParts(YearStart(GetFullYear(c)), TimeInDay(c));
  }

  lemma YearStepNext(y: int, tod: int)
    requires 0 <= tod < MsPerDay
    ensures SetFullYear(MakeDate(YearStart(y), tod), GetFullYear(MakeDate(YearStart(y), tod)) + 1)
         == MakeDate(YearStart(y + 1), tod)
  {
    var a := MakeDate(YearStart(y), tod);
    MakeDateParts(YearStart(y), tod);
    assert GetMonth(a) == 0 && GetDate(a) == 1 && GetFullYear(a) == y by {
      JanuaryFirst(y);
    }
    SetFullYearNext(a);
    YearStartStep(y);
  }

  lemma YearNextCursor(c: int)
    ensures NextCursor(Year, c) == MakeDate(YearStart(GetFullYear(c) + 1), TimeInDay(c))
  {
    var y := GetFullYear(c);
    assert Length(Year, YearStart(y)) == DaysInYear(y) by {
      JanuaryFirst(y);
    }
    YearStartStep(y);
  }

  lemma YearStep(c: int, a: int)
    requires a == SetMonthDate(c, 0, 1)
    ensures DayNumber(a) == KeyOf(Year, c)
    ensures SetFullYear(a, GetFullYear(a) + 1) == NextCursor(Year, c)
  {
    var y, tod := GetFullYear(c), TimeInDay(c);
    assert a == MakeDate(YearStart(y), tod) && DayNumber(a) == KeyOf(Year, c) by {
      YearStepKey(c, a);
    }
    assert SetFullYear(a, GetFullYear(a) + 1) == MakeDate(YearStart(y + 1), tod) by {
      YearStepNext(y, tod);
    }
    YearNextCursor(c);
  }

  /**
   * One iteration of the bucket switch: align the cursor, read its calendar
   * date as the key, and advance the cursor to the next bucket.
   */
  method Advance(g: ViewMode, cursor: int) returns (key: int, next: int)
    ensures key == KeyOf(g, cursor) && next == NextCursor(g, cursor)
  {
    var c := cursor;
    match g {
      case Day =>
        DayStep(c);
        key := DayNumber(c);
        c := SetDate(c, GetDate(c) + 1);
      case Week =>
        c := SetDate(c, GetDate(c) - GetDay(c) + 1);
        WeekStep(cursor, c);
        key := DayNumber(c);
        c := SetDate(c, GetDate(c) + 7);
      case Month =>
        c := SetDate(c, 1);
        MonthStep(cursor, c);
        key := DayNumber(c);
        c := SetMonth(c, GetMonth(c) + 1);
      case Year =>
        c := SetMonthDate(c, 0, 1);
        YearStep(cursor, c);
        key := DayNumber(c);
        c := SetFullYear(c, GetFullYear(c) + 1);
    }
    next := c;
  }

  // Period ends.

  /** The instant the engine takes as the end of the bucket whose key is day k. */
  function PeriodEnd(g: ViewMode, k: int): int {
    match g
    case Day => MakeDate(k, MsPerDay - 1)
    case Week => MakeDate(k + 6, 0)
    case Month => MakeDate(k - CivilOf(k).day + DaysInMonth(CivilOf(k).year, CivilOf(k).month), 0)
    case Year => MakeDate(YearStart(CivilOf(k).year + 1) - 1, 0)
  }

  /**
   * The period end of the source: a copy of the period start (midnight of the
   * key's day) moved by one setter call.
   */
  method ComputePeriodEnd(g: ViewMode, key: int) returns (periodEnd: int)
    ensures periodEnd == PeriodEnd(g, key)
  {
    var periodStart := MakeDate(key, 0);
    MakeDateParts(key, 0);
    periodEnd := periodStart;
    if g == Day {
      periodEnd := SetHours(periodEnd, 23, 59, 59, 999);
    } else if g == Week {
      SetDateShift(periodStart, 6);
      periodEnd := SetDate(periodEnd, GetDate(periodStart) + 6);
    } else if g == Month {
      SetMonthDateLastDay(periodStart);
      periodEnd := SetMonthDate(periodEnd, GetMonth(periodStart) + 1, 0);
    } else {
      SetFullYearLastDay(periodStart, GetFullYear(periodStart));
      periodEnd := SetFullYearMonthDate(periodEnd, GetFullYear(periodStart) + 1, 0, 0);
    }
  }

  /**
   * A bucket's period ends one millisecond before midnight for Day, and at
   * midnight starting the bucket's last day for Week, Month and Year.
   */
  lemma PeriodEndLastDay(g: ViewMode, b: int)
    requires Aligned(g, b)
    ensures g == Day ==> PeriodEnd(g, b) == MakeDate(b + 1, 0) - 1
    ensures g != Day ==> PeriodEnd(g, b) == MakeDate(b + Length(g, b) - 1, 0)
  {
    if g == Year {
      YearPeriodEnd(b);
    }
  }

  lemma YearPeriodEnd(b: int)
    requires Aligned(Year, b)
    ensures PeriodEnd(Year, b) == MakeDate(b + Length(Year, b) - 1, 0)
  {
    var y := CivilOf(b).year;
    JanuaryFirstDay(y);
    YearStartStep(y);
  }

  /** The last day of a Week bucket is a Sunday. */
  lemma WeekEndsOnSunday(b: int)
    requires Aligned(Week, b)
    ensures Weekday(DayNumber(PeriodEnd(Week, b))) == 0
  {
    MakeDateParts(b + 6, 0);
  }

  /** The last day of a Month bucket is the last day of that month. */
  lemma MonthEndsOnLastDay(y: int, m: int)
    requires 1 <= m <= 12
    ensures CivilOf(DayNumber(PeriodEnd(Month, DayOf(Civil(y, m, 1))))) == Civil(y, m, DaysInMonth(y, m))
  {
    var b := DayOf(Civil(y, m, 1));
    CivilOfDayOf(Civil(y, m, 1));
    assert PeriodEnd(Month, b) == MakeDate(b - 1 + DaysInMonth(y, m), 0);
    MakeDateParts(b - 1 + DaysInMonth(y, m), 0);
    LastOfMonth(Civil(y, m, 1));
  }

  /** The last day of a Year bucket is 31 December of that year. */
  lemma YearEndsOnDecember31(y: int)
    ensures CivilOf(DayNumber(PeriodEnd(Year, YearStart(y)))) == Civil(y, 12, 31)
  {
    JanuaryFirst(y);
    assert PeriodEnd(Year, YearStart(y)) == MakeDate(YearStart(y + 1) - 1, 0);
    MakeDateParts(YearStart(y + 1) - 1, 0);
    DecemberLast(y);
  }
}
