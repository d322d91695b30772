/**
 * The walk start of the capacity engine. As written, the seed walk and each
 * task's walk start from a raw instant, time of day included, and keep that
 * time of day from bucket to bucket. A walk then stops before a bucket whose
 * first instant is within the limit, and a task's walk can reach a bucket the
 * seed walk never created, which `undefined += n` turns into NaN.
 *
 * Started at midnight of the same day (WalkStart.DayStart), every bucket a
 * task overlaps is created by the seed walk and receives the task's overlap.
 */
module MidnightStart {
  import opened JsDate
  import opened Buckets
  import opened Aggregation

  // The as-written walk: two tasks on 1970-01-01/02 (day 0 and day 1).

  const Hour: int := 3600000

  /** From 12:00 on day 0 to 06:00 on day 1. */
  const Overnight: Item := Item(Task, 12 * Hour, MsPerDay + 6 * Hour)

  /** From 00:00 to 06:00 on day 1. */
  const EarlyMorning: Item := Item(Task, MsPerDay, MsPerDay + 6 * Hour)

  /** The seed walk from 12:00 on day 0 stops before day 1, whose 12:00 is past 06:00. */
  lemma OvernightWalk()
    ensures WalkKeys(Day, Overnight.start, Overnight.end) == {0}
  {
    MakeDateParts(0, 12 * Hour);
    MakeDateParts(1, 6 * Hour);
    DayWalk(Overnight.start, Overnight.end);
  }

  /**
   * As written, the six hours the overnight task spends on day 1 are lost:
   * the task overlaps day 1, yet no bucket for day 1 exists.
   */
  lemma RawWalkSkipsDay()
    ensures Overlap(Day, Overnight, 1) == 6 * Hour
    ensures 1 !in Aggregate(Day, RawInstant, [Overnight])
  {
    var ts := [Overnight];
    assert Tasks(ts) == ts;
    assert MinStart(ts) == Overnight.start && MaxEnd(ts) == Overnight.end;
    OvernightWalk();
    assert !Touched(Day, RawInstant, ts, 1);
    AggregateValues(Day, RawInstant, ts, 1);
  }

  /**
   * As written, the early-morning task's walk reaches day 1, which the seed
   * walk (from 12:00 on day 0) never created: its bucket becomes NaN.
   */
  lemma RawWalkUnseededNaN()
    ensures 1 in Aggregate(Day, RawInstant, [Overnight, EarlyMorning])
    ensures Aggregate(Day, RawInstant, [Overnight, EarlyMorning])[1] == NaN
  {
    var ts := [Overnight, EarlyMorning];
    assert Tasks(ts) == ts;
    assert MinStart(ts) == Overnight.start && MaxEnd(ts) == Overnight.end;
    OvernightWalk();
    MakeDateParts(1, 0);
    MakeDateParts(1, 6 * Hour);
    DayWalk(EarlyMorning.start, EarlyMorning.end);
    assert 1 in WalkKeys(Day, EarlyMorning.start, EarlyMorning.end);
    assert Hit(Day, RawInstant, ts[1], 1);
    AggregateValues(Day, RawInstant, ts, 1);
  }

  // The corrected walk.

  /** A positive overlap with an aligned bucket bounds the task's days around the bucket. */
  lemma OverlapWindow(g: ViewMode, t: Item, k: int)
    requires Aligned(g, k) && Overlap(g, t, k) > 0
    ensures t.start < t.end && MakeDate(k, 0) < t.end && k <= DayNumber(t.end)
    ensures DayNumber(t.start) + Lead(g) < k + Length(g, k)
  {
    PeriodEndLastDay(g, k);
    MakeDateParts(k, 0);
    DayNumberMonotone(MakeDate(k, 0), t.end);
    if g == Day {
      BeforeMidnight(t.start, k + 1);
    } else {
      BeforeMidnight(t.start, k + Length(g, k) - 1);
    }
  }

  /** A bucket a task overlaps never starts before the bucket of the task's first day. */
  lemma OverlapAfterFirstBucket(g: ViewMode, t: Item, k: int)
    requires Aligned(g, k) && Overlap(g, t, k) > 0
    ensures AlignDay(g, DayNumber(t.start)) <= k
  {
    var d := DayNumber(t.start);
    OverlapWindow(g, t, k);
    AlignWindow(g, d);
    if k < AlignDay(g, d) {
      AlignedGap(g, k, AlignDay(g, d));
    }
  }

  /** A walk from midnight of lo's day reaches every aligned bucket from lo's bucket to the last whose midnight is at most hi. */
  lemma MidnightWalkReaches(g: ViewMode, lo: int, hi: int, k: int)
    requires lo < hi && Aligned(g, k) && AlignDay(g, DayNumber(lo)) <= k && MakeDate(k, 0) <= hi
    ensures k in WalkKeys(g, Origin(DayStart, lo), hi)
  {
    var a := AlignDay(g, DayNumber(lo));
    MakeDateParts(k, 0);
    DayNumberMonotone(MakeDate(k, 0), hi);
    WalkKeysSpec(g, Origin(DayStart, lo), hi);
    if a < k {
      assert k in AlignedFrom(g, a + 1, 0, hi);
    }
  }

  /** From midnight, a task's walk hits exactly the aligned buckets it overlaps. */
  lemma DayStartHit(g: ViewMode, t: Item, k: int)
    ensures Hit(g, DayStart, t, k) <==> Aligned(g, k) && Overlap(g, t, k) > 0
  {
    var c := Origin(DayStart, t.start);
    var a := AlignDay(g, DayNumber(t.start));
    WalkKeysSpec(g, c, t.end);
    AlignWindow(g, DayNumber(t.start));
    if Aligned(g, k) && Overlap(g, t, k) > 0 {
      OverlapWindow(g, t, k);
      OverlapAfterFirstBucket(g, t, k);
      MidnightWalkReaches(g, t.start, t.end, k);
    }
  }

  /** From midnight, every bucket a task's walk hits was created by the seed walk. */
  lemma DayStartSeeded(g: ViewMode, ts: seq<Item>, i: int, k: int)
    requires 0 <= i < |ts| && Hit(g, DayStart, ts[i], k)
    ensures k in Seeds(g, DayStart, ts)
  {
    var t := ts[i];
    DayStartHit(g, t, k);
    OverlapWindow(g, t, k);
    OverlapAfterFirstBucket(g, t, k);
    var lo, hi := MinStart(ts), MaxEnd(ts);
    DayNumberMonotone(lo, t.start);
    AlignMonotone(g, DayNumber(lo), DayNumber(t.start));
    MidnightWalkReaches(g, lo, hi, k);
  }

  /**
   * From midnight, the buckets are exactly the seeded ones, and none is NaN:
   * each holds the sum of the positive overlaps of the tasks that hit it.
   */
  lemma DayStartNoNaN(g: ViewMode, items: seq<Item>, k: int)
    ensures var a, ts := Aggregate(g, DayStart, items), Tasks(items);
            (k in a <==> k in Seeds(g, DayStart, ts)) &&
            (k in a ==> a[k] == Finite(Total(g, DayStart, ts, k)))
  {
    var ts := Tasks(items);
    AggregateValues(g, DayStart, items, k);
    if Touched(g, DayStart, ts, k) {
      var i :| 0 <= i < |ts| && Hit(g, DayStart, ts[i], k);
      DayStartSeeded(g, ts, i, k);
    }
  }

  /** From midnight, every bucket a task overlaps exists and holds at least that overlap. */
  lemma DayStartCredits(g: ViewMode, items: seq<Item>, t: Item, k: int)
    requires t in items && t.kind == Task && Aligned(g, k) && Overlap(g, t, k) > 0
    ensures k in Aggregate(g, DayStart, items)
    ensures Aggregate(g, DayStart, items)[k].Finite?
    ensures Aggregate(g, DayStart, items)[k].ms >= Overlap(g, t, k)
  {
    var ts := Tasks(items);
    TasksMembers(items, t);
    var i :| 0 <= i < |ts| && ts[i] == t;
    DayStartHit(g, t, k);
    DayStartSeeded(g, ts, i, k);
    DayStartNoNaN(g, items, k);
    TotalAtLeast(g, DayStart, ts, i, k);
  }
}
