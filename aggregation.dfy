/**
 * The capacity engine of the example application (calculateHoursByPeriod):
 * the milliseconds of the "task" items that fall into each Day, Week, Month
 * or Year bucket, as a list of entries sorted by bucket.
 *
 * A bucket is identified by the day number of its first day (its key).
 * The source walks twice over buckets: once from the earliest start to the
 * latest end to create the buckets with value 0, and once per task to add
 * the task's overlap with each bucket it visits. Both walks start from a raw
 * instant, time of day included; WalkStart.DayStart is the corrected walk
 * that starts at midnight of that instant's day.
 */
module Aggregation {
  import opened JsDate
  import opened Buckets
  import opened KeyOrder

  /** The item types of the Gantt library. */
  datatype Kind = Task | Project | Milestone

  /** A Gantt item: its type and its start and end instants. */
  datatype Item = Item(kind: Kind, start: int, end: int)

  /** A bucket value: milliseconds, or NaN once `undefined += n` has run on a missing key. */
  datatype Value = Finite(ms: int) | NaN

  /** An entry of the result: the bucket's start instant, its value and its label. */
  datatype Entry = Entry(date: int, value: Value, name: string)

  /** Where a walk over buckets starts: the raw instant (the source), or midnight of its day. */
  datatype WalkStart = RawInstant | DayStart

  function Min(a: int, b: int): int {
    if a <= b then a else b
  }

  function Max(a: int, b: int): int {
    if a >= b then a else b
  }

  /** The first cursor of a walk from instant t. */
  function Origin(rule: WalkStart, t: int): (c: int)
    ensures DayNumber(c) == DayNumber(t) && c <= t
    ensures rule == RawInstant ==> c == t
    ensures rule == DayStart ==> TimeInDay(c) == 0
  {
    MakeDateParts(DayNumber(t), 0);
    MakeDateOfParts(t);
    if rule == RawInstant then t else MakeDate(DayNumber(t), 0)
  }

  // The items the engine works on.

  /** The items of type "task", in their order. */
  function Tasks(items: seq<Item>): (ts: seq<Item>)
    ensures |ts| <= |items|
    ensures forall i | 0 <= i < |ts| :: ts[i].kind == Task
    ensures (forall i | 0 <= i < |items| :: items[i].kind == Task) ==> ts == items
  {
    if items == [] then []
    else (if items[0].kind == Task then [items[0]] else []) + Tasks(items[1..])
  }

  /** The filter keeps the task items of a concatenation in order, repeated ones included. */
  lemma {:induction false} TasksAppend(a: seq<Item>, b: seq<Item>)
    ensures Tasks(a + b) == Tasks(a) + Tasks(b)
  {
    if a == [] {
      assert a + b == b;
    } else {
      assert (a + b)[0] == a[0];
      assert (a + b)[1..] == a[1..] + b;
      TasksAppend(a[1..], b);
    }
  }

  /** The filter keeps exactly the task items. */
  lemma {:induction false} TasksMembers(items: seq<Item>, x: Item)
    ensures x in Tasks(items) <==> x in items && x.kind == Task
  {
    if items != [] {
      TasksMembers(items[1..], x);
      assert items == [items[0]] + items[1..];
    }
  }

  /** The earliest start of the tasks. */
  function MinStart(ts: seq<Item>): (r: int)
    requires |ts| > 0
    ensures forall i | 0 <= i < |ts| :: r <= ts[i].start
    ensures exists i | 0 <= i < |ts| :: r == ts[i].start
  {
    if |ts| == 1 then ts[0].start
    else
      var rest := MinStart(ts[1..]);
      assert forall i | 1 <= i < |ts| :: ts[i] == ts[1..][i - 1];
      Min(ts[0].start, rest)
  }

  /** The latest end of the tasks. */
  function MaxEnd(ts: seq<Item>): (r: int)
    requires |ts| > 0
    ensures forall i | 0 <= i < |ts| :: ts[i].end <= r
    ensures exists i | 0 <= i < |ts| :: r == ts[i].end
  {
    if |ts| == 1 then ts[0].end
    else
      var rest := MaxEnd(ts[1..]);
      assert forall i | 1 <= i < |ts| :: ts[i] == ts[1..][i - 1];
      Max(ts[0].end, rest)
  }

  // Crediting a bucket.

  /** Milliseconds of task t inside the period of bucket k (zero or negative when they do not meet). */
  function Overlap(g: ViewMode, t: Item, k: int): int {
    Min(t.end, PeriodEnd(g, k)) - Max(t.start, MakeDate(k, 0))
  }

  function Plus(v: Value, n: int): Value {
    match v
    case Finite(a) => Finite(a + n)
    case NaN => NaN
  }

  /** The value of `m[k] += n`: a missing key reads as undefined, and undefined + n is NaN. */
  function Credited(m: map<int, Value>, k: int, n: int): Value {
    if k in m then Plus(m[k], n) else NaN
  }

  /** Adds n to bucket k when n is positive. */
  function Credit(m: map<int, Value>, k: int, n: int): map<int, Value> {
    if n > 0 then m[k := Credited(m, k, n)] else m
  }

  /** The buckets after the walk of task t from cursor cur. */
  function AddWalk(m: map<int, Value>, g: ViewMode, t: Item, cur: int): map<int, Value>
    decreases t.end - cur
  {
    if cur > t.end then m
    else
      CursorAdvances(g, cur);
      var k := KeyOf(g, cur);
      AddWalk(Credit(m, k, Overlap(g, t, k)), g, t, NextCursor(g, cur))
  }

  /** The buckets after task t has been added. */
  function AddTask(m: map<int, Value>, g: ViewMode, rule: WalkStart, t: Item): map<int, Value> {
    AddWalk(m, g, t, Origin(rule, t.start))
  }

  /** The buckets after the tasks ts have been added, in order. */
  function AddAll(m: map<int, Value>, g: ViewMode, rule: WalkStart, ts: seq<Item>): map<int, Value>
    decreases |ts|
  {
    if ts == [] then m
    else AddTask(AddAll(m, g, rule, ts[..|ts| - 1]), g, rule, ts[|ts| - 1])
  }

  lemma AddAllStep(m: map<int, Value>, g: ViewMode, rule: WalkStart, ts: seq<Item>, i: int)
    requires 0 <= i < |ts|
    ensures AddAll(m, g, rule, ts[..i + 1]) == AddTask(AddAll(m, g, rule, ts[..i]), g, rule, ts[i])
  {
    assert ts[..i + 1][..i] == ts[..i];
  }

  /** One zero-valued bucket per key. */
  ghost function SeedMap(keys: set<int>): map<int, Value> {
    map k | k in keys :: Finite(0)
  }

  /** The keys of the seed walk, from the earliest start to the latest end. */
  ghost function Seeds(g: ViewMode, rule: WalkStart, ts: seq<Item>): set<int> {
    if ts == [] then {} else WalkKeys(g, Origin(rule, MinStart(ts)), MaxEnd(ts))
  }

  /** The buckets the engine ends with. */
  ghost function Aggregate(g: ViewMode, rule: WalkStart, items: seq<Item>): map<int, Value> {
    var ts := Tasks(items);
    AddAll(SeedMap(Seeds(g, rule, ts)), g, rule, ts)
  }

  // What the buckets hold, independently of the walks' order.

  /** The walk of task t visits bucket k and the task overlaps its period. */
  ghost predicate Hit(g: ViewMode, rule: WalkStart, t: Item, k: int) {
    k in WalkKeys(g, Origin(rule, t.start), t.end) && Overlap(g, t, k) > 0
  }

  ghost function Contribution(g: ViewMode, rule: WalkStart, t: Item, k: int): int {
    if Hit(g, rule, t, k) then Overlap(g, t, k) else 0
  }

  /** The sum of the tasks' contributions to bucket k. */
  ghost function Total(g: ViewMode, rule: WalkStart, ts: seq<Item>, k: int): int
    decreases |ts|
  {
    if ts == [] then 0
    else Total(g, rule, ts[..|ts| - 1], k) + Contribution(g, rule, ts[|ts| - 1], k)
  }

  ghost predicate Touched(g: ViewMode, rule: WalkStart, ts: seq<Item>, k: int) {
    exists i | 0 <= i < |ts| :: Hit(g, rule, ts[i], k)
  }

  /** A walk credits each bucket it visits at most once, and only those with a positive overlap. */
  lemma {:induction false} AddWalkAt(m: map<int, Value>, g: ViewMode, t: Item, cur: int, k: int)
    ensures var r := AddWalk(m, g, t, cur);
            var hit := k in WalkKeys(g, cur, t.end) && Overlap(g, t, k) > 0;
            (k in r <==> k in m || hit) &&
            (k in r ==> r[k] == if hit then Credited(m, k, Overlap(g, t, k)) else m[k])
    decreases t.end - cur
  {
    if cur <= t.end {
      CursorAdvances(g, cur);
      var key := KeyOf(g, cur);
      var next := NextCursor(g, cur);
      var m1 := Credit(m, key, Overlap(g, t, key));
      AddWalkAt(m1, g, t, next, k);
      AlignOfAligned(g, DayNumber(next));
      if key in WalkKeys(g, next, t.end) {
        WalkKeysFrom(g, next, t.end, key);
      }
      assert WalkKeys(g, cur, t.end) == {key} + WalkKeys(g, next, t.end);
    }
  }

  lemma AddTaskAt(m: map<int, Value>, g: ViewMode, rule: WalkStart, t: Item, k: int)
    ensures var r := AddTask(m, g, rule, t);
            (k in r <==> k in m || Hit(g, rule, t, k)) &&
            (k in r ==> r[k] == if Hit(g, rule, t, k) then Credited(m, k, Overlap(g, t, k)) else m[k])
  {
    AddWalkAt(m, g, t, Origin(rule, t.start), k);
  }

  /** Adding a task never removes a bucket and never lowers a finite value. */
  lemma AddTaskNeverDecreases(m: map<int, Value>, g: ViewMode, rule: WalkStart, t: Item, k: int)
    requires k in m && m[k].Finite?
    ensures k in AddTask(m, g, rule, t)
    ensures AddTask(m, g, rule, t)[k].Finite? && AddTask(m, g, rule, t)[k].ms >= m[k].ms
  {
    AddTaskAt(m, g, rule, t, k);
  }

  /**
   * After the tasks ts: a bucket exists when it existed or some task hit it;
   * a finite existing bucket gains the tasks' total; NaN stays NaN; a bucket
   * created by a task is NaN.
   */
  lemma {:induction false} AddAllAt(m: map<int, Value>, g: ViewMode, rule: WalkStart, ts: seq<Item>, k: int)
    ensures k in AddAll(m, g, rule, ts) <==> k in m || Touched(g, rule, ts, k)
    ensures k in m && m[k].Finite? ==> AddAll(m, g, rule, ts)[k] == Finite(m[k].ms + Total(g, rule, ts, k))
    ensures k in m && m[k] == NaN ==> AddAll(m, g, rule, ts)[k] == NaN
    ensures k !in m && Touched(g, rule, ts, k) ==> AddAll(m, g, rule, ts)[k] == NaN
    decreases |ts|
  {
    if ts != [] {
      var init, t := ts[..|ts| - 1], ts[|ts| - 1];
      AddAllAt(m, g, rule, init, k);
      AddTaskAt(AddAll(m, g, rule, init), g, rule, t, k);
      TouchedSnoc(g, rule, ts, k);
    }
  }

  lemma TouchedSnoc(g: ViewMode, rule: WalkStart, ts: seq<Item>, k: int)
    requires ts != []
    ensures Touched(g, rule, ts, k) <==> Touched(g, rule, ts[..|ts| - 1], k) || Hit(g, rule, ts[|ts| - 1], k)
  {
    var init, last := ts[..|ts| - 1], |ts| - 1;
    if Touched(g, rule, ts, k) && !Hit(g, rule, ts[last], k) {
      var i :| 0 <= i < |ts| && Hit(g, rule, ts[i], k);
      assert init[i] == ts[i];
    }
    if Touched(g, rule, init, k) {
      var i :| 0 <= i < |init| && Hit(g, rule, init[i], k);
      assert ts[i] == init[i];
    }
  }

  lemma {:induction false} TotalNonNegative(g: ViewMode, rule: WalkStart, ts: seq<Item>, k: int)
    ensures Total(g, rule, ts, k) >= 0
    decreases |ts|
  {
    if ts != [] {
      TotalNonNegative(g, rule, ts[..|ts| - 1], k);
    }
  }

  /** Each task's contribution is part of the total. */
  lemma {:induction false} TotalAtLeast(g: ViewMode, rule: WalkStart, ts: seq<Item>, i: int, k: int)
    requires 0 <= i < |ts|
    ensures Total(g, rule, ts, k) >= Contribution(g, rule, ts[i], k)
    decreases |ts|
  {
    var init := ts[..|ts| - 1];
    if i < |ts| - 1 {
      assert init[i] == ts[i];
      TotalAtLeast(g, rule, init, i, k);
    } else {
      TotalNonNegative(g, rule, init, k);
    }
  }

  /**
   * The engine's buckets: exactly the seeded keys and the keys a task hit;
   * a seeded bucket holds the sum of the positive overlaps of the tasks that
   * hit it, never negative; a bucket a task hit without it being seeded is NaN.
   */
  lemma AggregateValues(g: ViewMode, rule: WalkStart, items: seq<Item>, k: int)
    ensures var a, ts := Aggregate(g, rule, items), Tasks(items);
            (k in a <==> k in Seeds(g, rule, ts) || Touched(g, rule, ts, k)) &&
            (k in Seeds(g, rule, ts) ==> a[k] == Finite(Total(g, rule, ts, k)) && Total(g, rule, ts, k) >= 0) &&
            (k !in Seeds(g, rule, ts) && Touched(g, rule, ts, k) ==> a[k] == NaN)
  {
    var ts := Tasks(items);
    AddAllAt(SeedMap(Seeds(g, rule, ts)), g, rule, ts, k);
    TotalNonNegative(g, rule, ts, k);
  }

  lemma {:induction false} TasksSkipNonTask(items: seq<Item>, i: int, x: Item)
    requires 0 <= i <= |items| && x.kind != Task
    ensures Tasks(items[..i] + [x] + items[i..]) == Tasks(items)
    decreases i
  {
    var s := items[..i] + [x] + items[i..];
    if i == 0 {
      assert s[0] == x && s[1..] == items;
    } else {
      var rest := items[1..];
      assert s[0] == items[0];
      assert s[1..] == rest[..i - 1] + [x] + rest[i - 1..];
      TasksSkipNonTask(rest, i - 1, x);
    }
  }

  /** Items that are not tasks, wherever they are inserted, change no bucket. */
  lemma NonTaskIgnored(g: ViewMode, rule: WalkStart, items: seq<Item>, i: int, x: Item)
    requires 0 <= i <= |items| && x.kind != Task
    ensures Aggregate(g, rule, items[..i] + [x] + items[i..]) == Aggregate(g, rule, items)
  {
    TasksSkipNonTask(items, i, x);
  }

  lemma {:induction false} NoTasks(items: seq<Item>)
    requires forall i | 0 <= i < |items| :: items[i].kind != Task
    ensures Tasks(items) == []
  {
    if items != [] {
      NoTasks(items[1..]);
    }
  }

  lemma NoSeeds(g: ViewMode, rule: WalkStart, ts: seq<Item>)
    requires ts == []
    ensures SeedMap(Seeds(g, rule, ts)) == map[]
  {
    var m := SeedMap(Seeds(g, rule, ts));
    forall k
      ensures k !in m
    {
    }
    assert m.Keys == {};
  }

  /** Without a task no bucket is created. */
  lemma NoTasksNoBuckets(g: ViewMode, rule: WalkStart, items: seq<Item>)
    requires forall i | 0 <= i < |items| :: items[i].kind != Task
    ensures Aggregate(g, rule, items) == map[]
  {
    NoTasks(items);
  }

  // The result list.

  /** The label of a bucket: empty for a value of exactly 0, "h" otherwise (NaN included). */
  function Label(v: Value): string {
    if v == Finite(0) then "" else "h"
  }

  /** The final stage: keys sorted, each mapped to its midnight instant, value and label. */
  function Entries(m: map<int, Value>): seq<Entry> {
    var ks := SortedKeys(m.Keys);
    seq(|ks|, i requires 0 <= i < |ks| => Entry(MakeDate(ks[i], 0), m[ks[i]], Label(m[ks[i]])))
  }

  /**
   * Every bucket appears exactly once, in strictly ascending order of date,
   * with its value; its label is empty exactly when the value is 0, and "h"
   * exactly when it is not (NaN included).
   */
  lemma EntriesSpec(m: map<int, Value>)
    ensures var es := Entries(m);
            (forall i, j | 0 <= i < j < |es| :: es[i].date < es[j].date) &&
            (forall k | k in m :: exists i | 0 <= i < |es| :: es[i].date == MakeDate(k, 0)) &&
            (forall i | 0 <= i < |es| ::
               DayNumber(es[i].date) in m && TimeInDay(es[i].date) == 0 &&
               es[i].value == m[DayNumber(es[i].date)] &&
               (es[i].name == "" <==> es[i].value == Finite(0)) &&
               (es[i].name == "h" <==> es[i].value != Finite(0)))
  {
    var ks := SortedKeys(m.Keys);
    var es := Entries(m);
    forall i | 0 <= i < |es|
      ensures DayNumber(es[i].date) == ks[i] && TimeInDay(es[i].date) == 0
    {
      MakeDateParts(ks[i], 0);
    }
    forall k | k in m
      ensures exists i | 0 <= i < |es| :: es[i].date == MakeDate(k, 0)
    {
      var i :| 0 <= i < |ks| && ks[i] == k;
      assert es[i].date == MakeDate(k, 0);
    }
  }

  // The engine, as the source runs it.

  /** The seed walk: one zero-valued bucket per key from start while the cursor is at most limit. */
  method SeedBuckets(g: ViewMode, start: int, limit: int) returns (durations: map<int, Value>)
    ensures durations == SeedMap(WalkKeys(g, start, limit))
  {
    durations := map[];
    var cursor := start;
    while cursor <= limit
      invariant durations.Keys + WalkKeys(g, cursor, limit) == WalkKeys(g, start, limit)
      invariant forall k | k in durations :: durations[k] == Finite(0)
      decreases limit - cursor
    {
      var key, next := Advance(g, cursor);
      CursorAdvances(g, cursor);
      durations := durations[key := Finite(0)];
      cursor := next;
    }
    ghost var seeded := SeedMap(WalkKeys(g, start, limit));
    assert WalkKeys(g, cursor, limit) == {};
    assert durations.Keys == seeded.Keys;
    forall k | k in durations
      ensures durations[k] == seeded[k]
    {
    }
  }

  /** The walk of one task: each visited bucket gains the task's positive overlap with its period. */
  method CreditTask(m: map<int, Value>, g: ViewMode, rule: WalkStart, task: Item) returns (durations: map<int, Value>)
    ensures durations == AddTask(m, g, rule, task)
  {
    durations := m;
    var current := Origin(rule, task.start);
    while current <= task.end
      invariant AddWalk(durations, g, task, current) == AddTask(m, g, rule, task)
      decreases task.end - current
    {
      var key, next := Advance(g, current);
      CursorAdvances(g, current);
      var periodStart := MakeDate(key, 0);
      var periodEnd := ComputePeriodEnd(g, key);
      var overlapStart := Max(task.start, periodStart);
      var overlapEnd := Min(task.end, periodEnd);
      var overlapDuration := overlapEnd - overlapStart;
      if overlapDuration > 0 {
        durations := durations[key := if key in durations then Plus(durations[key], overlapDuration) else NaN];
      }
      current := next;
    }
  }

  /**
   * calculateHoursByPeriod: the tasks' milliseconds per bucket, sorted by
   * bucket. With rule RawInstant this is the source; DayStart is the
   * corrected walk.
   */
  method CalculateHoursByPeriod(items: seq<Item>, g: ViewMode, rule: WalkStart) returns (entries: seq<Entry>)
    ensures entries == Entries(Aggregate(g, rule, items))
  {
    if |items| == 0 {
      assert Entries(Aggregate(g, rule, items)) == [] by {
        NoTasksNoBuckets(g, rule, items);
      }
      return [];
    }
    var tasks := Tasks(items);
    var durations: map<int, Value> := map[];
    // Math.min of no start is +Infinity, and new Date(Infinity) has time value NaN;
    // a comparison with NaN is false, so no bucket is seeded.
    if |tasks| > 0 {
      durations := SeedBuckets(g, Origin(rule, MinStart(tasks)), MaxEnd(tasks));
    }
    ghost var seeded := SeedMap(Seeds(g, rule, tasks));
    assert durations == AddAll(seeded, g, rule, tasks[..0]) by {
      if tasks == [] {
        NoSeeds(g, rule, tasks);
      }
      assert tasks[..0] == [];
    }
    var i := 0;
    while i < |tasks|
      invariant 0 <= i <= |tasks|
      invariant durations == AddAll(seeded, g, rule, tasks[..i])
    {
      AddAllStep(seeded, g, rule, tasks, i);
      durations := CreditTask(durations, g, rule, tasks[i]);
      i := i + 1;
    }
    assert durations == Aggregate(g, rule, items) by {
      assert tasks[..i] == tasks;
    }
    entries := Entries(durations);
  }
}
