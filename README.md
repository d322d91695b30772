# Capacity chart of gantt-task-react, in Dafny

This project models the two pieces of logic behind the capacity chart of the
gantt-task-react example application. Everything is proved with Dafny.

- **The capacity engine** is `calculateHoursByPeriod` in the example application.
  - It keeps the items of type `"task"`.
  - It seeds one zero-valued bucket per Day, Week, Month or Year step, from the earliest start to the latest end.
  - It then walks each task over the buckets and adds the task's positive overlap with each bucket's period, in milliseconds.
  - It returns one entry per bucket, sorted by date and labelled `""` or `"h"`.
  - Modules: `Aggregation` (with `KeyOrder` for the sort), `Buckets` (alignment, walk steps, period ends), `JsDate` (the ECMAScript Date getters and setters the engine calls) and `Calendar` (the proleptic Gregorian calendar on day numbers).
  - `MidnightStart` holds the two findings below.
- **The chart columns** are `CapacityChartColumns`, in module `CapacityChart`.
  - It draws the tick lines.
  - It places the "today" marker for left-to-right and right-to-left charts.
  - It draws one value column, with an optional caption, per date that has an entry, scaled by the largest value.

## How the model represents the source

- **Instants.** An instant is an integer number of milliseconds on one UTC timeline. A day number counts days from 1970-01-01. Date objects that the engine mutates with `setDate`, `setMonth` and `setFullYear` become integer locals that are reassigned.
- **Setters.** The setters follow ECMAScript's MakeDay: a day of month past the month's end, or a day of 0, rolls over.
- **Bucket keys.** The engine's string keys (`YYYY-MM-DD 00:00:00`) become the day number of the bucket's first day. The engine's `mapDuration` dictionary becomes a `map<int, Value>`.
- **NaN.** `Value` is `Finite(ms)` or `NaN`. `NaN` models `undefined += n` on a key that the seed walk did not create.
- **Walk start.** `WalkStart.RawInstant` is the source's walk, which starts at the raw instant with its time of day included. `WalkStart.DayStart` is the corrected walk, which starts at midnight of the same day.
- **The engine's shape.** `CalculateHoursByPeriod` is an imperative method and keeps the source's loops:
  - the seed `while` loop is `SeedBuckets`;
  - the per-task `while` loop is `CreditTask`.
  Each is proved equal to a specification function (`SeedMap`/`WalkKeys`, `AddTask`, `Aggregate`). The lemmas state what those functions mean.
- **The chart's shape.** `CapacityChartColumns` is an imperative method with the source's two `for` loops. Its SVG output becomes a `Chart` record holding ticks, columns and the today marker. Coordinates are exact `real`s. The wall-clock read `new Date()` becomes the parameter `now`.

Three consequences of the code (example/src/App.tsx:98 and 150-153):

- A Sunday belongs to the week that starts on the **following** Monday, because `getDate() - getDay() + 1` moves a Sunday forward.
- The period of a Week, Month or Year bucket ends at **midnight starting** its last day, not at 23:59:59.999. Only the Day bucket ends at 23:59:59.999. A day-long task in a Day bucket is therefore credited with 24 h minus 1 ms.
- Because of that, a task's hours on the Sunday of a Week bucket, and on the last day of a Month or Year bucket, are not counted.

## Model

| member | source | states |
|---|---|---|
| Buckets.WeekAlign | example/src/App.tsx:98 | The Week key is a Monday; the cursor's day is at most one day before that Monday and less than six days after it, so a Sunday goes to the next Monday. |
| Buckets.MonthAlign | example/src/App.tsx:103 | The Month key is a first of month, and the cursor's day lies within that month. |
| Buckets.YearAlign | example/src/App.tsx:108 | The Year key is a 1 January, and the cursor's day lies within that year. |
| Buckets.AlignWindow | example/src/App.tsx:92-112 | Every day is assigned to an aligned bucket whose span (shifted by the Sunday lead for Week) contains it. |
| Buckets.AlignOfAligned | example/src/App.tsx:98-108 | Aligning an aligned day leaves it unchanged. |
| Buckets.NextAligned | example/src/App.tsx:95-110 | The day after a bucket starts the next bucket. |
| Buckets.NoneBetween | example/src/App.tsx:92-112 | No bucket starts strictly inside another bucket. |
| Buckets.AlignedGap | example/src/App.tsx:92-112 | Two distinct bucket starts are at least a bucket length apart. |
| Buckets.AlignMonotone | example/src/App.tsx:92-112 | A later day is never assigned to an earlier bucket. |
| Buckets.CursorAdvances | example/src/App.tsx:89-115 | Each walk step moves the cursor strictly forward, to the start of the next bucket, keeping its time of day; both walks therefore terminate. |
| Buckets.WalkFromAligned | example/src/App.tsx:89-115 | From an aligned cursor, the walk visits exactly the aligned days whose instant at the cursor's time of day is within the limit. |
| Buckets.WalkKeysSpec | example/src/App.tsx:89-115 | The keys of a walk are the bucket of the starting day plus every later bucket start whose instant, at the cursor's time of day, is within the limit. |
| Buckets.WalkKeys | example/src/App.tsx:89-115 | The keys the walk loops produce from a cursor while it is at most the limit (also the per-task loop at lines 121-162); `WalkKeysSpec` and `WalkFromAligned` state which keys they are. |
| Buckets.WalkKeysFrom | example/src/App.tsx:121-162 | Every key of a walk is at least the key of its first step. |
| Buckets.DayWalk | example/src/App.tsx:93-96 | The Day walk visits exactly the days whose instant at the cursor's time of day is within the limit. |
| Buckets.DayStep | example/src/App.tsx:94-95 | The Day key is the cursor's calendar day, and `setDate(getDate() + 1)` moves the cursor to the next day. |
| Buckets.WeekStep | example/src/App.tsx:98-100 | After `setDate(getDate() - getDay() + 1)` the day is the Week key, and adding 7 days gives the next week's cursor. |
| Buckets.MonthStep | example/src/App.tsx:103-105 | After `setDate(1)` the day is the Month key, and `setMonth(getMonth() + 1)` gives the next month's cursor. |
| Buckets.YearStepKey | example/src/App.tsx:108-109 | `setMonth(0, 1)` moves to 1 January of the cursor's year, which is the Year key. |
| Buckets.YearStepNext | example/src/App.tsx:110 | From 1 January, `setFullYear(getFullYear() + 1)` moves to 1 January of the next year at the same time of day. |
| Buckets.YearNextCursor | example/src/App.tsx:107-111 | The cursor after a Year step is 1 January of the next year at the cursor's time of day. |
| Buckets.YearStep | example/src/App.tsx:108-110 | The Year key and the next cursor are those of the Year step. |
| Buckets.Advance | example/src/App.tsx:92-112 | One pass through the switch yields the cursor's bucket key and the next cursor. |
| Buckets.ComputePeriodEnd | example/src/App.tsx:146-153 | The period end that the setter calls compute from a copy of the period start equals `PeriodEnd`. |
| Buckets.PeriodEndLastDay | example/src/App.tsx:149-153 | A Day period ends 1 ms before the next midnight; a Week, Month or Year period ends at midnight starting the bucket's last day. |
| Buckets.YearPeriodEnd | example/src/App.tsx:153 | `setFullYear(y + 1, 0, 0)` ends a Year period at midnight of its last day. |
| Buckets.WeekEndsOnSunday | example/src/App.tsx:151 | The last day of a Week period is a Sunday. |
| Buckets.MonthEndsOnLastDay | example/src/App.tsx:152 | The last day of a Month period is the last day of that month. |
| Buckets.YearEndsOnDecember31 | example/src/App.tsx:153 | The last day of a Year period is 31 December of the same year. |
| Buckets.AlignDay | example/src/App.tsx:94-108 | The first day of the bucket a day is assigned to; `AlignWindow`, `WeekAlign`, `MonthAlign` and `YearAlign` state what it is. |
| Buckets.KeyOf | example/src/App.tsx:94-109 | The key the switch computes for a cursor; `DayStep`, `WeekStep`, `MonthStep` and `YearStep` prove the setter calls give it. |
| Buckets.NextCursor | example/src/App.tsx:95-110 | The cursor after one step; `CursorAdvances` states it is strictly later, aligned and at the same time of day. |
| Buckets.PeriodEnd | example/src/App.tsx:150-153 | The end of a bucket's period; `PeriodEndLastDay`, `WeekEndsOnSunday`, `MonthEndsOnLastDay` and `YearEndsOnDecember31` state where it lies. |
| JsDate.SetDateShift | example/src/App.tsx:95 | `setDate(getDate() + k)` moves the instant by k whole days and keeps its time of day. |
| JsDate.SetDateFirst | example/src/App.tsx:103 | `setDate(1)` moves back to the first of the same month. |
| JsDate.SetDateFirstCivil | example/src/App.tsx:103 | That day is day 1 of the cursor's month. |
| JsDate.SetMonthNext | example/src/App.tsx:105 | On a first of month, `setMonth(getMonth() + 1)` moves forward by the month's length. |
| JsDate.SetMonthDateJanuaryFirst | example/src/App.tsx:108 | `setMonth(0, 1)` moves to 1 January of the same year. |
| JsDate.SetFullYearNext | example/src/App.tsx:110 | On 1 January, `setFullYear(getFullYear() + 1)` moves forward by the year's length. |
| JsDate.SetMonthDateLastDay | example/src/App.tsx:152 | `setMonth(getMonth() + 1, 0)` moves to the last day of the same month. |
| JsDate.SetFullYearLastDay | example/src/App.tsx:153 | `setFullYear(y + 1, 0, 0)` moves to 31 December of year y. |
| JsDate.GetDate | example/src/App.tsx:95 | `getDate()`: the day of month of the instant's calendar date; `SetDateShift` and `SetDateFirst` use it. |
| JsDate.GetDay | example/src/App.tsx:98 | `getDay()`: the weekday of the instant's day, 0 for Sunday; `WeekAlign` states the resulting Week key. |
| JsDate.GetMonth | example/src/App.tsx:105 | `getMonth()`: the 0-based month of the instant's calendar date; `SetMonthNext` uses it. |
| JsDate.GetFullYear | example/src/App.tsx:110 | `getFullYear()`: the year of the instant's calendar date; `SetFullYearNext` uses it. |
| JsDate.MakeDay | example/src/App.tsx:95-153 | ECMAScript MakeDay: the month carries into the year and the day of month overflows linearly; `MakeDaySameYear` and `MakeDayNextYear` state it. |
| JsDate.SetDate | example/src/App.tsx:95 | `setDate(dt)`: day dt of the same month, time of day kept; `SetDateShift` and `SetDateFirst` state its effect. |
| JsDate.SetMonth | example/src/App.tsx:105 | `setMonth(m)`: same day of month in month m, carrying into the year; `SetMonthNext` states its effect. |
| JsDate.SetMonthDate | example/src/App.tsx:108 | `setMonth(m, dt)`: day dt of month m; `SetMonthDateJanuaryFirst` and `SetMonthDateLastDay` state its effect. |
| JsDate.SetFullYear | example/src/App.tsx:110 | `setFullYear(y)`: same month and day in year y; `SetFullYearNext` states its effect. |
| JsDate.SetFullYearMonthDate | example/src/App.tsx:153 | `setFullYear(y, m, dt)`: day dt of month m of year y; `SetFullYearLastDay` states its effect. |
| JsDate.SetHours | example/src/App.tsx:150 | `setHours(h, mi, s, ms)`: the same day at that time; `PeriodEndLastDay` states the Day period end it gives. |
| Aggregation.Origin | example/src/App.tsx:87 | A walk's first cursor lies in the same day as the instant and not after it: the instant itself as written, midnight when corrected. |
| Aggregation.Tasks | example/src/App.tsx:79 | The filter's result is no longer than the items and every element is a task; a list of task items only is kept whole, in order. |
| Aggregation.TasksAppend | example/src/App.tsx:79 | The filter of a concatenation is the concatenation of the filters, so every task item is kept, repeated ones included, in order. |
| Aggregation.TasksMembers | example/src/App.tsx:79 | An item is kept exactly when it is in the list and is a task. |
| Aggregation.MinStart | example/src/App.tsx:82 | The earliest start is at most every task's start and equals one of them. |
| Aggregation.MaxEnd | example/src/App.tsx:83 | The latest end is at least every task's end and equals one of them. |
| Aggregation.AddAllStep | example/src/App.tsx:118-163 | Adding the first i+1 tasks is adding task i to the buckets of the first i. |
| Aggregation.AddAll | example/src/App.tsx:118-163 | The buckets after the `forEach` over the tasks, in order; `AddAllAt` states them key by key. |
| Aggregation.Seeds | example/src/App.tsx:82-115 | The keys of the seed walk from the earliest start to the latest end, none without tasks; `AggregateValues`, `NoSeeds` and `DayStartSeeded` state what they are. |
| Aggregation.SeedMap | example/src/App.tsx:114 | One zero-valued bucket per seeded key; `SeedBuckets` proves the seed loop builds it and `AggregateValues` states its effect. |
| Aggregation.AddWalkAt | example/src/App.tsx:121-162 | A task's walk credits each bucket it visits once, with the positive overlap only; a bucket it visits that is missing becomes NaN; no other bucket changes. |
| Aggregation.AddTaskAt | example/src/App.tsx:118-162 | The same, for a task's whole walk from its start. |
| Aggregation.AddTaskNeverDecreases | example/src/App.tsx:155-161 | Adding a task never removes a bucket and never lowers a finite value. |
| Aggregation.AddAllAt | example/src/App.tsx:118-163 | After all tasks, a bucket exists iff it was seeded or some task's walk hit it. A finite seeded bucket gains exactly the total of the overlaps. NaN stays NaN. A bucket created by a task is NaN. |
| Aggregation.TouchedSnoc | example/src/App.tsx:118 | A bucket is touched by a list of tasks plus one iff the list touches it or the last task hits it. |
| Aggregation.TotalNonNegative | example/src/App.tsx:159-161 | The sum of the credited overlaps is never negative. |
| Aggregation.TotalAtLeast | example/src/App.tsx:159-161 | Each task's credited overlap is part of a bucket's total. |
| Aggregation.AggregateValues | example/src/App.tsx:86-163 | The result's buckets are exactly the seeded ones and those a task hit. A seeded bucket holds the sum of the positive overlaps, never negative. An unseeded bucket a task hit is NaN. |
| Aggregation.TasksSkipNonTask | example/src/App.tsx:79 | Inserting a non-task item anywhere does not change the filtered tasks. |
| Aggregation.NonTaskIgnored | example/src/App.tsx:79 | Inserting a non-task item anywhere does not change any bucket. |
| Aggregation.NoTasks | example/src/App.tsx:79 | A list without task items filters to no tasks. |
| Aggregation.NoSeeds | example/src/App.tsx:82-89 | Without tasks, the seed walk creates no bucket. |
| Aggregation.NoTasksNoBuckets | example/src/App.tsx:76-89 | A list without task items (including the empty list) yields no bucket. |
| Aggregation.EntriesSpec | example/src/App.tsx:164-170 | Every bucket appears exactly once, in strictly ascending date order, dated at midnight of its first day, with its value. Its name is `""` exactly when the value is 0, and `"h"` exactly when it is not, NaN included. |
| Aggregation.Overlap | example/src/App.tsx:155-157 | `min(end, periodEnd) - max(start, periodStart)`; `OverlapWindow` and `DayStartHit` state what a positive overlap means. |
| Aggregation.Credited | example/src/App.tsx:160 | The value of `mapDuration[key] += n`: NaN on a missing key; `AddWalkAt` states its effect. |
| Aggregation.Plus | example/src/App.tsx:160 | `v + n` on a bucket value: NaN stays NaN; `AddWalkAt` states its effect. |
| Aggregation.Credit | example/src/App.tsx:159-160 | Adds a positive overlap to a bucket and leaves the map alone otherwise; `AddWalkAt` and `AddTaskNeverDecreases` state its effect. |
| Aggregation.AddWalk | example/src/App.tsx:121-162 | The buckets after one task's walk from a cursor; `AddWalkAt` characterises it key by key. |
| Aggregation.AddTask | example/src/App.tsx:118-162 | The buckets after one task's walk from its start; `AddTaskAt` characterises it. |
| Aggregation.Aggregate | example/src/App.tsx:86-163 | The buckets the engine ends with; `AggregateValues` and `DayStartNoNaN` characterise it. |
| Aggregation.Label | example/src/App.tsx:169 | `""` for a value of exactly 0, `"h"` otherwise (NaN included); `EntriesSpec` states both halves per entry. |
| Aggregation.Entries | example/src/App.tsx:164-170 | The sorted entries of the buckets; `EntriesSpec` characterises them. |
| Aggregation.SeedBuckets | example/src/App.tsx:86-115 | The seed loop creates exactly one zero-valued bucket per key of the walk from the start to the limit. |
| Aggregation.CreditTask | example/src/App.tsx:119-162 | The per-task loop leaves the buckets that the task's walk specification gives. |
| Aggregation.CalculateHoursByPeriod | example/src/App.tsx:74-172 | The result is the sorted entries of the aggregated buckets. |
| KeyOrder.LeastExists | example/src/App.tsx:164-165 | A non-empty set of keys has a least element. |
| KeyOrder.Least | example/src/App.tsx:164-165 | The least key is in the set and at most every key. |
| KeyOrder.SortedKeys | example/src/App.tsx:164-165 | The sorted keys are strictly ascending and are exactly the set's keys. |
| MidnightStart.OvernightWalk | example/src/App.tsx:87-89 | The seed walk for a task from 12:00 on day 0 to 06:00 on day 1 creates only day 0. |
| MidnightStart.RawWalkSkipsDay | example/src/App.tsx:87-115 | That task overlaps day 1 by 6 h, yet as written no bucket for day 1 exists. |
| MidnightStart.RawWalkUnseededNaN | example/src/App.tsx:119-160 | As written, adding a task from 00:00 to 06:00 on day 1 makes day 1's bucket NaN. |
| MidnightStart.OverlapWindow | example/src/App.tsx:155-159 | A positive overlap with a bucket bounds the task's first and last days around the bucket. |
| MidnightStart.OverlapAfterFirstBucket | example/src/App.tsx:155-159 | A bucket a task overlaps never starts before the bucket of the task's first day. |
| MidnightStart.MidnightWalkReaches | example/src/App.tsx:87-115 | A walk from midnight reaches every aligned bucket from the first bucket up to the last one whose midnight is at or before the limit. |
| MidnightStart.DayStartHit | example/src/App.tsx:119-161 | From midnight, a task's walk hits exactly the aligned buckets it overlaps. |
| MidnightStart.DayStartSeeded | example/src/App.tsx:87-115 | From midnight, every bucket a task's walk hits was created by the seed walk. |
| MidnightStart.DayStartNoNaN | example/src/App.tsx:86-163 | From midnight, the buckets are exactly the seeded ones and none is NaN. Each holds the sum of the positive overlaps. |
| MidnightStart.DayStartCredits | example/src/App.tsx:155-161 | From midnight, every bucket a task overlaps exists and holds at least that overlap. |
| CapacityChart.TickRowSnoc | src/components/capacity-chart/capacity-chart-columns.tsx:53-61 | The ticks for the first n+1 positions are those for the first n plus one at n·columnWidth. |
| CapacityChart.TodayPlaceholder | src/components/capacity-chart/capacity-chart-columns.tsx:50-104 | The today marker stays the empty placeholder exactly when no position matches. |
| CapacityChart.TodayIsLastMatch | src/components/capacity-chart/capacity-chart-columns.tsx:62-104 | When position i matches and no later one does, the marker is the one i sets; within a position the right-to-left marker wins. |
| CapacityChart.LtrTodayAscending | src/components/capacity-chart/capacity-chart-columns.tsx:62-85 | With ascending dates, left to right, a position with `dates[i] < now <= dates[i+1]`, or the last position within the extrapolated step, puts the marker at i·columnWidth with width columnWidth and the chart's height. |
| CapacityChart.RtlTodayDescending | src/components/capacity-chart/capacity-chart-columns.tsx:88-104 | With descending dates, right to left, a position with `dates[i] >= now > dates[i+1]` puts the marker at (i+1)·columnWidth. |
| CapacityChart.FindEntry | src/components/capacity-chart/capacity-chart-columns.tsx:125-127 | The lookup returns the first entry whose date falls in the date's second, and none exactly when no entry does. |
| CapacityChart.MaxValue | src/components/capacity-chart/capacity-chart-columns.tsx:112 | The maximum is at least 1 and at least every value, and it is 1 or one of the values: the largest of the values and 1. It is NaN exactly when some value is NaN. |
| CapacityChart.ColumnsOfDates | src/components/capacity-chart/capacity-chart-columns.tsx:118-160 | The columns are exactly the positions whose date has an entry, once each, in the order of the dates. |
| CapacityChart.ColumnPlacement | src/components/capacity-chart/capacity-chart-columns.tsx:133-157 | A column sits at i·columnWidth + 5 with width columnWidth − 10. It has a caption, centred on its slot with the entry's name, exactly when the name is non-empty. |
| CapacityChart.ColumnHeightWithin | src/components/capacity-chart/capacity-chart-columns.tsx:128-140 | Without NaN or negative values and with a height of at least 16, a column's height lies within [0, height − 16] and its top is at the height minus the column's height. |
| CapacityChart.ColumnHeightBounds | src/components/capacity-chart/capacity-chart-columns.tsx:131 | A value within [0, maxValue] gives a column height within [0, height − 16]. |
| CapacityChart.ScaledWithin | src/components/capacity-chart/capacity-chart-columns.tsx:131 | Scaling by value / max onto a span stays within the span. |
| CapacityChart.NaNValueSpoilsColumns | src/components/capacity-chart/capacity-chart-columns.tsx:112-140 | One NaN value makes every column's height and top NaN. |
| CapacityChart.CapacityChartColumns | src/components/capacity-chart/capacity-chart-columns.tsx:45-173 | The ticks are two rows, one per loop, at i·columnWidth. The marker is the one the positions select. The columns are those of the dates that have an entry. |
| CapacityChart.Second | src/components/capacity-chart/capacity-chart-columns.tsx:109-120 | The part of an instant that `Date.toString()` prints (whole seconds); `FindEntry` compares dates by it. |
| CapacityChart.ValueSeconds | src/components/capacity-chart/capacity-chart-columns.tsx:108-110 | The set of entry dates as `Date.toString()` distinguishes them; `FindEntry` finds an entry exactly for its members, and `ColumnsOfDates` draws a column exactly for them. |
| CapacityChart.TickRow | src/components/capacity-chart/capacity-chart-columns.tsx:53-61 | One tick per position at i·columnWidth; `CapacityChartColumns` proves both loops produce it. |
| CapacityChart.LtrToday | src/components/capacity-chart/capacity-chart-columns.tsx:62-75 | The left-to-right test, with the extrapolation past the last date; `LtrTodayAscending` states the marker it gives. |
| CapacityChart.RtlToday | src/components/capacity-chart/capacity-chart-columns.tsx:88-93 | The right-to-left test; `RtlTodayDescending` states the marker it gives. |
| CapacityChart.MarkerAt | src/components/capacity-chart/capacity-chart-columns.tsx:76-104 | The marker one position sets, the right-to-left one winning; `TodayIsLastMatch` uses it. |
| CapacityChart.Matches | src/components/capacity-chart/capacity-chart-columns.tsx:62-93 | A position sets the marker: the left-to-right test, or the right-to-left one when `rtl`; `TodayPlaceholder` and `TodayIsLastMatch` use it. |
| CapacityChart.TodayAfter | src/components/capacity-chart/capacity-chart-columns.tsx:51-106 | The marker after the first loop; `TodayPlaceholder` and `TodayIsLastMatch` characterise it. |
| CapacityChart.TaskValue | src/components/capacity-chart/capacity-chart-columns.tsx:128 | The value or else 0 (line 128): NaN and 0 read as 0; `ColumnHeightWithin` uses it. |
| CapacityChart.ColumnHeight | src/components/capacity-chart/capacity-chart-columns.tsx:131 | `taskValue / maxValue * (y - 16)`, NaN when the maximum is; `ColumnHeightBounds` bounds it. |
| CapacityChart.ColumnAt | src/components/capacity-chart/capacity-chart-columns.tsx:125-159 | The column of one position; `ColumnPlacement` and `ColumnHeightWithin` state its geometry. |
| CapacityChart.ColumnsUpTo | src/components/capacity-chart/capacity-chart-columns.tsx:118-160 | The columns of the second loop; `ColumnsOfDates` characterises them. |

## Left out

- Time zones and local time are not modelled. `toISOString()` reads the UTC date, while `new Date(key)` and `Date.toString()` use local time. The model has one UTC timeline, so a key parses back to midnight of its own day.
- String keys are not modelled. Keys are day numbers, and the sort of `YYYY-MM-DD` strings is modelled as ascending day order. The two agree for years 0 to 9999.
- The key suffix `" 00:00:00"` and the ISO string formatting are not modelled.
- ViewModes other than Day, Week, Month and Year are not modelled. For those, the source's switch leaves the cursor unchanged and the walk does not terminate.
- CapacityChart.FindEntry: the `Date.toString()` comparison is modelled as equality of whole seconds (t / 1000). That is what the printed string distinguishes in one time zone.
- CapacityChart.LtrTodayAscending: `addToDate(date, ms, "millisecond")` is modelled as plain millisecond addition. The helper's own code is not part of this model.
- CapacityChart.CapacityChartColumns: the background rect and the bottom row line are not modelled, because they only draw constants. CSS class names, rounded corners, font attributes, fill colours and React keys are also left out. The column records keep their date position.
- Entry values are modelled as integer milliseconds, as the engine produces them. Fractional numbers and Infinity are not modelled.
- Invalid dates (`NaN` instants) are not modelled in either component.
- The React wiring is not modelled: `useCallback`, state, effects and the event handlers of the example application.

## Findings

| source | as written | input that shows it | evidently intended | confidence | as-written member | corrected member |
|---|---|---|---|---|---|---|
| example/src/App.tsx:87-121 | Both walks start at the raw start instant and keep its time of day, so a walk stops before a bucket whose first instant is within the limit. | Day view, one task from 12:00 on day 0 to 06:00 on day 1: no bucket for day 1 is created and its 6 h are lost. | Walks start at midnight of the start day, so every overlapped bucket is seeded and credited. | not executed | MidnightStart.RawWalkSkipsDay | MidnightStart.DayStartCredits |
| example/src/App.tsx:119-160 | A task's walk can reach a bucket the seed walk never created, and `mapDuration[key] += n` on it gives NaN. | Day view, tasks 12:00 day 0 – 06:00 day 1 and 00:00 – 06:00 day 1: the bucket of day 1 is NaN. | Every bucket a task reaches exists and holds a finite sum of overlaps. | not executed | MidnightStart.RawWalkUnseededNaN | MidnightStart.DayStartNoNaN |
