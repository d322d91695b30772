/**
 * The columns of the capacity chart (CapacityChartColumns): one tick line per
 * date from each of its two loops, the "today" marker, and one value column
 * per date that has an entry, scaled by the largest value.
 *
 * SVG output is reduced to records; coordinates are exact reals. The wall
 * clock read is the parameter `now`.
 */
module CapacityChart {
  import opened Aggregation

  /**
   * A JavaScript number that may be NaN, as an SVG coordinate: a real number
   * of pixels. Bucket values (Value) are integer milliseconds instead.
   */
  datatype Number = Num(r: real) | NotANumber

  datatype Option<T> = None | Some(value: T)

  /** A vertical tick line at x, from the top of the chart to its height. */
  datatype Tick = Tick(x: real)

  datatype Rect = Rect(x: real, y: Number, width: real, height: Number)

  /** A column's text caption. */
  datatype Caption = Caption(x: real, y: Number, text: string)

  /** The value column drawn for the date at position index. */
  datatype Column = Column(index: int, bar: Rect, caption: Option<Caption>)

  /** The today marker: the empty placeholder rect, or a full-height rect at x (y is 0). */
  datatype TodayMarker = Placeholder | Marker(x: real, width: real, height: real)

  datatype Chart = Chart(ticks: seq<Tick>, columns: seq<Column>, today: TodayMarker)

  /** Date.toString() prints whole seconds: two instants compare equal there when they share a second. */
  function Second(t: int): int {
    t / 1000
  }

  function Minus(a: real, b: Number): Number {
    match b
    case Num(r) => Num(a - r)
    case NotANumber => NotANumber
  }

  // Ticks.

  /** One tick per position below n, at position times the column width. */
  function TickRow(n: nat, columnWidth: real): seq<Tick> {
    seq(n, i => Tick(i as real * columnWidth))
  }

  lemma TickRowSnoc(n: nat, columnWidth: real)
    ensures TickRow(n + 1, columnWidth) == TickRow(n, columnWidth) + [Tick(n as real * columnWidth)]
  {
    var a := TickRow(n + 1, columnWidth);
    var b := TickRow(n, columnWidth) + [Tick(n as real * columnWidth)];
    assert |a| == |b|;
    forall k | 0 <= k < |a|
      ensures a[k] == b[k]
    {
    }
  }

  // The today marker.

  /** The left-to-right test: now is after date i and at most the next date (extrapolated past the last). */
  predicate LtrToday(dates: seq<int>, now: int, i: int)
    requires 0 <= i < |dates|
  {
    (i + 1 != |dates| && dates[i] < now && dates[i + 1] >= now) ||
    (i != 0 && i + 1 == |dates| && dates[i] < now && dates[i] + (dates[i] - dates[i - 1]) >= now)
  }

  /** The right-to-left test: now is at most date i and after the next date. */
  predicate RtlToday(dates: seq<int>, now: int, i: int)
    requires 0 <= i < |dates|
  {
    i + 1 != |dates| && dates[i] >= now && dates[i + 1] < now
  }

  predicate Matches(dates: seq<int>, now: int, rtl: bool, i: int)
    requires 0 <= i < |dates|
  {
    LtrToday(dates, now, i) || (rtl && RtlToday(dates, now, i))
  }

  /** The marker position i sets: the right-to-left one, drawn one column further, wins within a position. */
  function MarkerAt(dates: seq<int>, now: int, columnWidth: real, height: real, rtl: bool, i: int): TodayMarker
    requires 0 <= i < |dates|
  {
    if rtl && RtlToday(dates, now, i) then Marker(i as real * columnWidth + columnWidth, columnWidth, height)
    else if LtrToday(dates, now, i) then Marker(i as real * columnWidth, columnWidth, height)
    else Placeholder
  }

  /** The marker after the positions below n have been examined. */
  function TodayAfter(dates: seq<int>, now: int, columnWidth: real, height: real, rtl: bool, n: int): TodayMarker
    requires 0 <= n <= |dates|
  {
    if n == 0 then Placeholder
    else if Matches(dates, now, rtl, n - 1) then MarkerAt(dates, now, columnWidth, height, rtl, n - 1)
    else TodayAfter(dates, now, columnWidth, height, rtl, n - 1)
  }

  /** The marker is the placeholder exactly when no position matches. */
  lemma {:induction false} TodayPlaceholder(dates: seq<int>, now: int, columnWidth: real, height: real, rtl: bool, n: int)
    requires 0 <= n <= |dates|
    ensures TodayAfter(dates, now, columnWidth, height, rtl, n) == Placeholder
        <==> forall i | 0 <= i < n :: !Matches(dates, now, rtl, i)
  {
    if n > 0 {
      TodayPlaceholder(dates, now, columnWidth, height, rtl, n - 1);
    }
  }

  /** When position i matches and no later one does, the marker is the one i sets. */
  lemma {:induction false} TodayIsLastMatch(dates: seq<int>, now: int, columnWidth: real, height: real, rtl: bool, n: int, i: int)
    requires 0 <= i < n <= |dates| && Matches(dates, now, rtl, i)
    requires forall j | i < j < n :: !Matches(dates, now, rtl, j)
    ensures TodayAfter(dates, now, columnWidth, height, rtl, n) == MarkerAt(dates, now, columnWidth, height, rtl, i)
  {
    if i < n - 1 {
      TodayIsLastMatch(dates, now, columnWidth, height, rtl, n - 1, i);
    }
  }

  /** With ascending dates, left to right, a matching position is the only one: the marker is its column. */
  lemma LtrTodayAscending(dates: seq<int>, now: int, columnWidth: real, height: real, i: int)
    requires forall a, b | 0 <= a < b < |dates| :: dates[a] < dates[b]
    requires 0 <= i < |dates| && LtrToday(dates, now, i)
    ensures TodayAfter(dates, now, columnWidth, height, false, |dates|) == Marker(i as real * columnWidth, columnWidth, height)
  {
    forall j | i < j < |dates|
      ensures !Matches(dates, now, false, j)
    {
      assert dates[i + 1] <= dates[j] by {
        if i + 1 < j {
          assert dates[i + 1] < dates[j];
        }
      }
    }
    TodayIsLastMatch(dates, now, columnWidth, height, false, |dates|, i);
  }

  /** With descending dates, right to left, a matching position is the only one: the marker is one column to its right. */
  lemma RtlTodayDescending(dates: seq<int>, now: int, columnWidth: real, height: real, i: int)
    requires forall a, b | 0 <= a < b < |dates| :: dates[a] > dates[b]
    requires 0 <= i < |dates| && RtlToday(dates, now, i)
    ensures TodayAfter(dates, now, columnWidth, height, true, |dates|)
         == Marker(i as real * columnWidth + columnWidth, columnWidth, height)
  {
    forall j | i < j < |dates|
      ensures !Matches(dates, now, true, j)
    {
      assert dates[j] <= dates[i + 1] by {
        if i + 1 < j {
          assert dates[i + 1] > dates[j];
        }
      }
    }
    TodayIsLastMatch(dates, now, columnWidth, height, true, |dates|, i);
  }

  // Value columns.

  /** The seconds of the entries' dates (the source's set of normalised date strings). */
  function ValueSeconds(values: seq<Entry>): set<int> {
    set j | 0 <= j < |values| :: Second(values[j].date)
  }

  /** Array.find: the first entry whose date falls in second s. */
  function FindEntry(values: seq<Entry>, s: int): (r: Option<int>)
    ensures r.Some? ==> 0 <= r.value < |values| && Second(values[r.value].date) == s
    ensures r.Some? ==> forall j | 0 <= j < r.value :: Second(values[j].date) != s
    ensures r.None? <==> s !in ValueSeconds(values)
  {
    if values == [] then None
    else if Second(values[0].date) == s then Some(0)
    else
      var rest := FindEntry(values[1..], s);
      assert forall j | 1 <= j < |values| :: values[j] == values[1..][j - 1];
      assert ValueSeconds(values) == {Second(values[0].date)} + ValueSeconds(values[1..]) by {
        forall x | x in ValueSeconds(values)
          ensures x in {Second(values[0].date)} + ValueSeconds(values[1..])
        {
          var j :| 0 <= j < |values| && x == Second(values[j].date);
          if j > 0 {
            assert x == Second(values[1..][j - 1].date);
          }
        }
      }
      match rest
      case None => None
      case Some(j) => Some(j + 1)
  }

  /** `value || 0`: NaN and 0 are falsy and read as 0. */
  function TaskValue(v: Value): real {
    match v
    case Finite(n) => n as real
    case NaN => 0.0
  }

  /** Math.max of the values and 1: NaN as soon as one value is NaN. */
  function MaxValue(values: seq<Entry>): (r: Number)
    ensures r.Num? ==> r.r >= 1.0
    ensures r.Num? ==> forall j | 0 <= j < |values| :: values[j].value.Finite? && values[j].value.ms as real <= r.r
    ensures r.NotANumber? <==> exists j | 0 <= j < |values| :: values[j].value == NaN
    ensures r.Num? ==> r.r == 1.0 || exists j | 0 <= j < |values| :: values[j].value.Finite? && values[j].value.ms as real == r.r
  {
    if values == [] then Num(1.0)
    else
      var rest := MaxValue(values[1..]);
      assert forall j | 1 <= j < |values| :: values[j] == values[1..][j - 1];
      match (values[0].value, rest)
      case (Finite(n), Num(m)) => if n as real >= m then Num(n as real) else Num(m)
      case (_, _) => NotANumber
  }

  /** taskValue / maxValue * (height - 16); maxValue is never below 1. */
  function ColumnHeight(taskValue: real, maxValue: Number, height: real): Number
    requires maxValue.Num? ==> maxValue.r >= 1.0
  {
    match maxValue
    case Num(m) => Num(taskValue / m * (height - 16.0))
    case NotANumber => NotANumber
  }

  /** The column for the date at position i, which has an entry. */
  function ColumnAt(values: seq<Entry>, dates: seq<int>, columnWidth: real, height: real, i: int): Column
    requires 0 <= i < |dates| && Second(dates[i]) in ValueSeconds(values)
  {
    var e := values[FindEntry(values, Second(dates[i])).value];
    var x := i as real * columnWidth;
    var h := ColumnHeight(TaskValue(e.value), MaxValue(values), height);
    Column(i, Rect(x + 5.0, Minus(height, h), columnWidth - 10.0, h),
           if e.name != "" then Some(Caption(x + columnWidth / 2.0, Minus(height - 12.0, h), e.name)) else None)
  }

  /** The columns for the positions below n. */
  function ColumnsUpTo(values: seq<Entry>, dates: seq<int>, columnWidth: real, height: real, n: int): seq<Column>
    requires 0 <= n <= |dates|
  {
    if n == 0 then []
    else
      ColumnsUpTo(values, dates, columnWidth, height, n - 1) +
      (if Second(dates[n - 1]) in ValueSeconds(values) then [ColumnAt(values, dates, columnWidth, height, n - 1)] else [])
  }

  /**
   * The columns are exactly the positions whose date has an entry, once each,
   * in the order of the dates.
   */
  lemma {:induction false} ColumnsOfDates(values: seq<Entry>, dates: seq<int>, columnWidth: real, height: real, n: int)
    requires 0 <= n <= |dates|
    ensures var cs := ColumnsUpTo(values, dates, columnWidth, height, n);
            (forall k | 0 <= k < |cs| ::
               0 <= cs[k].index < n && Second(dates[cs[k].index]) in ValueSeconds(values) &&
               cs[k] == ColumnAt(values, dates, columnWidth, height, cs[k].index)) &&
            (forall k, l | 0 <= k < l < |cs| :: cs[k].index < cs[l].index) &&
            (forall i | 0 <= i < n && Second(dates[i]) in ValueSeconds(values) ::
               exists k | 0 <= k < |cs| :: cs[k].index == i)
  {
    if n > 0 {
      ColumnsOfDates(values, dates, columnWidth, height, n - 1);
      var prev := ColumnsUpTo(values, dates, columnWidth, height, n - 1);
      var cs := ColumnsUpTo(values, dates, columnWidth, height, n);
      assert forall k | 0 <= k < |prev| :: cs[k] == prev[k];
      if Second(dates[n - 1]) in ValueSeconds(values) {
        assert cs[|prev|].index == n - 1;
      }
    }
  }

  /**
   * A column sits 5 units inside its slot and is 10 units narrower than it;
   * its caption, centred on the slot, exists exactly when the entry's name
   * is not empty.
   */
  lemma ColumnPlacement(values: seq<Entry>, dates: seq<int>, columnWidth: real, height: real, i: int)
    requires 0 <= i < |dates| && Second(dates[i]) in ValueSeconds(values)
    ensures var c := ColumnAt(values, dates, columnWidth, height, i);
            var e := values[FindEntry(values, Second(dates[i])).value];
            c.index == i && c.bar.x == i as real * columnWidth + 5.0 && c.bar.width == columnWidth - 10.0 &&
            (c.caption.Some? <==> e.name != "") &&
            (c.caption.Some? ==> c.caption.value.x == c.bar.x - 5.0 + columnWidth / 2.0 && c.caption.value.text == e.name)
  {
  }

  /**
   * With no NaN and no negative value and a chart at least 16 high, every
   * column's height lies within [0, height - 16] and its top is the chart's
   * height minus the column's.
   */
  lemma ColumnHeightWithin(values: seq<Entry>, dates: seq<int>, columnWidth: real, height: real, i: int)
    requires 0 <= i < |dates| && Second(dates[i]) in ValueSeconds(values)
    requires MaxValue(values).Num? && height >= 16.0
    requires forall j | 0 <= j < |values| && values[j].value.Finite? :: values[j].value.ms >= 0
    ensures var c := ColumnAt(values, dates, columnWidth, height, i);
            c.bar.height.Num? && 0.0 <= c.bar.height.r <= height - 16.0 &&
            c.bar.y == Num(height - c.bar.height.r)
  {
    var j := FindEntry(values, Second(dates[i])).value;
    var m := MaxValue(values);
    var v := TaskValue(values[j].value);
    assert 0.0 <= v <= m.r;
    ColumnHeightBounds(v, m, height);
  }

  /** A value within [0, maxValue] gives a column height within [0, height - 16]. */
  lemma ColumnHeightBounds(taskValue: real, maxValue: Number, height: real)
    requires maxValue.Num? && maxValue.r >= 1.0 && 0.0 <= taskValue <= maxValue.r && height >= 16.0
    ensures ColumnHeight(taskValue, maxValue, height).Num?
    ensures 0.0 <= ColumnHeight(taskValue, maxValue, height).r <= height - 16.0
  {
    var span := height - 16.0;
    var r := taskValue / maxValue.r * span;
    ScaledWithin(taskValue, maxValue.r, span);
    assert 0.0 <= r <= span;
    assert ColumnHeight(taskValue, maxValue, height) == Num(r);
  }

  /** A value within [0, m] scaled by v / m onto [0, span] stays within [0, span]. */
  lemma ScaledWithin(v: real, m: real, span: real)
    requires 0.0 <= v <= m && m >= 1.0 && span >= 0.0
    ensures 0.0 <= v / m * span <= span
  {
    var q := v / m;
    assert q * m == v;
    assert q <= 1.0;
    assert q * span <= 1.0 * span;
  }

  /** One NaN value makes maxValue NaN, and then every column's height and top are NaN. */
  lemma NaNValueSpoilsColumns(values: seq<Entry>, dates: seq<int>, columnWidth: real, height: real, i: int, j: int)
    requires 0 <= j < |values| && values[j].value == NaN
    requires 0 <= i < |dates| && Second(dates[i]) in ValueSeconds(values)
    ensures ColumnAt(values, dates, columnWidth, height, i).bar.height == NotANumber
    ensures ColumnAt(values, dates, columnWidth, height, i).bar.y == NotANumber
  {
  }

  // The component.

  /**
   * CapacityChartColumns: the ticks of both loops, the today marker of the
   * first loop and the value columns of the second.
   */
  method CapacityChartColumns(values: seq<Entry>, dates: seq<int>, columnWidth: real, height: real, rtl: bool, now: int)
    returns (chart: Chart)
    ensures chart.ticks == TickRow(|dates|, columnWidth) + TickRow(|dates|, columnWidth)
    ensures chart.today == TodayAfter(dates, now, columnWidth, height, rtl, |dates|)
    ensures chart.columns == ColumnsUpTo(values, dates, columnWidth, height, |dates|)
  {
    var y := height;
    var tickX := 0.0;
    var ticks: seq<Tick> := [];
    var today := Placeholder;
    for i := 0 to |dates|
      invariant tickX == i as real * columnWidth
      invariant ticks == TickRow(i, columnWidth)
      invariant today == TodayAfter(dates, now, columnWidth, y, rtl, i)
    {
      var date := dates[i];
      TickRowSnoc(i, columnWidth);
      ticks := ticks + [Tick(tickX)];
      if (i + 1 != |dates| && date < now && dates[i + 1] >= now) ||
         (i != 0 && i + 1 == |dates| && date < now && date + (date - dates[i - 1]) >= now) {
        today := Marker(tickX, columnWidth, y);
      }
      if rtl && i + 1 != |dates| && date >= now && dates[i + 1] < now {
        today := Marker(tickX + columnWidth, columnWidth, y);
      }
      tickX := tickX + columnWidth;
    }

    var valueSeconds := ValueSeconds(values);
    var maxValue := MaxValue(values);
    var columns: seq<Column> := [];
    var tickxx := 0.0;
    for i := 0 to |dates|
      invariant tickxx == i as real * columnWidth
      invariant ticks == TickRow(|dates|, columnWidth) + TickRow(i, columnWidth)
      invariant columns == ColumnsUpTo(values, dates, columnWidth, y, i)
    {
      var date := dates[i];
      var dateStr := Second(date);
      if dateStr in valueSeconds {
        var task := values[FindEntry(values, dateStr).value];
        var taskValue := TaskValue(task.value);
        var columnHeight := ColumnHeight(taskValue, maxValue, y);
        var bar := Rect(tickxx + 5.0, Minus(y, columnHeight), columnWidth - 10.0, columnHeight);
        var caption := if task.name != "" then Some(Caption(tickxx + columnWidth / 2.0, Minus(y - 12.0, columnHeight), task.name)) else None;
        columns := columns + [Column(i, bar, caption)];
      }
      TickRowSnoc(i, columnWidth);
      ticks := ticks + [Tick(tickxx)];
      tickxx := tickxx + columnWidth;
    }
    chart := Chart(ticks, columns, today);
  }
}
