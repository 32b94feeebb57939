/** The decisions `ChartManager.create_line_chart` takes before anything is
    drawn: which rows are plotted, whether the no-data placeholder is shown
    instead, the chart's title and axis labels, and the tick plan of the
    date axis. A date is represented by its day number (`date.toordinal()`),
    so the span `(max_date - min_date).days` is a difference of integers. */
module ChartAxis {
  import opened Common

  /** One `(date, value)` pair of the series handed to the chart. */
  datatype Row<V> = Row(day: int, value: Option<V>)

  // ---------------------------------------------------------------------
  // Filtering
  // ---------------------------------------------------------------------

  /** The rows whose value is present, in their original order: the
      reference the two separate comprehensions of the source must agree
      with. */
  function Kept<V>(data: seq<Row<V>>): (k: seq<Row<V>>)
    ensures |k| <= |data|
  {
    if data == [] then []
    else (if data[0].value.Some? then [data[0]] else []) + Kept(data[1..])
  }

  /** Kept holds the rows of the series that have a value, and no others. */
  lemma {:induction false} KeptMembers<V>(data: seq<Row<V>>)
    ensures forall i :: 0 <= i < |Kept(data)| ==> Kept(data)[i] in data && Kept(data)[i].value.Some?
    ensures forall i :: 0 <= i < |data| && data[i].value.Some? ==> data[i] in Kept(data)
  {
    if data != [] {
      KeptMembers(data[1..]);
      var k := Kept(data[1..]);
      assert Kept(data) == (if data[0].value.Some? then [data[0]] else []) + k;
      forall i | 0 <= i < |data| && data[i].value.Some? ensures data[i] in Kept(data) {
        if i > 0 {
          assert data[i] == data[1..][i - 1];
        }
      }
    }
  }

  /** `[row[1] for row in data if row[1] is not None]`. */
  function PresentValues<V>(data: seq<Row<V>>): seq<V> {
    if data == [] then []
    else (if data[0].value.Some? then [data[0].value.value] else []) + PresentValues(data[1..])
  }

  /** `[dates[i] for i, row in enumerate(data) if row[1] is not None]`. */
  function PresentDates<V>(data: seq<Row<V>>): seq<int> {
    if data == [] then []
    else (if data[0].value.Some? then [data[0].day] else []) + PresentDates(data[1..])
  }

  /** The two filtered lists have equal length and, position by position,
      pair up into exactly the kept rows: the dates stay aligned with their
      values and no None survives. */
  lemma {:induction false} FilterAligned<V>(data: seq<Row<V>>)
    ensures |PresentDates(data)| == |PresentValues(data)| == |Kept(data)|
    ensures forall j :: 0 <= j < |Kept(data)| ==>
      Kept(data)[j] == Row(PresentDates(data)[j], Some(PresentValues(data)[j]))
  {
    if data != [] {
      FilterAligned(data[1..]);
      var k, d, v := Kept(data[1..]), PresentDates(data[1..]), PresentValues(data[1..]);
      if data[0].value.Some? {
        assert Kept(data) == [data[0]] + k;
        assert PresentDates(data) == [data[0].day] + d;
        assert PresentValues(data) == [data[0].value.value] + v;
      } else {
        assert Kept(data) == k && PresentDates(data) == d && PresentValues(data) == v;
      }
    }
  }

  /** Nothing survives the filter exactly when every value is None (which
      includes the empty series). */
  lemma NothingKeptIffAllNone<V>(data: seq<Row<V>>)
    ensures PresentValues(data) == [] <==> forall r :: r in data ==> r.value.None?
  {
    FilterAligned(data);
    KeptMembers(data);
    if PresentValues(data) != [] {
      assert Kept(data)[0] in data;
    } else {
      forall r | r in data ensures r.value.None? {
        var i :| 0 <= i < |data| && data[i] == r;
        assert data[i] !in Kept(data);
      }
    }
  }

  // ---------------------------------------------------------------------
  // Date axis
  // ---------------------------------------------------------------------

  /** `min(dates)`. */
  function Min(s: seq<int>): (m: int)
    requires s != []
    ensures m in s
    ensures forall x :: x in s ==> m <= x
  {
    if |s| == 1 then s[0]
    else
      assert forall x :: x in s ==> x == s[0] || x in s[1..];
      var rest := Min(s[1..]); if s[0] <= rest then s[0] else rest
  }

  /** `max(dates)`. */
  function Max(s: seq<int>): (m: int)
    requires s != []
    ensures m in s
    ensures forall x :: x in s ==> x <= m
  {
    if |s| == 1 then s[0]
    else
      assert forall x :: x in s ==> x == s[0] || x in s[1..];
      var rest := Max(s[1..]); if s[0] >= rest then s[0] else rest
  }

  /** What a tick locator places: every `interval`-th day, or the first
      day of every month. */
  datatype Locator = Days(interval: nat) | Months

  /** The `tick_params` set for one tick level; None leaves matplotlib's
      default in place. */
  datatype TickStyle = TickStyle(labelSize: Option<nat>, length: Option<nat>, width: Option<nat>)

  /** The state in which `_setup_intelligent_x_axis` leaves the date axis. */
  datatype AxisPlan =
    | Untouched
    | Ticks(major: Locator, format: string, majorStyle: TickStyle,
            minor: Option<Locator>, minorStyle: Option<TickStyle>,
            rotation: int, align: string)

  /** The plan for a non-empty series spanning `range` days. */
  function PlanForRange(range: int): (p: AxisPlan)
    ensures p.Ticks? && p.rotation == 45 && p.align == "right"
    ensures p.major.Days? <==> range <= 60
    ensures range <= 60 ==> p.format == "%m-%d" && p.minor.None? && p.minorStyle.None?
    ensures range <= 60 ==> (p.major.interval == 2 <==> range > 30) && (p.major.interval == 1 <==> range <= 30)
    ensures range <= 60 ==> p.majorStyle == TickStyle(Some(if 14 < range <= 30 then 7 else 8), None, None)
    ensures range > 60 ==> p.format == "%Y-%m" && p.majorStyle == TickStyle(Some(10), Some(8), Some(2))
    ensures range > 60 ==> p.minor == Some(Days(1)) && p.minorStyle == Some(TickStyle(None, Some(4), Some(1)))
  {
    if range <= 60 then
      var interval := if range > 30 then 2 else 1;
      var size := if range > 30 then 8 else if range > 14 then 7 else 8;
      Ticks(Days(interval), "%m-%d", TickStyle(Some(size), None, None), None, None, 45, "right")
    else
      Ticks(Months, "%Y-%m", TickStyle(Some(10), Some(8), Some(2)),
            Some(Days(1)), Some(TickStyle(None, Some(4), Some(1))), 45, "right")
  }

  /** `_setup_intelligent_x_axis(ax, dates)`. */
  function XAxisPlan(dates: seq<int>): (p: AxisPlan)
    ensures p.Untouched? <==> dates == []
    ensures p.Ticks? ==> p.rotation == 45 && p.align == "right"
  {
    if dates == [] then Untouched else PlanForRange(Max(dates) - Min(dates))
  }

  /** The span of a non-empty series: never negative, and every date lies
      within it of the earliest. */
  function Span(dates: seq<int>): (r: nat)
    requires dates != []
    ensures forall x :: x in dates ==> Min(dates) <= x <= Min(dates) + r
  {
    Max(dates) - Min(dates)
  }

  /** The plan, case by case: up to 60 days gives daily `MM-DD` ticks, every
      second day past 30 days, with label size 7 strictly between 14 and 31
      days and 8 otherwise; beyond 60 days gives monthly `YYYY-MM` major
      ticks (size 10, length 8, width 2) over unlabeled daily minor ticks
      (length 4, width 1). */
  lemma PlanCases(dates: seq<int>)
    requires dates != []
    ensures var p := XAxisPlan(dates); var r := Span(dates);
      && (r <= 60 <==> p.major.Days?)
      && (r <= 60 ==> p.format == "%m-%d" && p.minor.None? && p.majorStyle.length.None?)
      && (r <= 60 ==> (p.major.interval == 2 <==> r > 30) && (p.major.interval == 1 <==> r <= 30))
      && (r <= 60 ==> (p.majorStyle.labelSize == Some(7) <==> 14 < r <= 30))
      && (r <= 60 ==> (p.majorStyle.labelSize == Some(8) <==> r <= 14 || r > 30))
      && (r > 60 ==> p.format == "%Y-%m" && p.majorStyle == TickStyle(Some(10), Some(8), Some(2)))
      && (r > 60 ==> p.minor == Some(Days(1)) && p.minorStyle == Some(TickStyle(None, Some(4), Some(1))))
  {
  }

  /** `min` and `max` do not depend on the order of the dates, so neither
      does the plan. */
  lemma PlanIgnoresOrder(a: seq<int>, b: seq<int>)
    requires multiset(a) == multiset(b)
    ensures XAxisPlan(a) == XAxisPlan(b)
  {
    if a != [] {
      assert b != [] by {
        assert a[0] in multiset(a);
      }
      SameMembers(a, b);
      assert Min(a) == Min(b) by {
        assert Min(a) in b && Min(b) in a;
      }
      assert Max(a) == Max(b) by {
        assert Max(a) in b && Max(b) in a;
      }
    } else {
      assert |b| == |multiset(b)| == 0;
    }
  }

  /** Equal multisets have the same members. */
  lemma SameMembers(a: seq<int>, b: seq<int>)
    requires multiset(a) == multiset(b)
    ensures forall x :: x in a <==> x in b
  {
    forall x ensures x in a <==> x in b {
      assert x in a <==> x in multiset(a);
      assert x in b <==> x in multiset(b);
    }
  }

  /** Under the daily plan at most 31 tick days lie between the first and
      the last plotted date: the thinning to every second day begins exactly
      where daily ticks there would exceed that. */
  lemma DailyTicksBounded(dates: seq<int>)
    requires dates != []
    requires XAxisPlan(dates).major.Days?
    ensures Span(dates) / XAxisPlan(dates).major.interval + 1 <= 31
    ensures Span(dates) / 1 + 1 > 31 ==> XAxisPlan(dates).major.interval == 2
  {
    PlanCases(dates);
  }

  // ---------------------------------------------------------------------
  // Titles and labels
  // ---------------------------------------------------------------------

  /** The suffix "变化趋势" ("trend") every generated title ends with. */
  const TrendSuffix: string := "变化趋势"

  /** The metric names the source knows a title and a y-axis label for. */
  const KnownColumns: set<string> := {"weight", "rating", "sleep_time", "steps", "calories_intake"}

  /** `chart_titles.get(column_name, f'{column_name}变化趋势')`: a known
      metric gets its Chinese name followed by the suffix, any other column
      its own name followed by it. */
  function DefaultTitle(column: string): (t: string)
    ensures |t| > |TrendSuffix| - 1 && t[|t| - |TrendSuffix|..] == TrendSuffix
    ensures column !in KnownColumns ==> t == column + TrendSuffix
  {
    var stem :=
      if column == "weight" then "体重"
      else if column == "rating" then "评分"
      else if column == "sleep_time" then "入睡时间"
      else if column == "steps" then "步数"
      else if column == "calories_intake" then "卡路里摄入"
      else column;
    assert (stem + TrendSuffix)[|stem|..] == TrendSuffix;
    stem + TrendSuffix
  }

  /** `title or chart_titles.get(...)`: a non-empty title given by the
      caller wins; None and '' both fall back to the default. */
  function ChartTitle(column: string, title: Option<string>): (t: string)
    ensures t != ""
    ensures title.Some? && title.value != "" ==> t == title.value
    ensures title.None? || title.value == "" ==> t == DefaultTitle(column)
  {
    if title.Some? && title.value != "" then title.value else DefaultTitle(column)
  }

  /** `y_labels.get(column_name, column_name)`. */
  function YLabel(column: string): string {
    if column == "weight" then "体重 (kg)"
    else if column == "rating" then "评分"
    else if column == "sleep_time" then "入睡时间"
    else if column == "steps" then "步数"
    else if column == "calories_intake" then "卡路里摄入"
    else column
  }

  /** The y-axis shows the column's own name exactly when the column is not
      one of the known metrics, and a known metric's label is never empty. */
  lemma YLabelFallsBackToColumn(column: string)
    ensures YLabel(column) == column <==> column !in KnownColumns
    ensures column in KnownColumns ==> YLabel(column) != ""
  {
    if column in KnownColumns {
      assert column[0] in "wrsc";
    }
  }

  // ---------------------------------------------------------------------
  // The chart
  // ---------------------------------------------------------------------

  /** What `create_line_chart` ends up showing. */
  datatype Chart<V> =
    | NoDataMessage
    | LineChart(dates: seq<int>, values: seq<V>, title: string,
                xLabel: string, yLabel: string, axis: AxisPlan)

  /** `create_line_chart(data, column_name, title)`: the placeholder for an
      empty series or one whose values are all None, otherwise the filtered
      series with its title, labels and date-axis plan. */
  function CreateLineChart<V>(data: seq<Row<V>>, column: string, title: Option<string>): (c: Chart<V>)
    ensures data == [] ==> c.NoDataMessage?
    ensures c.LineChart? ==> |c.dates| == |c.values| > 0 && c.xLabel == "日期" && c.title != "" && c.axis.Ticks?
  {
    if data == [] then NoDataMessage
    else
      FilterAligned(data);
      var values := PresentValues(data);
      var dates := PresentDates(data);
      if values == [] then NoDataMessage
      else LineChart(dates, values, ChartTitle(column, title), "日期", YLabel(column), XAxisPlan(dates))
  }

  /** The placeholder appears exactly when no row has a value; otherwise the
      chart plots, in order, every row that has one (and only those), with
      a non-empty title and a date axis that has ticks. */
  lemma ChartOutcome<V>(data: seq<Row<V>>, column: string, title: Option<string>)
    ensures var c := CreateLineChart(data, column, title);
      && (c.NoDataMessage? <==> forall r :: r in data ==> r.value.None?)
      && (c.LineChart? ==>
            && |c.dates| == |c.values| == |Kept(data)| > 0
            && (forall j :: 0 <= j < |c.dates| ==> Kept(data)[j] == Row(c.dates[j], Some(c.values[j])))
            && c.title != "" && c.axis.Ticks?)
  {
    NothingKeptIffAllNone(data);
    FilterAligned(data);
  }

  /** Rows the database already filtered of NULLs (`get_column_data`) are
      plotted unchanged. */
  lemma FullSeriesPlottedWhole<V>(data: seq<Row<V>>, column: string, title: Option<string>)
    requires data != []
    requires forall r :: r in data ==> r.value.Some?
    ensures var c := CreateLineChart(data, column, title);
      c.LineChart? && |c.dates| == |c.values| == |data|
      && forall j :: 0 <= j < |data| ==> data[j] == Row(c.dates[j], Some(c.values[j]))
  {
    KeptAll(data);
    ChartOutcome(data, column, title);
  }

  /** Filtering a series with no None leaves it as it is. */
  lemma {:induction false} KeptAll<V>(data: seq<Row<V>>)
    requires forall r :: r in data ==> r.value.Some?
    ensures Kept(data) == data
  {
    if data != [] {
      assert forall r :: r in data[1..] ==> r in data;
      KeptAll(data[1..]);
    }
  }
}
