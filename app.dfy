// The dashboard script: the sidebar's option lists and tip slider, the
// filter pipeline that turns the loaded table into the filtered table, and
// the choice of chart. Widgets, rendering and the CSV read stay outside; the
// loaded table and the widget values are parameters.

module App {
  import opened Table

  /** The sentinel option meaning "do not filter on this column". */
  const All := "All"

  /** The two categorical columns that have a selector in the sidebar. */
  datatype Category = DayColumn | TimeColumn

  function Field(r: Row, c: Category): string {
    match c
    case DayColumn => r.day
    case TimeColumn => r.time
  }

  /** `df[column]` for a categorical column, row by row. */
  function ColumnValues(df: seq<Row>, c: Category): (values: seq<string>)
    ensures |values| == |df|
    ensures forall i :: 0 <= i < |df| ==> values[i] == Field(df[i], c)
  {
    seq(|df|, i requires 0 <= i < |df| => Field(df[i], c))
  }

  /** `["All"] + list(df[column].unique())`: the sentinel first, then every
      value that occurs in the column, each once. */
  function SelectorOptions(df: seq<Row>, c: Category): (options: seq<string>)
    ensures |options| >= 1 && options[0] == All
    ensures forall x :: x in options[1..] <==> exists r :: r in df && Field(r, c) == x
    ensures NoDuplicates(options[1..])
  {
    var values := ColumnValues(df, c);
    var options := [All] + Unique(values);
    assert options[1..] == Unique(values);
    assert forall x :: x in values ==> exists r :: r in df && Field(r, c) == x;
    assert forall r :: r in df ==> Field(r, c) in values by {
      forall r | r in df ensures Field(r, c) in values {
        var i :| 0 <= i < |df| && df[i] == r;
        assert values[i] == Field(r, c);
      }
    }
    options
  }

  /** After "All", the options follow the order in which the values first
      occur in the table: for two options, the earlier one occurs in a row
      above every row holding the later one. */
  lemma OptionsInFirstAppearanceOrder(df: seq<Row>, c: Category)
    ensures forall i, j, b ::
              (1 <= i < j < |SelectorOptions(df, c)| && 0 <= b < |df| &&
               Field(df[b], c) == SelectorOptions(df, c)[j]) ==>
              exists a :: 0 <= a < b && Field(df[a], c) == SelectorOptions(df, c)[i]
  {
    var values := ColumnValues(df, c);
    var options := SelectorOptions(df, c);
    UniqueInFirstAppearanceOrder(values);
    forall i, j, b | 1 <= i < j < |options| && 0 <= b < |df| && Field(df[b], c) == options[j]
      ensures exists a :: 0 <= a < b && Field(df[a], c) == options[i]
    {
      assert options[i] == Unique(values)[i - 1] && options[j] == Unique(values)[j - 1];
      assert values[b] == options[j];
      assert options[i] in values[..b];
      var a :| 0 <= a < b && values[..b][a] == options[i];
      assert Field(df[a], c) == options[i];
    }
  }

  /** `df["tip"].max()`. The column of an empty table has no maximum (pandas
      yields NaN); that is None here. */
  function MaxTip(df: seq<Row>): (m: Option<real>)
    ensures m.None? <==> df == []
    ensures m.Some? ==> forall r :: r in df ==> r.tip <= m.value
    ensures m.Some? ==> exists r :: r in df && r.tip == m.value
  {
    if df == [] then None
    else
      match MaxTip(df[1..])
      case None => Some(df[0].tip)
      case Some(rest) => Some(if df[0].tip > rest then df[0].tip else rest)
  }

  /** The tip slider as the script configures it: its bounds and its
      initial (lower, upper) value. */
  datatype TipSlider = TipSlider(minValue: real, maxValue: real, value: (real, real))

  /** The slider runs from 0.0 to the largest tip and starts at that whole
      range; there is none when the table is empty. */
  function TipSliderFor(df: seq<Row>): (slider: Option<TipSlider>)
    ensures slider.None? <==> df == []
    ensures slider.Some? ==>
              && slider.value.minValue == 0.0
              && slider.value.value == (slider.value.minValue, slider.value.maxValue)
              && (forall r :: r in df ==> r.tip <= slider.value.maxValue)
              && (exists r :: r in df && r.tip == slider.value.maxValue)
  {
    match MaxTip(df)
    case None => None
    case Some(maxTip) => Some(TipSlider(0.0, maxTip, (0.0, maxTip)))
  }

  /** What the filtered table promises of each row, stated directly: an
      active day or time selection must match, and the tip lies in the
      closed range. */
  predicate Selected(r: Row, dayFilter: string, timeFilter: string, tipRange: (real, real)) {
    && (dayFilter != All ==> r.day == dayFilter)
    && (timeFilter != All ==> r.time == timeFilter)
    && tipRange.0 <= r.tip <= tipRange.1
  }

  function Passes(dayFilter: string, timeFilter: string, tipRange: (real, real)): Row -> bool {
    r => Selected(r, dayFilter, timeFilter, tipRange)
  }

  /** The filtered table in one pass over the loaded table. */
  function FilteredView(df: seq<Row>, dayFilter: string, timeFilter: string, tipRange: (real, real)): seq<Row> {
    Where(df, Passes(dayFilter, timeFilter, tipRange))
  }

  /** The three masks of the script. */
  function DayIs(day: string): Row -> bool { (r: Row) => r.day == day }
  function TimeIs(time: string): Row -> bool { (r: Row) => r.time == time }
  function TipWithin(tipRange: (real, real)): Row -> bool {
    (r: Row) => r.tip >= tipRange.0 && r.tip <= tipRange.1
  }

  /** The script's pipeline: start from a copy of the table and reassign it
      once per active filter. The loaded table `df` is a value and is not
      changed. The result is the one-pass filtered table, so it holds exactly
      the rows of `df` that pass every active selection. */
  method ApplyFilters(df: seq<Row>, dayFilter: string, timeFilter: string, tipRange: (real, real))
    returns (filteredDf: seq<Row>)
    ensures filteredDf == FilteredView(df, dayFilter, timeFilter, tipRange)
    ensures forall r :: r in filteredDf <==> r in df && Selected(r, dayFilter, timeFilter, tipRange)
  {
    filteredDf := df;
    ghost var kept: Row -> bool := r => true;
    WhereAll(df, kept);

    if dayFilter != All {
      WhereWhere(df, kept, DayIs(dayFilter));
      filteredDf := Where(filteredDf, DayIs(dayFilter));
      kept := And(kept, DayIs(dayFilter));
    }

    if timeFilter != All {
      WhereWhere(df, kept, TimeIs(timeFilter));
      filteredDf := Where(filteredDf, TimeIs(timeFilter));
      kept := And(kept, TimeIs(timeFilter));
    }

    WhereWhere(df, kept, TipWithin(tipRange));
    filteredDf := Where(filteredDf, TipWithin(tipRange));
    kept := And(kept, TipWithin(tipRange));

    WhereCongruent(df, kept, Passes(dayFilter, timeFilter, tipRange));
  }

  /** The filtered table keeps the loaded table's order: it is the rows at
      the ascending positions `idx` of the loaded table, and a position is in
      `idx` exactly when its row passes every active selection. */
  lemma {:induction false} FilteredViewKeepsOrder(df: seq<Row>, dayFilter: string, timeFilter: string, tipRange: (real, real))
    ensures var idx := Positions(df, Passes(dayFilter, timeFilter, tipRange));
            && Increasing(idx)
            && FilteredView(df, dayFilter, timeFilter, tipRange) == Pick(df, idx)
            && (forall i :: 0 <= i < |df| ==>
                  (i in idx <==> Selected(df[i], dayFilter, timeFilter, tipRange)))
  {
    WherePicksPositions(df, Passes(dayFilter, timeFilter, tipRange));
  }

  /** With "All" for day and time and the slider at its initial range, the
      filtered table is the whole table, provided no tip is negative. */
  lemma DefaultSelectionKeepsTable(df: seq<Row>)
    requires forall r :: r in df ==> 0.0 <= r.tip
    ensures match TipSliderFor(df)
            case None => df == []
            case Some(slider) => FilteredView(df, All, All, slider.value) == df
  {
    match TipSliderFor(df)
    case None =>
    case Some(slider) =>
      WhereAll(df, Passes(All, All, slider.value));
  }

  /** A range whose lower end exceeds its upper end is not rejected: it
      yields the empty table. */
  lemma InvertedRangeIsEmpty(df: seq<Row>, dayFilter: string, timeFilter: string, tipRange: (real, real))
    requires tipRange.0 > tipRange.1
    ensures FilteredView(df, dayFilter, timeFilter, tipRange) == []
  {
    WhereNone(df, Passes(dayFilter, timeFilter, tipRange));
  }

  /** The range [x, x] keeps exactly the rows whose tip is x. */
  lemma PointRangeKeepsEqualTips(df: seq<Row>, x: real)
    ensures forall r :: r in FilteredView(df, All, All, (x, x)) <==> r in df && r.tip == x
  {
  }

  /** Filtering the filtered table again with the same selections changes
      nothing. */
  lemma FilteredViewIdempotent(df: seq<Row>, dayFilter: string, timeFilter: string, tipRange: (real, real))
    ensures var view := FilteredView(df, dayFilter, timeFilter, tipRange);
            FilteredView(view, dayFilter, timeFilter, tipRange) == view
  {
    WhereIdempotent(df, Passes(dayFilter, timeFilter, tipRange));
  }

  /** Every value offered in a selector, other than "All", matches at least
      one row when the slider is at its initial range and no tip is
      negative. */
  lemma OfferedValueMatches(df: seq<Row>, c: Category, x: string)
    requires x in SelectorOptions(df, c)[1..] && x != All
    requires forall r :: r in df ==> 0.0 <= r.tip
    ensures TipSliderFor(df).Some?
    ensures var range := TipSliderFor(df).value.value;
            match c
            case DayColumn => FilteredView(df, x, All, range) != []
            case TimeColumn => FilteredView(df, All, x, range) != []
  {
  }

  /** The worked example of two rows: a day selection, a tip range, and a
      day that does not occur. */
  lemma TwoRowExample()
    ensures var sun := Row(10.0, 2.0, "Female", "No", "Sun", "Dinner", 2);
            var sat := Row(20.0, 5.0, "Male", "Yes", "Sat", "Lunch", 3);
            var df := [sun, sat];
            && FilteredView(df, "Sun", All, (0.0, 5.0)) == [sun]
            && FilteredView(df, All, All, (3.0, 5.0)) == [sat]
            && FilteredView(df, "Mon", All, (0.0, 5.0)) == []
  {
  }

  // Plot selection

  datatype Column = TotalBill | Tip | Day

  /** The chart drawn from the filtered table, by the columns it maps. */
  datatype Plot =
    | Histogram(values: Column, bins: nat)
    | Scatter(x: Column, y: Column)
    | Boxplot(values: Column, groupBy: Column)

  const HistogramChoice := "Histogram - Total Bill"
  const ScatterChoice := "Scatterplot - Total Bill vs Tip"
  const BoxplotChoice := "Boxplot - Tips by Day"

  /** The entries of the plot-type selector, in menu order. */
  const PlotChoices := [HistogramChoice, ScatterChoice, BoxplotChoice]

  /** The if / elif / else over the chosen plot type. Every string is
      handled: anything that is not one of the first two entries draws the
      boxplot. */
  function ChoosePlot(plotType: string): (plot: Plot)
    ensures plot.Histogram? <==> plotType == HistogramChoice
    ensures plot.Scatter? <==> plotType == ScatterChoice
    ensures plot.Boxplot? <==> plotType != HistogramChoice && plotType != ScatterChoice
    ensures plot.Histogram? ==> plot.values == TotalBill && plot.bins == 20
    ensures plot.Scatter? ==> plot.x == TotalBill && plot.y == Tip
    ensures plot.Boxplot? ==> plot.values == Tip && plot.groupBy == Day
  {
    if plotType == HistogramChoice then Histogram(TotalBill, 20)
    else if plotType == ScatterChoice then Scatter(TotalBill, Tip)
    else Boxplot(Tip, Day)
  }

  /** Each menu entry draws the chart its label names, and the three
      entries draw three different charts. */
  lemma MenuEntriesDrawTheirCharts()
    ensures ChoosePlot(PlotChoices[0]) == Histogram(TotalBill, 20)
    ensures ChoosePlot(PlotChoices[1]) == Scatter(TotalBill, Tip)
    ensures ChoosePlot(PlotChoices[2]) == Boxplot(Tip, Day)
    ensures forall i, j :: 0 <= i < j < |PlotChoices| ==> ChoosePlot(PlotChoices[i]) != ChoosePlot(PlotChoices[j])
  {
  }
}
