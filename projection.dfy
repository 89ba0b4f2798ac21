/** Rendering one selected district: its six yearly rates as a table, newest
    year first, and as a chart series, oldest year first. A missing rate shows
    as `N/A` in the table and as a gap (`null`) in the chart. */
module Projection {
  import opened Cells
  import opened Sequences

  /** A year column of the CSV and the label shown for it. */
  datatype YearSlot = YearSlot(key: string, yearLabel: string)

  /** The year columns, oldest first. */
  const YearsKeyMap: seq<YearSlot> := [
    YearSlot("20192020", "2019-2020"),
    YearSlot("20202021", "2020-2021"),
    YearSlot("20212022", "2021-2022"),
    YearSlot("20222023", "2022-2023"),
    YearSlot("20232024", "2023-2024"),
    YearSlot("20242025", "2024-2025")
  ]

  /** The table cell for a rate: `N/A` for the sentinel, else the value and `%`. */
  function DisplayValue(value: Cell): string {
    if IsSentinel(value) then "N/A" else CellText(value) + "%"
  }

  /** The chart point for a rate: `null` for the sentinel, else the value itself. */
  function DataPoint(value: Cell): Cell {
    if IsSentinel(value) then Null else value
  }

  /** One `<tr>` of the table: the year label and the displayed rate. */
  datatype TableRow = TableRow(year: string, display: string)

  /** The year column of a table. */
  function Years(rows: seq<TableRow>): seq<string> {
    seq(|rows|, j requires 0 <= j < |rows| => rows[j].year)
  }

  /** The table body for a year list: one row per year, newest year first. */
  function TableRows(district: Record, years: seq<YearSlot>): seq<TableRow> {
    var n := |years|;
    seq(n, j requires 0 <= j < n =>
      TableRow(years[n - 1 - j].yearLabel, DisplayValue(district.Get(years[n - 1 - j].key))))
  }

  /** The chart's x-axis labels for a year list, oldest year first. */
  function ChartLabels(years: seq<YearSlot>): seq<string> {
    seq(|years|, i requires 0 <= i < |years| => years[i].yearLabel)
  }

  /** The chart's data points for a year list, oldest year first. */
  function ChartPoints(district: Record, years: seq<YearSlot>): seq<Cell> {
    seq(|years|, i requires 0 <= i < |years| => DataPoint(district.Get(years[i].key)))
  }

  /** `displayResult`: the table rows, then the chart labels and points, both
      over the fixed year list. */
  method DisplayResult(district: Record)
    returns (table: seq<TableRow>, chartLabels: seq<string>, chartDataPoints: seq<Cell>)
    ensures table == TableRows(district, YearsKeyMap)
    ensures chartLabels == ChartLabels(YearsKeyMap)
    ensures chartDataPoints == ChartPoints(district, YearsKeyMap)
  {
    table := BuildTable(district, YearsKeyMap);
    chartLabels, chartDataPoints := BuildChartSeries(district, YearsKeyMap);
  }

  /** The table loop: walks a reversed copy of the year list, newest first,
      appending one row per year. */
  method BuildTable(district: Record, years: seq<YearSlot>) returns (table: seq<TableRow>)
    ensures table == TableRows(district, years)
  {
    var n := |years|;
    var newestFirst := Reversed(years);
    table := [];
    for i := 0 to n
      invariant |table| == i
      invariant forall j :: 0 <= j < i ==>
        table[j] == TableRow(years[n - 1 - j].yearLabel, DisplayValue(district.Get(years[n - 1 - j].key)))
    {
      var yearObj := newestFirst[i];
      ReversedIndex(years, i);
      var value := district.Get(yearObj.key);
      var displayValue := if IsSentinel(value) then "N/A" else CellText(value) + "%";
      table := table + [TableRow(yearObj.yearLabel, displayValue)];
    }
  }

  /** The chart loop: walks the year list, oldest first, pushing one label and
      one data point per year. */
  method BuildChartSeries(district: Record, years: seq<YearSlot>)
    returns (chartLabels: seq<string>, chartDataPoints: seq<Cell>)
    ensures chartLabels == ChartLabels(years)
    ensures chartDataPoints == ChartPoints(district, years)
  {
    chartLabels, chartDataPoints := [], [];
    for i := 0 to |years|
      invariant |chartLabels| == |chartDataPoints| == i
      invariant forall j :: 0 <= j < i ==> chartLabels[j] == years[j].yearLabel
      invariant forall j :: 0 <= j < i ==> chartDataPoints[j] == DataPoint(district.Get(years[j].key))
    {
      var yearObj := years[i];
      var value := district.Get(yearObj.key);
      var dataPoint := if IsSentinel(value) then Null else value;
      chartLabels := chartLabels + [yearObj.yearLabel];
      chartDataPoints := chartDataPoints + [dataPoint];
    }
  }

  /** A table cell reads `N/A` exactly for the sentinel; any other value is
      shown as its text followed by `%`, from which the value can be read back. */
  lemma DisplayValueSentinel(value: Cell)
    ensures DisplayValue(value) == "N/A" <==> IsSentinel(value)
    ensures !IsSentinel(value) ==>
      |DisplayValue(value)| >= 1 && DisplayValue(value)[|DisplayValue(value)| - 1] == '%' &&
      DisplayValue(value)[..|DisplayValue(value)| - 1] == CellText(value)
  {
    if !IsSentinel(value) {
      var d := DisplayValue(value);
      assert d[|d| - 1] == '%';
      assert "N/A"[2] == 'A';
    }
  }

  /** A numeric rate's table cell is its decimal text and `%`, and that text
      gives the number back. */
  lemma NumericDisplayRoundTrip(n: int)
    ensures var d := DisplayValue(Num(n));
      |d| >= 2 && d[|d| - 1] == '%' && ParseInt(d[..|d| - 1]) == n
  {
    var d := DisplayValue(Num(n));
    assert d[..|d| - 1] == IntToString(n);
    IntToStringRoundTrip(n);
  }

  /** A chart point is `null` exactly for the sentinel and the stored value
      otherwise; in particular a missing year never becomes 0. */
  lemma DataPointSentinel(value: Cell)
    ensures DataPoint(value) == Null <==> IsSentinel(value)
    ensures !IsSentinel(value) ==> DataPoint(value) == value
    ensures IsSentinel(value) ==> DataPoint(value) != Num(0)
  {
  }

  /** The year list holds six years, oldest first, each labelled after its
      column key. */
  lemma YearsKeyMapShape()
    ensures |YearsKeyMap| == 6
    ensures ChartLabels(YearsKeyMap) ==
      ["2019-2020", "2020-2021", "2021-2022", "2022-2023", "2023-2024", "2024-2025"]
    ensures forall i :: 0 <= i < 6 ==>
      YearsKeyMap[i].yearLabel == YearsKeyMap[i].key[..4] + "-" + YearsKeyMap[i].key[4..]
  {
  }

  /** The table has one row per year, newest first: row `j` is labelled and
      filled from year `n - 1 - j` of the list, so its labels are the chart's
      labels reversed. */
  lemma {:induction false} TableShape(district: Record, years: seq<YearSlot>)
    ensures |TableRows(district, years)| == |years|
    ensures forall j :: 0 <= j < |years| ==>
      TableRows(district, years)[j].year == years[|years| - 1 - j].yearLabel &&
      TableRows(district, years)[j].display == DisplayValue(district.Get(years[|years| - 1 - j].key))
    ensures Years(TableRows(district, years)) == Reversed(ChartLabels(years))
  {
    var t := TableRows(district, years);
    var labels := ChartLabels(years);
    forall j | 0 <= j < |years| ensures Years(t)[j] == Reversed(labels)[j] {
      ReversedIndex(labels, j);
    }
  }

  /** For the script's year list the table has six rows, labelled from
      2024-2025 down to 2019-2020. */
  lemma TableYearsNewestFirst(district: Record)
    ensures |TableRows(district, YearsKeyMap)| == 6
    ensures Years(TableRows(district, YearsKeyMap)) ==
      ["2024-2025", "2023-2024", "2022-2023", "2021-2022", "2020-2021", "2019-2020"]
  {
    TableShape(district, YearsKeyMap);
    YearsKeyMapShape();
    var labels := ChartLabels(YearsKeyMap);
    forall k | 0 <= k < 6 ensures Reversed(labels)[k] == labels[5 - k] {
      ReversedIndex(labels, k);
    }
  }

  /** The chart has one label and one point per year, oldest first: entry `i`
      of both belongs to year `i` of the list. */
  lemma ChartShape(district: Record, years: seq<YearSlot>)
    ensures |ChartLabels(years)| == |ChartPoints(district, years)| == |years|
    ensures forall i :: 0 <= i < |years| ==>
      ChartLabels(years)[i] == years[i].yearLabel &&
      ChartPoints(district, years)[i] == DataPoint(district.Get(years[i].key))
  {
  }

  /** The table is the chart read backwards: row `j` carries the label of
      chart entry `n - 1 - j`, reads `N/A` exactly when that chart point is a
      gap, and otherwise shows that point's value followed by `%`. */
  lemma TableMirrorsChart(district: Record, years: seq<YearSlot>)
    ensures forall j :: 0 <= j < |years| ==>
      TableRows(district, years)[j].year == ChartLabels(years)[|years| - 1 - j] &&
      (TableRows(district, years)[j].display == "N/A" <==> ChartPoints(district, years)[|years| - 1 - j] == Null) &&
      (ChartPoints(district, years)[|years| - 1 - j] != Null ==>
        TableRows(district, years)[j].display == CellText(ChartPoints(district, years)[|years| - 1 - j]) + "%")
  {
    forall j | 0 <= j < |years|
      ensures TableRows(district, years)[j].year == ChartLabels(years)[|years| - 1 - j]
      ensures TableRows(district, years)[j].display == "N/A" <==> ChartPoints(district, years)[|years| - 1 - j] == Null
      ensures ChartPoints(district, years)[|years| - 1 - j] != Null ==>
        TableRows(district, years)[j].display == CellText(ChartPoints(district, years)[|years| - 1 - j]) + "%"
    {
      DisplayValueSentinel(district.Get(years[|years| - 1 - j].key));
    }
  }

  /** An example district: one whose newest year is 12 and whose oldest
      year is `NA` gets table rows ("2024-2025", "12%") first and
      ("2019-2020", "N/A") last, and chart points null first and 12 last. */
  lemma SpringfieldExample()
    ensures var d := Record(map["clean_name" := Text("Springfield"), "20242025" := Num(12), "20192020" := Text("NA")]);
      TableRows(d, YearsKeyMap)[0] == TableRow("2024-2025", "12%") &&
      TableRows(d, YearsKeyMap)[5] == TableRow("2019-2020", "N/A") &&
      ChartPoints(d, YearsKeyMap)[0] == Null && ChartPoints(d, YearsKeyMap)[5] == Num(12)
  {
    var d := Record(map["clean_name" := Text("Springfield"), "20242025" := Num(12), "20192020" := Text("NA")]);
    var newest, oldest := YearsKeyMap[5], YearsKeyMap[0];
    assert newest.key == "20242025" && oldest.key == "20192020";
    assert d.Get(newest.key) == Num(12) && d.Get(oldest.key) == Text("NA");
    assert IntToString(12) == "12";
    assert DisplayValue(Num(12)) == "12%" && DisplayValue(Text("NA")) == "N/A";
    var table := TableRows(d, YearsKeyMap);
    assert table[0] == TableRow(newest.yearLabel, DisplayValue(d.Get(newest.key)));
    assert table[5] == TableRow(oldest.yearLabel, DisplayValue(d.Get(oldest.key)));
  }
}
