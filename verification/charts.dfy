/**
  What the dashboard derives from the parsed state to draw its charts: the
  series of a chart card and their colour configuration, one data point per
  row, the numeric columns of each category, and the grouping of columns
  into cards of three series.
 */
module Charts {
  import opened Values
  import opened Host
  import opened Seqs
  import opened Text
  import opened CsvLib
  import opened TimeFormats
  import opened Parser

  // ---------------------------------------------------------------------------
  // Series and their configuration
  // ---------------------------------------------------------------------------

  /** The chart palette; series take its colours in turn. */
  const Palette: seq<string> :=
    ["var(--chart-1)", "var(--chart-2)", "var(--chart-3)", "var(--chart-4)", "var(--chart-5)"]

  /** A plotted series: its synthetic data key and the column it shows. */
  datatype SeriesKey = SeriesKey(key: string, column: string)

  function SeriesKeyName(i: nat): string {
    "series_" + NatToString(i)
  }

  lemma SeriesKeyNameInjective(i: nat, j: nat)
    requires SeriesKeyName(i) == SeriesKeyName(j)
    ensures i == j
  {
    var a := SeriesKeyName(i);
    var b := SeriesKeyName(j);
    assert a[7..] == NatToString(i);
    assert b[7..] == NatToString(j);
    NatToStringInjective(i, j);
  }

  /** The series of a chart card: one per column, in column order, with
      pairwise distinct keys (column names may repeat, keys never do). */
  function SeriesKeys(columns: seq<string>): (r: seq<SeriesKey>)
    ensures |r| == |columns|
    ensures forall i :: 0 <= i < |r| ==> r[i].column == columns[i] && r[i].key == SeriesKeyName(i)
    ensures forall i, j :: 0 <= i < j < |r| ==> r[i].key != r[j].key
  {
    var r := seq(|columns|, i requires 0 <= i < |columns| => SeriesKey(SeriesKeyName(i), columns[i]));
    assert forall i, j :: 0 <= i < j < |r| ==> r[i].key != r[j].key by {
      forall i, j | 0 <= i < j < |r| ensures r[i].key != r[j].key {
        if r[i].key == r[j].key {
          SeriesKeyNameInjective(i, j);
        }
      }
    }
    r
  }

  /** The label and colour of one series. */
  datatype SeriesStyle = SeriesStyle(caption: string, color: string)

  /** The colour of series `i`. */
  function SeriesColor(i: nat): string {
    Palette[i % |Palette|]
  }

  /** The configuration built by folding the series left to right, each
      assigning its entry; for a repeated key the last assignment wins. */
  function SeriesConfig(series: seq<SeriesKey>): (r: map<string, SeriesStyle>)
    ensures forall k :: k in r <==> exists i :: 0 <= i < |series| && series[i].key == k
    decreases |series|
  {
    if series == [] then map[]
    else
      var n := |series| - 1;
      var rest := SeriesConfig(series[..n]);
      assert forall i :: 0 <= i < n ==> series[..n][i] == series[i];
      rest[series[n].key := SeriesStyle(series[n].column, SeriesColor(n))]
  }

  /** A series whose key does not occur later gets its own label and the
      palette colour of its position. */
  lemma {:induction false} SeriesConfigEntry(series: seq<SeriesKey>, i: nat)
    requires i < |series|
    requires forall j :: i < j < |series| ==> series[j].key != series[i].key
    ensures SeriesConfig(series)[series[i].key] == SeriesStyle(series[i].column, SeriesColor(i))
    decreases |series|
  {
    var n := |series| - 1;
    var init := series[..n];
    assert SeriesConfig(series)
      == SeriesConfig(init)[series[n].key := SeriesStyle(series[n].column, SeriesColor(n))];
    if i < n {
      assert init[i] == series[i];
      assert series[n].key != series[i].key;
      forall j | i < j < |init| ensures init[j].key != init[i].key {
        assert init[j] == series[j];
      }
      SeriesConfigEntry(init, i);
    }
  }

  /** In a chart card every column's series is configured with that column's
      name and the palette colour of its position, cycling every five. */
  lemma CardConfig(columns: seq<string>, i: nat)
    requires i < |columns|
    ensures var series := SeriesKeys(columns);
      SeriesConfig(series)[SeriesKeyName(i)] == SeriesStyle(columns[i], Palette[i % 5])
  {
    SeriesConfigEntry(SeriesKeys(columns), i);
  }

  // ---------------------------------------------------------------------------
  // Chart data
  // ---------------------------------------------------------------------------

  /** One plotted point: the 1-based row number, the horizontal position
      (absent in index mode), the raw timestamp text, and each series' value
      by series key. */
  datatype ChartDatum = ChartDatum(
    index: nat,
    time: Option<real>,
    rawTimestamp: Option<string>,
    values: map<string, Option<real>>)

  /** The horizontal position: the parsed stamp when stamps parsed overall and
      this one is a non-zero number, else the row number. */
  function PointTime(parsed: Option<real>, timeParsed: bool, index: nat): (r: real)
    ensures timeParsed && NonZero(parsed) ==> r == parsed.value
    ensures !(timeParsed && NonZero(parsed)) ==> r == (index + 1) as real
  {
    if timeParsed && NonZero(parsed) then parsed.value else (index + 1) as real
  }

  /** The series values of a row, by series key: each column's cell coerced
      to a number. */
  function SeriesValues(row: Row, series: seq<SeriesKey>, env: Env): (r: map<string, Option<real>>)
    ensures forall k :: k in r <==> exists i :: 0 <= i < |series| && series[i].key == k
    decreases |series|
  {
    if series == [] then map[]
    else
      var n := |series| - 1;
      var rest := SeriesValues(row, series[..n], env);
      assert forall i :: 0 <= i < n ==> series[..n][i] == series[i];
      rest[series[n].key := CoerceNumber(Get(row, series[n].column), env.parseFloat)]
  }

  lemma {:induction false} SeriesValuesEntry(row: Row, series: seq<SeriesKey>, env: Env, i: nat)
    requires i < |series|
    requires forall j :: i < j < |series| ==> series[j].key != series[i].key
    ensures SeriesValues(row, series, env)[series[i].key] == CoerceNumber(Get(row, series[i].column), env.parseFloat)
    decreases |series|
  {
    var n := |series| - 1;
    var init := series[..n];
    var rest := SeriesValues(row, init, env);
    assert SeriesValues(row, series, env)
      == rest[series[n].key := CoerceNumber(Get(row, series[n].column), env.parseFloat)];
    if i < n {
      assert init[i] == series[i];
      assert forall j :: i < j < |init| ==> init[j] == series[j];
      SeriesValuesEntry(row, init, env, i);
    }
  }

  /** The point of row `index`: its 1-based number, its series values, and,
      on a time axis, the stamp text and the position it reads as. In
      date-and-time mode the stamp is the joined date and time text; in single
      mode the time cell, printed with absent values as the empty string but
      read as a date as it is. */
  function ChartPoint(
    row: Row, index: nat, series: seq<SeriesKey>, timeKey: Option<string>, dateKey: Option<string>,
    timeMode: TimeMode, timeParsed: bool, env: Env): (r: ChartDatum)
    ensures r.index == index + 1 && r.values == SeriesValues(row, series, env)
    ensures !HasTimeAxis(timeKey, dateKey, timeMode) ==> r.time.None? && r.rawTimestamp.None?
    ensures timeMode.DateTime? && KeyPresent(dateKey) && KeyPresent(timeKey) ==>
      r.rawTimestamp == Some(JoinedStamp(row, dateKey.value, timeKey.value, env))
    ensures timeMode.Single? && KeyPresent(timeKey) ==>
      r.rawTimestamp == Some(TextOrEmpty(Get(row, timeKey.value), env))
    ensures HasTimeAxis(timeKey, dateKey, timeMode) ==>
      var ms := StampMillis(RawTimestamp(row, TimeChoice(timeMode, timeKey), dateKey, env), env);
      r.time == Some(if timeParsed && NonZero(ms) then ms.value else (index + 1) as real)
  {
    var values := SeriesValues(row, series, env);
    if timeMode.DateTime? && KeyPresent(dateKey) && KeyPresent(timeKey) then
      var combined := JoinedStamp(row, dateKey.value, timeKey.value, env);
      var parsedTime := ParseDateValue(Str(combined), env);
      StampMillisIsParse(Str(combined), env);
      ChartDatum(index + 1, Some(PointTime(parsedTime, timeParsed, index)), Some(combined), values)
    else if timeMode.Single? && KeyPresent(timeKey) then
      var cell := Get(row, timeKey.value);
      var parsedTime := ParseDateValue(cell, env);
      StampMillisIsParse(cell, env);
      StampMillisIsParse(Nullish(cell), env);
      ChartDatum(index + 1, Some(PointTime(parsedTime, timeParsed, index)), Some(TextOrEmpty(cell, env)), values)
    else
      ChartDatum(index + 1, None, None, values)
  }

  /** True when the rows are placed by their timestamps rather than by row
      number. */
  predicate HasTimeAxis(timeKey: Option<string>, dateKey: Option<string>, timeMode: TimeMode) {
    (timeMode.DateTime? && KeyPresent(dateKey) && KeyPresent(timeKey))
    || (timeMode.Single? && KeyPresent(timeKey))
  }

  /** One point per row, in row order. Without a time axis points carry no
      position or stamp; when stamps did not parse overall every position is
      the row number; each series value is the coerced cell of its column. */
  function BuildChartData(
    rows: seq<Row>, series: seq<SeriesKey>, timeKey: Option<string>, dateKey: Option<string>,
    timeMode: TimeMode, timeParsed: bool, env: Env): (r: seq<ChartDatum>)
    ensures |r| == |rows|
    ensures forall i :: 0 <= i < |r| ==> r[i].index == i + 1
    ensures forall i :: 0 <= i < |r| ==>
      (r[i].time.Some? <==> HasTimeAxis(timeKey, dateKey, timeMode))
      && (r[i].rawTimestamp.Some? <==> HasTimeAxis(timeKey, dateKey, timeMode))
    ensures !timeParsed ==> forall i :: 0 <= i < |r| && r[i].time.Some? ==> r[i].time.value == (i + 1) as real
    ensures forall i :: 0 <= i < |r| ==> r[i].values == SeriesValues(rows[i], series, env)
  {
    seq(|rows|, i requires 0 <= i < |rows| =>
      ChartPoint(rows[i], i, series, timeKey, dateKey, timeMode, timeParsed, env))
  }

  /** With distinct series keys, the value a point holds for a series is the
      coerced cell of the series' column in that row. */
  lemma ChartValue(
    rows: seq<Row>, series: seq<SeriesKey>, timeKey: Option<string>, dateKey: Option<string>,
    timeMode: TimeMode, timeParsed: bool, env: Env, i: nat, j: nat)
    requires i < |rows| && j < |series|
    requires forall a, b :: 0 <= a < b < |series| ==> series[a].key != series[b].key
    ensures BuildChartData(rows, series, timeKey, dateKey, timeMode, timeParsed, env)[i].values[series[j].key]
      == CoerceNumber(Get(rows[i], series[j].column), env.parseFloat)
  {
    SeriesValuesEntry(rows[i], series, env, j);
  }

  /** A row whose raw timestamp reads as a non-zero instant is placed at that
      instant once stamps parsed overall. */
  lemma PointAtStamp(row: Row, index: nat, series: seq<SeriesKey>, choice: TimeChoice, dateKey: Option<string>, env: Env)
    requires NonZero(StampMillis(RawTimestamp(row, choice, dateKey, env), env))
    ensures ChartPoint(row, index, series, choice.key, dateKey, choice.mode, true, env).time
      == StampMillis(RawTimestamp(row, choice, dateKey, env), env)
  {
  }

  /** When the parse found usable timestamps, the chart places the last row
      exactly at the state's last timestamp and the first row at a non-zero
      instant: the chart and the summary read stamps alike. */
  lemma ChartEndsAgreeWithSummary(
    fileName: string, headers: seq<string>, rows: seq<Row>,
    dateKey: Option<string>, timeColumnKey: Option<string>, errors: seq<string>,
    series: seq<SeriesKey>, env: Env)
    requires rows != []
    ensures var s := Summarize(fileName, headers, rows, dateKey, timeColumnKey, errors, env);
      s.Success? && s.value.timeParsed ==>
        var p := s.value;
        var data := BuildChartData(p.rows, series, p.timeKey, p.dateKey, p.timeMode, p.timeParsed, env);
        && p.lastTimestamp.StampMs?
        && data[|rows| - 1].time == Some(p.lastTimestamp.ms)
        && NonZero(data[0].time)
  {
    var choice := ChooseTimeMode(dateKey, timeColumnKey, DetectTimeKey(headers));
    SummaryStamps(fileName, headers, rows, dateKey, timeColumnKey, errors, env);
    ChartEnds(rows, series, choice, dateKey, env);
  }

  lemma ChartEnds(rows: seq<Row>, series: seq<SeriesKey>, choice: TimeChoice, dateKey: Option<string>, env: Env)
    requires rows != []
    ensures var last := |rows| - 1;
      var endMs := StampMillis(RawTimestamp(rows[last], choice, dateKey, env), env);
      var startMs := StampMillis(RawTimestamp(rows[0], choice, dateKey, env), env);
      var data := BuildChartData(rows, series, choice.key, dateKey, choice.mode, true, env);
      NonZero(endMs) && NonZero(startMs) ==> data[last].time == endMs && NonZero(data[0].time)
  {
    var last := |rows| - 1;
    var endMs := StampMillis(RawTimestamp(rows[last], choice, dateKey, env), env);
    var startMs := StampMillis(RawTimestamp(rows[0], choice, dateKey, env), env);
    if NonZero(endMs) && NonZero(startMs) {
      PointAtStamp(rows[last], last, series, choice, dateKey, env);
      PointAtStamp(rows[0], 0, series, choice, dateKey, env);
    }
  }

  lemma SummaryStamps(
    fileName: string, headers: seq<string>, rows: seq<Row>,
    dateKey: Option<string>, timeColumnKey: Option<string>, errors: seq<string>, env: Env)
    requires rows != []
    ensures var s := Summarize(fileName, headers, rows, dateKey, timeColumnKey, errors, env);
      var choice := ChooseTimeMode(dateKey, timeColumnKey, DetectTimeKey(headers));
      var endMs := StampMillis(RawTimestamp(rows[|rows| - 1], choice, dateKey, env), env);
      var startMs := StampMillis(RawTimestamp(rows[0], choice, dateKey, env), env);
      s.Success? ==>
      var p := s.value;
      && p.timeKey == choice.key && p.timeMode == choice.mode
      && p.timeParsed == (NonZero(endMs) && NonZero(startMs))
      && (endMs.Some? ==> p.lastTimestamp == StampMs(endMs.value))
  {
  }

  // ---------------------------------------------------------------------------
  // Category sections and chart groups
  // ---------------------------------------------------------------------------

  function InNumeric(numericColumns: seq<string>): string -> bool {
    c => c in numericColumns
  }

  /** The columns of each category section: the numeric headers of that
      category, in header order. The sections are the categorisation of the
      numeric headers; together they hold every numeric header once per
      occurrence, each in the section of its category, and nothing else. */
  function CategoryColumns(headers: seq<string>, numericColumns: seq<string>): (r: CategoryMap)
    ensures r == CategorizeColumns(Filter(headers, InNumeric(numericColumns)))
    ensures multiset(r.cpu) + multiset(r.gpu) + multiset(r.ram) + multiset(r.other)
      == multiset(Filter(headers, InNumeric(numericColumns)))
    ensures forall h, cat :: h in r.Bucket(cat) <==> h in headers && h in numericColumns && Classify(h) == cat
  {
    var m := CategorizeColumns(headers);
    var keep := InNumeric(numericColumns);
    SectionsFilterFirst(headers, keep);
    BucketsMultiset(Filter(headers, keep));
    SectionMembership(headers, numericColumns);
    CategoryMap(Filter(m.cpu, keep), Filter(m.gpu, keep), Filter(m.ram, keep), Filter(m.other, keep))
  }

  /** Restricting each category bucket to the kept headers is the same as
      categorising only the kept headers. */
  lemma SectionsFilterFirst(headers: seq<string>, keep: string -> bool)
    ensures var m := CategorizeColumns(headers);
      CategoryMap(Filter(m.cpu, keep), Filter(m.gpu, keep), Filter(m.ram, keep), Filter(m.other, keep))
        == CategorizeColumns(Filter(headers, keep))
  {
    var m := CategorizeColumns(headers);
    var s := CategorizeColumns(Filter(headers, keep));
    forall cat: Category ensures Filter(m.Bucket(cat), keep) == s.Bucket(cat) {
      FilterCommute(headers, InCategory(cat), keep);
    }
    assert Filter(m.Bucket(Cpu), keep) == s.Bucket(Cpu) && Filter(m.Bucket(Gpu), keep) == s.Bucket(Gpu);
    assert Filter(m.Bucket(Ram), keep) == s.Bucket(Ram) && Filter(m.Bucket(Other), keep) == s.Bucket(Other);
  }

  lemma SectionMembership(headers: seq<string>, numericColumns: seq<string>)
    ensures var s := CategorizeColumns(Filter(headers, InNumeric(numericColumns)));
      forall h, cat :: h in s.Bucket(cat) <==> h in headers && h in numericColumns && Classify(h) == cat
  {
    var keep := InNumeric(numericColumns);
    var s := CategorizeColumns(Filter(headers, keep));
    forall h, cat ensures h in s.Bucket(cat) <==> h in headers && h in numericColumns && Classify(h) == cat {
      assert s.Bucket(cat) == Filter(Filter(headers, keep), InCategory(cat));
      assert keep(h) == (h in numericColumns);
      assert InCategory(cat)(h) == (Classify(h) == cat);
    }
  }

  /** Series per chart card. */
  const SeriesPerChart: nat := 3

  /** The chart cards of a section: its columns in groups of three. */
  function ChartGroups(columns: seq<string>): (r: seq<seq<string>>)
    ensures Flatten(r) == columns
    ensures forall i :: 0 <= i < |r| ==> 0 < |r[i]| <= SeriesPerChart
    ensures columns == [] <==> r == []
    ensures columns != [] ==> (|r| - 1) * SeriesPerChart < |columns| <= |r| * SeriesPerChart
  {
    ChunkCount(columns, SeriesPerChart);
    ChunkArray(columns, SeriesPerChart)
  }
}
