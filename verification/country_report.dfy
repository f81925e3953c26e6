/**
 The country bar chart of the report tab (main.py, lines 175-182): once a
 country and a metric column are chosen, the resorts of that country sorted
 by the column, largest first. With no country chosen but a column chosen,
 the callback declines to update and the previous chart stays on screen.
 */
module CountryReport {
  import opened Outcomes
  import opened Resorts
  import opened Sequences
  import Ranking

  /** The columns the chart can be sorted by: a metric, or the rank column
      attached for it at load time. */
  datatype Column = MetricColumn(metric: Metric) | RankColumn(metric: Metric)

  /** The table header of a column. */
  function ColumnName(c: Column): string
  {
    match c
    case MetricColumn(HighestPoint) => "Highest point"
    case MetricColumn(Price) => "Price"
    case MetricColumn(TotalSlopes) => "Total slopes"
    case MetricColumn(SnowCannons) => "Snow cannons"
    case RankColumn(HighestPoint) => "country_elevation_rank"
    case RankColumn(Price) => "country_price_rank"
    case RankColumn(TotalSlopes) => "country_slope_rank"
    case RankColumn(SnowCannons) => "country_cannon_rank"
  }

  /** The column a header names, if any. */
  function ParseColumn(name: string): (c: Option<Column>)
    ensures c.Some? ==> ColumnName(c.value) == name
  {
    if name == "Highest point" then Some(MetricColumn(HighestPoint))
    else if name == "Price" then Some(MetricColumn(Price))
    else if name == "Total slopes" then Some(MetricColumn(TotalSlopes))
    else if name == "Snow cannons" then Some(MetricColumn(SnowCannons))
    else if name == "country_elevation_rank" then Some(RankColumn(HighestPoint))
    else if name == "country_price_rank" then Some(RankColumn(Price))
    else if name == "country_slope_rank" then Some(RankColumn(TotalSlopes))
    else if name == "country_cannon_rank" then Some(RankColumn(SnowCannons))
    else None
  }

  /** Every column is found again under its own header. */
  lemma ParseColumnName(c: Column)
    ensures ParseColumn(ColumnName(c)) == Some(c)
  {
  }

  /** The value a row shows in a column. A rank column holds doubled ranks,
      which order the rows exactly as the ranks themselves do. */
  function Cell(c: Column, r: Row): int
  {
    match c
    case MetricColumn(m) => Value(r.resort, m)
    case RankColumn(m) => TwiceRankOf(r.ranks, m)
  }

  /** What the report callback hands on: nothing new, a raised exception,
      or the bars to draw. With the country unset as well, pandas' query
      rejects the unset country; otherwise `sort_values` raises for a header
      the table lacks. The record here carries only the four metrics and
      their rank columns, so every other header is answered with `Raises`. */
  datatype BarOutcome =
    | Unchanged
    | Raises(header: string)
    | Chart(column: Column, bars: seq<Row>)

  /** The row test of `query("Country in @country")`. */
  function InCountry(country: string): Row -> bool
  {
    (r: Row) => r.resort.country == country
  }

  /** The rows of one country, in table order: the result of
      `query("Country in @country")` for a chosen country. */
  function CountryRows(t: seq<Row>, country: string): (g: seq<Row>)
    ensures SubsequenceOf(g, t)
    ensures forall x :: multiset(g)[x] == if x.resort.country == country then multiset(t)[x] else 0
  {
    FilterCount(t, InCountry(country));
    Filter(t, InCountry(country))
  }

  /** The report callback. An empty string stands for an unset dropdown. The
      guard stops only when the country is unset AND a column is set; with
      both unset the callback goes on and raises. */
  function BarInfo(t: seq<Row>, country: string, column: string): (o: BarOutcome)
    ensures o.Unchanged? <==> country == "" && column != ""
    ensures o.Raises? <==> !(country == "" && column != "") && ParseColumn(column).None?
    ensures o.Raises? ==> o.header == column
    ensures o.Chart? ==> ParseColumn(column) == Some(o.column)
    ensures o.Chart? ==> forall x :: multiset(o.bars)[x] ==
                           if x.resort.country == country then multiset(t)[x] else 0
    ensures o.Chart? ==> forall i, j :: 0 <= i < j < |o.bars| ==>
                           Cell(o.column, o.bars[i]) >= Cell(o.column, o.bars[j])
  {
    if country == "" && column != "" then Unchanged
    else
      match ParseColumn(column)
      case None => Raises(column)
      case Some(c) =>
        var bars := SortDesc(CountryRows(t, country), (r: Row) => Cell(c, r));
        Chart(c, bars)
  }

  /** Every bar of a chart is a resort of the chosen country from the table,
      and every such resort has a bar. */
  lemma ChartShowsExactlyTheCountry(t: seq<Row>, country: string, column: string, x: Row)
    ensures BarInfo(t, country, column).Chart? ==>
      (x in BarInfo(t, country, column).bars <==> x in t && x.resort.country == country)
  {
    var o := BarInfo(t, country, column);
    if o.Chart? {
      assert x in o.bars <==> multiset(o.bars)[x] > 0;
      assert x in t <==> multiset(t)[x] > 0;
    }
  }

  /** The resort record of a row, its ranks dropped. */
  function ResortOf(r: Row): Resort
  {
    r.resort
  }

  /** Filtering rows by country and then dropping their ranks gives the same
      resorts as dropping the ranks first and then filtering. */
  lemma CountryFilterCommutes(rows: seq<Row>, country: string)
    ensures Map(CountryRows(rows, country), ResortOf) == Ranking.Peers(Map(rows, ResortOf), country)
  {
    FilterThroughMap(rows, ResortOf, Ranking.OfCountry(country), InCountry(country));
  }

  /** The group a resort is ranked in is the set of bars its country's chart
      draws: the loaded table's rows of that country, in the same order, so
      a rank of n out of |Peers| is a position among the chart's bars. */
  lemma RankGroupIsCountryRows(t: seq<Resort>, country: string)
    ensures |CountryRows(Ranking.Assign(t), country)| == |Ranking.Peers(t, country)|
    ensures forall k :: 0 <= k < |Ranking.Peers(t, country)| ==>
      CountryRows(Ranking.Assign(t), country)[k].resort == Ranking.Peers(t, country)[k]
  {
    var rows := Ranking.Assign(t);
    assert Map(rows, ResortOf) == t;
    CountryFilterCommutes(rows, country);
  }
}
