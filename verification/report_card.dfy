/**
 The resort report card of the report tab (main.py, lines 197-207): the
 resort under the pointer in the bar chart, and its four per-country ranks,
 shown as whole numbers. Before any pointer movement the chart's hover data
 names Hemsedal (main.py, line 115).
 */
module ReportCard {
  import opened Outcomes
  import opened Resorts
  import opened Sequences
  import Ranking
  import CountryReport

  /** One hovered point of the bar chart, with the custom data attached to
      its bar (the resort name, main.py line 185). */
  datatype HoverPoint = HoverPoint(customdata: seq<string>)

  /** The hover payload of the bar chart. */
  datatype HoverData = HoverData(points: seq<HoverPoint>)

  /** The hover payload the chart starts with. */
  const InitialHover := HoverData([HoverPoint(["Hemsedal"])])

  /** The hover payload produced by pointing at a bar. */
  function HoverOn(bar: Row): HoverData
  {
    HoverData([HoverPoint([bar.resort.name])])
  }

  /** The card: a resort name and its four ranks as displayed. */
  datatype Card = Card(resort: string, elevationRank: int, priceRank: int, slopeRank: int, cannonRank: int)

  /** Why no card can be made: the payload has no point, the point has no
      custom data, or the name does not pick out exactly one row (for which
      converting the selected rank column to an integer fails). */
  datatype CardError = NoPoint | NoCustomData | NotExactlyOne(matches: nat)

  /** The resort name in a hover payload: the first custom datum of its first point. */
  function HoveredResort(h: HoverData): (r: Result<string, CardError>)
    ensures r.Ok? <==> |h.points| > 0 && |h.points[0].customdata| > 0
    ensures r.Ok? ==> r.value == h.points[0].customdata[0]
    ensures r.Err? ==> (r.error == NoPoint <==> |h.points| == 0)
    ensures r.Err? && |h.points| > 0 ==> r.error == NoCustomData
  {
    if |h.points| == 0 then Err(NoPoint)
    else if |h.points[0].customdata| == 0 then Err(NoCustomData)
    else Ok(h.points[0].customdata[0])
  }

  /** Python's `int` of half of `twice`: the quotient truncated toward zero,
      so a rank of 2.5 is shown as 2 and -2.5 would be shown as -2. */
  function TruncatedHalf(twice: int): (r: int)
    ensures twice >= 0 ==> 0 <= twice - 2 * r <= 1
    ensures twice < 0 ==> -1 <= twice - 2 * r <= 0
  {
    if twice >= 0 then twice / 2 else -((-twice) / 2)
  }

  /** The rows carrying a resort name, in table order: the result of
      `query("Resort == @resort")`. A row held twice matches twice. */
  function Named(t: seq<Row>, name: string): (g: seq<Row>)
    ensures SubsequenceOf(g, t)
    ensures forall x :: x in g <==> x in t && x.resort.name == name
    ensures forall x :: multiset(g)[x] == if x.resort.name == name then multiset(t)[x] else 0
    ensures |g| == 1 ==> g[0] in t && g[0].resort.name == name
  {
    var carriesName := (r: Row) => r.resort.name == name;
    FilterCount(t, carriesName);
    Filter(t, carriesName)
  }

  /** The displayed card of a row: its name, and each doubled rank halved and
      truncated. */
  function CardOf(r: Row): (card: Card)
    ensures card.resort == r.resort.name
  {
    Card(r.resort.name,
         TruncatedHalf(r.ranks.elevation), TruncatedHalf(r.ranks.price),
         TruncatedHalf(r.ranks.slope), TruncatedHalf(r.ranks.cannon))
  }

  /** The report-card callback. */
  function ReportCardFor(t: seq<Row>, h: HoverData): (res: Result<Card, CardError>)
    ensures HoveredResort(h).Err? ==> res == Err(HoveredResort(h).error)
    ensures HoveredResort(h).Ok? ==>
      (res.Ok? <==> |Named(t, HoveredResort(h).value)| == 1)
    ensures HoveredResort(h).Ok? && res.Err? ==>
      res.error == NotExactlyOne(|Named(t, HoveredResort(h).value)|)
    ensures res.Ok? ==> res.value.resort == HoveredResort(h).value
    ensures res.Ok? ==> exists i :: 0 <= i < |t| && res.value == CardOf(t[i])
  {
    match HoveredResort(h)
    case Err(e) => Err(e)
    case Ok(name) =>
      var matches := Named(t, name);
      if |matches| != 1 then Err(NotExactlyOne(|matches|))
      else
        assert matches[0] in t;
        Ok(CardOf(matches[0]))
  }

  /** The card shown on first load. */
  function InitialCard(t: seq<Row>): (res: Result<Card, CardError>)
    ensures res.Ok? <==> |Named(t, "Hemsedal")| == 1
    ensures res.Ok? ==> res.value.resort == "Hemsedal"
  {
    ReportCardFor(t, InitialHover)
  }

  /** A row the table holds twice or more is matched that many times, so
      hovering it gives no card: the lookup counts rows, not distinct
      records. */
  lemma DuplicateRowHasNoCard(t: seq<Row>, r: Row)
    requires multiset(t)[r] >= 2
    ensures ReportCardFor(t, HoverOn(r)).Err?
    ensures ReportCardFor(t, HoverOn(r)).error == NotExactlyOne(|Named(t, r.resort.name)|)
    ensures |Named(t, r.resort.name)| >= multiset(t)[r]
  {
    var g := Named(t, r.resort.name);
    assert multiset(g)[r] == multiset(t)[r];
    assert |g| == |multiset(g)|;
    assert multiset(g)[r] <= |multiset(g)| by {
      MultiplicityAtMostSize(multiset(g), r);
    }
  }

  lemma MultiplicityAtMostSize(m: multiset<Row>, x: Row)
    ensures m[x] <= |m|
  {
    var only := multiset{}[x := m[x]];
    assert only <= m;
    assert |only| == m[x];
  }

  /** In a table with unique names, exactly the names present get a card. */
  lemma {:induction false} UniqueNameMatchesOnce(t: seq<Row>, name: string)
    requires UniqueNames(t)
    ensures |Named(t, name)| <= 1
    ensures |Named(t, name)| == 1 <==> exists i :: 0 <= i < |t| && t[i].resort.name == name
  {
    if |t| > 0 {
      assert UniqueNames(t[1..]) by {
        forall i, j | 0 <= i < |t| - 1 && 0 <= j < |t| - 1 && t[1..][i].resort.name == t[1..][j].resort.name
          ensures i == j
        {
          assert t[i + 1].resort.name == t[j + 1].resort.name;
        }
      }
      UniqueNameMatchesOnce(t[1..], name);
      if t[0].resort.name == name {
        forall k | 0 <= k < |t| - 1
          ensures t[1..][k].resort.name != name
        {
          assert t[k + 1].resort.name != t[0].resort.name;
        }
      }
      if exists i :: 0 <= i < |t| && t[i].resort.name == name {
        var i :| 0 <= i < |t| && t[i].resort.name == name;
        if i > 0 {
          assert t[1..][i - 1].resort.name == name;
        }
      }
    }
  }

  lemma HalfInRange(twice: int, n: int)
    requires 2 <= twice <= 2 * n
    ensures 1 <= TruncatedHalf(twice) <= n
  {
  }

  /** The displayed ranks of any resort of the loaded table lie between 1 and
      the number of resorts of its country. */
  lemma CardRanksInRange(t: seq<Resort>, h: HoverData)
    ensures var res := ReportCardFor(Ranking.Assign(t), h);
      res.Ok? ==> exists i :: 0 <= i < |t| && t[i].name == res.value.resort
                             && RanksWithin(res.value, |Ranking.Peers(t, t[i].country)|)
  {
    var rows := Ranking.Assign(t);
    var res := ReportCardFor(rows, h);
    if res.Ok? {
      var card := res.value;
      var i :| 0 <= i < |rows| && card == CardOf(rows[i]);
      var n := |Ranking.Peers(t, t[i].country)|;
      assert 2 <= TwiceRankOf(rows[i].ranks, HighestPoint) <= 2 * n;
      assert 2 <= TwiceRankOf(rows[i].ranks, Price) <= 2 * n;
      assert 2 <= TwiceRankOf(rows[i].ranks, TotalSlopes) <= 2 * n;
      assert 2 <= TwiceRankOf(rows[i].ranks, SnowCannons) <= 2 * n;
      HalfInRange(rows[i].ranks.elevation, n);
      HalfInRange(rows[i].ranks.price, n);
      HalfInRange(rows[i].ranks.slope, n);
      HalfInRange(rows[i].ranks.cannon, n);
      assert RanksWithin(card, n);
    }
  }

  /** All four displayed ranks of a card lie in 1 .. n. */
  predicate RanksWithin(card: Card, n: int)
  {
    && 1 <= card.elevationRank <= n
    && 1 <= card.priceRank <= n
    && 1 <= card.slopeRank <= n
    && 1 <= card.cannonRank <= n
  }

  /** Views stay consistent: in a table with unique resort names, pointing at
      any bar of a country chart yields the report card of that very resort. */
  lemma HoveringABarShowsItsCard(t: seq<Row>, country: string, column: string, k: int)
    requires UniqueNames(t)
    requires CountryReport.BarInfo(t, country, column).Chart?
    requires 0 <= k < |CountryReport.BarInfo(t, country, column).bars|
    ensures var bar := CountryReport.BarInfo(t, country, column).bars[k];
      ReportCardFor(t, HoverOn(bar)) == Ok(CardOf(bar))
  {
    var bar := CountryReport.BarInfo(t, country, column).bars[k];
    CountryReport.ChartShowsExactlyTheCountry(t, country, column, bar);
    UniqueNameMatchesOnce(t, bar.resort.name);
    var matches := Named(t, bar.resort.name);
    assert bar in matches;
  }
}
