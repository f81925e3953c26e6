/**
 The map tab (main.py, lines 139-144): the resorts whose ticket price is under
 the slider's value and whose three amenity flags equal the three toggles.
 The surviving rows are what the density map is drawn from.
 */
module MapView {
  import opened Resorts
  import opened Sequences

  /** The four controls of the map tab. */
  datatype MapQuery = MapQuery(priceCeiling: int, nightSki: string, summerSki: string, snowpark: string)

  /** The controls as the page first shows them: the price slider at 150 and
      every toggle on "No". */
  const InitialQuery := MapQuery(150, "No", "No", "No")

  /** The filter of one row: strictly cheaper than the ceiling, and each
      amenity flag exactly the chosen value. */
  predicate Admits(q: MapQuery, r: Resort)
  {
    && r.price < q.priceCeiling
    && r.nightSkiing == q.nightSki
    && r.summerSkiing == q.summerSki
    && r.snowparks == q.snowpark
  }

  /** The row test of the map's boolean mask. */
  function AdmittedBy(q: MapQuery): Row -> bool
  {
    (r: Row) => Admits(q, r.resort)
  }

  /** The rows shown on the map: exactly the admitted rows, each as often as
      in the table, in table order. */
  function SnowMap(t: seq<Row>, q: MapQuery): (shown: seq<Row>)
    ensures SubsequenceOf(shown, t)
    ensures forall x :: x in shown <==> x in t && Admits(q, x.resort)
    ensures forall x :: multiset(shown)[x] == if Admits(q, x.resort) then multiset(t)[x] else 0
  {
    FilterCount(t, AdmittedBy(q));
    Filter(t, AdmittedBy(q))
  }

  /** Cheaper than 150, and no night skiing, summer skiing or snowpark. */
  predicate PlainAndUnder150(r: Resort)
  {
    r.price < 150 && r.nightSkiing == "No" && r.summerSkiing == "No" && r.snowparks == "No"
  }

  /** The map as the page first draws it: every resort under 150 that has
      no night skiing, no summer skiing and no snowpark, as often as the table
      holds it, in table order. */
  function InitialMap(t: seq<Row>): (shown: seq<Row>)
    ensures SubsequenceOf(shown, t)
    ensures forall x :: multiset(shown)[x] == (if PlainAndUnder150(x.resort) then multiset(t)[x] else 0)
  {
    SnowMap(t, InitialQuery)
  }

  /** Raising the price ceiling only adds resorts: the map for the lower
      ceiling is a subsequence of the map for the higher one. */
  lemma {:induction false} RaisingCeilingKeepsResorts(t: seq<Row>, q: MapQuery, ceiling: int)
    requires q.priceCeiling <= ceiling
    ensures SubsequenceOf(SnowMap(t, q), SnowMap(t, q.(priceCeiling := ceiling)))
  {
    var q' := q.(priceCeiling := ceiling);
    if |t| > 0 {
      RaisingCeilingKeepsResorts(t[1..], q, ceiling);
      FilterCons(t, AdmittedBy(q));
      FilterCons(t, AdmittedBy(q'));
      var low, high := SnowMap(t[1..], q), SnowMap(t[1..], q');
      if Admits(q, t[0].resort) {
        assert ([t[0]] + low)[1..] == low;
        assert ([t[0]] + high)[1..] == high;
      } else if Admits(q', t[0].resort) {
        assert ([t[0]] + high)[1..] == high;
      }
    }
  }

  /** With a ceiling of 0 and only positively priced resorts, nothing is shown. */
  lemma ZeroCeilingShowsNothing(t: seq<Row>, q: MapQuery)
    requires q.priceCeiling == 0
    requires forall i :: 0 <= i < |t| ==> t[i].resort.price > 0
    ensures SnowMap(t, q) == []
  {
  }
}
