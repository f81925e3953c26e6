/**
 The rank columns computed once when the table is loaded (main.py, lines
 10-17): for each of the four metrics, every resort is ranked in descending
 order among the resorts of its own country, ties receiving the average of
 the positions they share (pandas' default "average" method). Ranks are kept
 doubled, so a tie of two for second place is stored as 5 rather than 2.5.
 */
module Ranking {
  import opened Resorts
  import opened Sequences

  /** The test that puts a resort into a country's group. */
  function OfCountry(country: string): Resort -> bool
  {
    (r: Resort) => r.country == country
  }

  /** The resorts of one country, in table order: the group a rank is taken
      in. Duplicate rows count separately, as they do in pandas. */
  function Peers(t: seq<Resort>, country: string): (g: seq<Resort>)
    ensures SubsequenceOf(g, t)
    ensures forall r :: r in g <==> r in t && r.country == country
    ensures forall r :: multiset(g)[r] == if r.country == country then multiset(t)[r] else 0
  {
    FilterCount(t, OfCountry(country));
    Filter(t, OfCountry(country))
  }

  /** One metric column of a group of resorts. */
  function Column(g: seq<Resort>, m: Metric): (vals: seq<int>)
    ensures |vals| == |g|
  {
    seq(|g|, i requires 0 <= i < |g| => Value(g[i], m))
  }

  /** The values a country's resorts have for a metric: the column being ranked. */
  function GroupValues(t: seq<Resort>, country: string, m: Metric): seq<int>
  {
    Column(Peers(t, country), m)
  }

  /** How many values are strictly greater than `v`. */
  function CountAbove(vals: seq<int>, v: int): nat
  {
    if |vals| == 0 then 0
    else (if vals[0] > v then 1 else 0) + CountAbove(vals[1..], v)
  }

  /** How many values equal `v`. */
  function CountEqual(vals: seq<int>, v: int): nat
  {
    if |vals| == 0 then 0
    else (if vals[0] == v then 1 else 0) + CountEqual(vals[1..], v)
  }

  /** Twice the descending average rank of `v` within `vals`: the values above
      it take positions 1 .. above, and the `equal` tied values share the
      positions above + 1 .. above + equal, whose mean is above + (equal + 1) / 2. */
  function TwiceAverageRank(vals: seq<int>, v: int): nat
  {
    2 * CountAbove(vals, v) + CountEqual(vals, v) + 1
  }

  /** Twice the rank of resort `r` for metric `m` within its country in table `t`. */
  function TwiceRank(t: seq<Resort>, r: Resort, m: Metric): nat
  {
    TwiceAverageRank(GroupValues(t, r.country, m), Value(r, m))
  }

  /** The four doubled rank columns of resort `r`. */
  function RanksIn(t: seq<Resort>, r: Resort): (k: Ranks)
    ensures forall m :: TwiceRankOf(k, m) == TwiceRank(t, r, m)
  {
    Ranks(TwiceRank(t, r, HighestPoint), TwiceRank(t, r, Price),
          TwiceRank(t, r, TotalSlopes), TwiceRank(t, r, SnowCannons))
  }

  /** The loaded table: every record, in order, with its four rank columns,
      each rank between 1 and the number of resorts of the row's country. */
  function Assign(t: seq<Resort>): (rows: seq<Row>)
    ensures |rows| == |t|
    ensures forall i :: 0 <= i < |t| ==> rows[i].resort == t[i]
    ensures forall i, m :: 0 <= i < |t| ==> TwiceRankOf(rows[i].ranks, m) == TwiceRank(t, t[i], m)
    ensures forall i, m :: 0 <= i < |t| ==> 2 <= TwiceRankOf(rows[i].ranks, m) <= 2 * |Peers(t, t[i].country)|
  {
    RanksInRange(t);
    seq(|t|, i requires 0 <= i < |t| => Row(t[i], RanksIn(t, t[i])))
  }

  // ---------------------------------------------------------------------
  // Counting facts about a single column

  lemma {:induction false} CountsBounded(vals: seq<int>, v: int)
    ensures CountAbove(vals, v) + CountEqual(vals, v) <= |vals|
    ensures v in vals <==> CountEqual(vals, v) >= 1
  {
    if |vals| > 0 {
      CountsBounded(vals[1..], v);
      assert v in vals <==> vals[0] == v || v in vals[1..];
    }
  }

  /** Every value at or above `v` is strictly above a smaller `w`. */
  lemma {:induction false} CountAboveMonotone(vals: seq<int>, v: int, w: int)
    requires w < v
    ensures CountAbove(vals, w) >= CountAbove(vals, v) + CountEqual(vals, v)
  {
    if |vals| > 0 {
      CountAboveMonotone(vals[1..], v, w);
    }
  }

  /** A present value has a rank between 1 and the number of values. */
  lemma RankInRange(vals: seq<int>, v: int)
    requires v in vals
    ensures 2 <= TwiceAverageRank(vals, v) <= 2 * |vals|
  {
    CountsBounded(vals, v);
  }

  /** Descending ranking: of two present values, the larger one has the
      strictly smaller rank, and equal values share a rank. */
  lemma RankOrder(vals: seq<int>, v: int, w: int)
    requires v in vals && w in vals
    ensures TwiceAverageRank(vals, v) < TwiceAverageRank(vals, w) <==> v > w
    ensures TwiceAverageRank(vals, v) == TwiceAverageRank(vals, w) <==> v == w
  {
    CountsBounded(vals, v);
    CountsBounded(vals, w);
    if v > w {
      CountAboveMonotone(vals, v, w);
    } else if w > v {
      CountAboveMonotone(vals, w, v);
    }
  }

  // ---------------------------------------------------------------------
  // The reference semantics: mean position of the tied block after sorting

  /** The identity key: sort a column by its own values. */
  function Id(x: int): int { x }

  /** The sum of the 1-based positions at which `v` occurs in `s`, when the
      first element of `s` sits at position k + 1. */
  function PositionSum(s: seq<int>, v: int, k: nat): nat
  {
    if |s| == 0 then 0
    else (if s[0] == v then k + 1 else 0) + PositionSum(s[1..], v, k + 1)
  }

  lemma {:induction false} CountsInsert(x: int, s: seq<int>, v: int)
    requires NonIncreasing(s, Id)
    ensures CountAbove(Insert(x, s, Id), v) == CountAbove(s, v) + (if x > v then 1 else 0)
    ensures CountEqual(Insert(x, s, Id), v) == CountEqual(s, v) + (if x == v then 1 else 0)
  {
    if |s| == 0 || Id(x) >= Id(s[0]) {
      assert ([x] + s)[1..] == s;
    } else {
      assert NonIncreasing(s[1..], Id);
      var rest := Insert(x, s[1..], Id);
      CountsInsert(x, s[1..], v);
      assert ([s[0]] + rest)[1..] == rest;
    }
  }

  /** Sorting a column does not change how many values lie above or at `v`. */
  lemma {:induction false} CountsSort(s: seq<int>, v: int)
    ensures CountAbove(SortDesc(s, Id), v) == CountAbove(s, v)
    ensures CountEqual(SortDesc(s, Id), v) == CountEqual(s, v)
  {
    if |s| > 0 {
      CountsSort(s[1..], v);
      CountsInsert(s[0], SortDesc(s[1..], Id), v);
    }
  }

  lemma {:induction false} NothingAbove(s: seq<int>, v: int)
    requires NonIncreasing(s, Id)
    requires |s| > 0 && s[0] <= v
    ensures CountAbove(s, v) == 0
  {
    if |s| > 1 {
      assert NonIncreasing(s[1..], Id);
      assert Id(s[0]) >= Id(s[1]);
      NothingAbove(s[1..], v);
    }
  }

  lemma {:induction false} NothingEqual(s: seq<int>, v: int, k: nat)
    requires NonIncreasing(s, Id)
    requires |s| > 0 && s[0] < v
    ensures CountEqual(s, v) == 0 && PositionSum(s, v, k) == 0
  {
    if |s| > 1 {
      assert NonIncreasing(s[1..], Id);
      assert Id(s[0]) >= Id(s[1]);
      NothingEqual(s[1..], v, k + 1);
    }
  }

  /** Twice the sum of the 1-based positions start + 1 .. start + count. */
  function BlockSum(count: nat, start: nat): nat
  {
    count * (2 * start + count + 1)
  }

  /** In a column sorted descending, the copies of `v` form one block right
      after the values above it, so their positions sum to
      equal * (2 * (k + above) + equal + 1) / 2. */
  lemma {:induction false} SortedBlock(s: seq<int>, v: int, k: nat)
    requires NonIncreasing(s, Id)
    ensures 2 * PositionSum(s, v, k) == BlockSum(CountEqual(s, v), k + CountAbove(s, v))
  {
    if |s| > 0 {
      assert NonIncreasing(s[1..], Id);
      SortedBlock(s[1..], v, k + 1);
      if s[0] > v {
        assert k + CountAbove(s, v) == (k + 1) + CountAbove(s[1..], v);
      } else if s[0] == v {
        NothingAbove(s, v);
        BlockGrows(k, CountEqual(s[1..], v));
      } else {
        NothingEqual(s, v, k);
      }
    }
  }

  /** Putting one more copy at position k + 1 in front of a block that starts
      at position k + 2. */
  lemma BlockGrows(k: nat, e: nat)
    ensures 2 * (k + 1) + BlockSum(e, k + 1) == BlockSum(e + 1, k)
  {
    calc {
      2 * (k + 1) + BlockSum(e, k + 1);
      2 * (k + 1) + e * (2 * k + e + 3);
      (e + 1) * (2 * k + e + 2);
    }
  }

  /** The rank is the mean position: sorting a column in descending order,
      the tied copies of `v` sit at 1-based positions whose sum, doubled, is
      their number times the doubled rank. */
  lemma RankIsMeanPosition(vals: seq<int>, v: int)
    ensures CountEqual(vals, v) >= 1 <==> v in vals
    ensures 2 * PositionSum(SortDesc(vals, Id), v, 0) == CountEqual(vals, v) * TwiceAverageRank(vals, v)
  {
    CountsBounded(vals, v);
    CountsSort(vals, v);
    MeanPositionOfSorted(SortDesc(vals, Id), vals, v);
  }

  lemma MeanPositionOfSorted(s: seq<int>, vals: seq<int>, v: int)
    requires NonIncreasing(s, Id)
    requires CountAbove(s, v) == CountAbove(vals, v) && CountEqual(s, v) == CountEqual(vals, v)
    ensures 2 * PositionSum(s, v, 0) == CountEqual(vals, v) * TwiceAverageRank(vals, v)
  {
    SortedBlock(s, v, 0);
    var e, a := CountEqual(vals, v), CountAbove(vals, v);
    assert 2 * PositionSum(s, v, 0) == BlockSum(e, a);
    assert TwiceAverageRank(vals, v) == 2 * a + e + 1;
    assert BlockSum(e, a) == e * (2 * a + e + 1);
  }

  // ---------------------------------------------------------------------
  // Without ties the ranks are exactly 1 .. n

  /** The doubled ranks 2, 4, .., 2n. */
  function DoubledRange(n: nat): set<int>
  {
    set k | 1 <= k <= n :: 2 * k
  }

  lemma {:induction false} DoubledRangeSize(n: nat)
    ensures |DoubledRange(n)| == n
  {
    if n > 0 {
      DoubledRangeSize(n - 1);
      assert DoubledRange(n) == DoubledRange(n - 1) + {2 * n};
    }
  }

  lemma SubsetOfSameSize(a: set<int>, b: set<int>)
    requires a <= b && |a| == |b|
    ensures a == b
  {
    var d := b - a;
    assert b == a + d;
    assert a * d == {};
    assert |b| == |a| + |d|;
    assert d == {};
  }

  /** Without ties, different values of a column get different ranks, so the
      ranks of the values of `xs` are as many as the values. */
  lemma {:induction false} DistinctRankCount(vals: seq<int>, xs: seq<int>)
    requires Distinct(xs)
    requires forall x :: x in xs ==> x in vals
    ensures |set x | x in xs :: TwiceAverageRank(vals, x)| == |xs|
  {
    if |xs| > 0 {
      var last := xs[|xs| - 1];
      var init := xs[..|xs| - 1];
      DistinctRankCount(vals, init);
      assert xs == init + [last];
      var before := set x | x in init :: TwiceAverageRank(vals, x);
      assert (set x | x in xs :: TwiceAverageRank(vals, x)) == before + {TwiceAverageRank(vals, last)};
      forall x | x in init
        ensures TwiceAverageRank(vals, x) != TwiceAverageRank(vals, last)
      {
        RankOrder(vals, x, last);
      }
    }
  }

  /** When no two values of a column are equal, the ranks are exactly 1 .. n. */
  lemma DistinctRanksArePermutation(vals: seq<int>)
    requires Distinct(vals)
    ensures (set v | v in vals :: TwiceAverageRank(vals, v)) == DoubledRange(|vals|)
  {
    var ranks := set v | v in vals :: TwiceAverageRank(vals, v);
    forall v | v in vals
      ensures TwiceAverageRank(vals, v) in DoubledRange(|vals|)
    {
      CountsBounded(vals, v);
      assert CountEqual(vals, v) == 1 by {
        EqualAtMostOnce(vals, v);
      }
      assert TwiceAverageRank(vals, v) == 2 * (CountAbove(vals, v) + 1);
    }
    DistinctRankCount(vals, vals);
    DoubledRangeSize(|vals|);
    SubsetOfSameSize(ranks, DoubledRange(|vals|));
  }

  lemma {:induction false} EqualAtMostOnce(vals: seq<int>, v: int)
    requires Distinct(vals)
    ensures CountEqual(vals, v) <= 1
  {
    if |vals| > 0 {
      assert Distinct(vals[1..]);
      EqualAtMostOnce(vals[1..], v);
      if vals[0] == v {
        CountsBounded(vals[1..], v);
        assert v !in vals[1..];
      }
    }
  }

  // ---------------------------------------------------------------------
  // The rank columns of the loaded table

  lemma PeersAppend(x: seq<Resort>, y: seq<Resort>, country: string)
    ensures Peers(x + y, country) == Peers(x, country) + Peers(y, country)
  {
    FilterAppend(x, y, OfCountry(country));
  }

  lemma {:induction false} NoPeers(o: seq<Resort>, country: string)
    requires forall x :: x in o ==> x.country != country
    ensures Peers(o, country) == []
  {
    if |o| > 0 {
      NoPeers(o[1..], country);
    }
  }

  lemma SameCountryGroup(a: seq<Resort>, o: seq<Resort>, b: seq<Resort>, country: string)
    requires forall x :: x in o ==> x.country != country
    ensures Peers(a + o + b, country) == Peers(a + b, country)
  {
    PeersAppend(a + o, b, country);
    PeersAppend(a, o, country);
    PeersAppend(a, b, country);
    NoPeers(o, country);
    assert Peers(a, country) + [] == Peers(a, country);
  }

  /** A resort's ranks ignore the rest of the world: inserting rows of other
      countries anywhere in the table (or, read backwards, deleting them, or
      replacing one by another) leaves every rank of `r` as it was. */
  lemma RankIgnoresOtherCountries(a: seq<Resort>, o: seq<Resort>, b: seq<Resort>, r: Resort, m: Metric)
    requires forall x :: x in o ==> x.country != r.country
    ensures TwiceRank(a + o + b, r, m) == TwiceRank(a + b, r, m)
  {
    SameCountryGroup(a, o, b, r.country);
  }

  /** The values of a country's column are exactly the metric values of the
      rows of that country. */
  lemma GroupValuesMembership(t: seq<Resort>, country: string, m: Metric, v: int)
    ensures v in GroupValues(t, country, m)
        <==> exists i :: 0 <= i < |t| && t[i].country == country && Value(t[i], m) == v
  {
    var g := Peers(t, country);
    var vals := GroupValues(t, country, m);
    if v in vals {
      var k :| 0 <= k < |vals| && vals[k] == v;
      assert g[k] in g;
      var i :| 0 <= i < |t| && t[i] == g[k];
      assert t[i].country == country && Value(t[i], m) == v;
    }
    if exists i :: 0 <= i < |t| && t[i].country == country && Value(t[i], m) == v {
      var i :| 0 <= i < |t| && t[i].country == country && Value(t[i], m) == v;
      assert t[i] in g;
      var k :| 0 <= k < |g| && g[k] == t[i];
      assert vals[k] == v;
    }
  }

  lemma OwnValueInGroup(t: seq<Resort>, i: int, m: Metric)
    requires 0 <= i < |t|
    ensures Value(t[i], m) in GroupValues(t, t[i].country, m)
  {
    GroupValuesMembership(t, t[i].country, m, Value(t[i], m));
  }

  /** Every rank of a table's resort lies between 1 and the number of resorts
      of its country. */
  lemma RanksInRange(t: seq<Resort>)
    ensures forall i, m :: 0 <= i < |t| ==> 2 <= TwiceRank(t, t[i], m) <= 2 * |Peers(t, t[i].country)|
  {
    forall i, m | 0 <= i < |t|
      ensures 2 <= TwiceRank(t, t[i], m) <= 2 * |Peers(t, t[i].country)|
    {
      OwnValueInGroup(t, i, m);
      RankInRange(GroupValues(t, t[i].country, m), Value(t[i], m));
    }
  }

  /** Within a country, a strictly better metric value means a strictly better
      (smaller) rank, and equal values mean equal ranks. */
  lemma AssignedRankOrder(t: seq<Resort>, i: int, j: int, m: Metric)
    requires 0 <= i < |t| && 0 <= j < |t|
    requires t[i].country == t[j].country
    ensures TwiceRankOf(Assign(t)[i].ranks, m) < TwiceRankOf(Assign(t)[j].ranks, m)
        <==> Value(t[i], m) > Value(t[j], m)
    ensures TwiceRankOf(Assign(t)[i].ranks, m) == TwiceRankOf(Assign(t)[j].ranks, m)
        <==> Value(t[i], m) == Value(t[j], m)
  {
    OwnValueInGroup(t, i, m);
    OwnValueInGroup(t, j, m);
    RankOrder(GroupValues(t, t[i].country, m), Value(t[i], m), Value(t[j], m));
  }

  /** Every rank of the loaded table is pandas' average rank: sort the row's
      country column in descending order; the positions of the row's tied
      block average to the stored rank. */
  lemma AssignedRankIsMeanPosition(t: seq<Resort>, i: int, m: Metric)
    requires 0 <= i < |t|
    ensures var vals := GroupValues(t, t[i].country, m);
      && CountEqual(vals, Value(t[i], m)) >= 1
      && 2 * PositionSum(SortDesc(vals, Id), Value(t[i], m), 0)
         == CountEqual(vals, Value(t[i], m)) * TwiceRankOf(Assign(t)[i].ranks, m)
  {
    OwnValueInGroup(t, i, m);
    RankIsMeanPosition(GroupValues(t, t[i].country, m), Value(t[i], m));
  }

  lemma RowRankIsColumnRank(t: seq<Resort>, m: Metric, i: int)
    requires 0 <= i < |t|
    ensures var vals := GroupValues(t, t[i].country, m);
      TwiceRankOf(Assign(t)[i].ranks, m) in (set v | v in vals :: TwiceAverageRank(vals, v))
  {
    OwnValueInGroup(t, i, m);
  }

  lemma ColumnRankIsRowRank(t: seq<Resort>, country: string, m: Metric, v: int)
    requires v in GroupValues(t, country, m)
    ensures exists i :: (0 <= i < |t| && t[i].country == country
      && TwiceRankOf(Assign(t)[i].ranks, m) == TwiceAverageRank(GroupValues(t, country, m), v))
  {
    GroupValuesMembership(t, country, m, v);
    var i :| 0 <= i < |t| && t[i].country == country && Value(t[i], m) == v;
    assert TwiceRankOf(Assign(t)[i].ranks, m) == TwiceRank(t, t[i], m);
  }

  /** The ranks stored for a country's rows. */
  function StoredRanks(t: seq<Resort>, country: string, m: Metric): set<int>
  {
    set i | 0 <= i < |t| && t[i].country == country :: TwiceRankOf(Assign(t)[i].ranks, m)
  }

  /** The ranks of the values of a column. */
  function ColumnRanks(vals: seq<int>): set<int>
  {
    set v | v in vals :: TwiceAverageRank(vals, v)
  }

  lemma StoredRanksAreColumnRanks(t: seq<Resort>, country: string, m: Metric)
    ensures StoredRanks(t, country, m) <= ColumnRanks(GroupValues(t, country, m))
  {
    forall i | 0 <= i < |t| && t[i].country == country
      ensures TwiceRankOf(Assign(t)[i].ranks, m) in ColumnRanks(GroupValues(t, country, m))
    {
      RowRankIsColumnRank(t, m, i);
    }
  }

  lemma ColumnRanksAreStoredRanks(t: seq<Resort>, country: string, m: Metric)
    ensures ColumnRanks(GroupValues(t, country, m)) <= StoredRanks(t, country, m)
  {
    var vals := GroupValues(t, country, m);
    forall v | v in vals
      ensures TwiceAverageRank(vals, v) in StoredRanks(t, country, m)
    {
      ColumnRankIsRowRank(t, country, m, v);
    }
  }

  /** The stored ranks of a country are the ranks of the values of its column. */
  lemma CountryRanksAreColumnRanks(t: seq<Resort>, country: string, m: Metric)
    ensures var vals := GroupValues(t, country, m);
      (set i | 0 <= i < |t| && t[i].country == country :: TwiceRankOf(Assign(t)[i].ranks, m))
      == (set v | v in vals :: TwiceAverageRank(vals, v))
  {
    StoredRanksAreColumnRanks(t, country, m);
    ColumnRanksAreStoredRanks(t, country, m);
    assert StoredRanks(t, country, m) == ColumnRanks(GroupValues(t, country, m));
  }

  /** A country whose resorts all differ on a metric gets the ranks 1 .. n,
      each exactly once, n being the number of its resorts. */
  lemma AssignedDistinctRanks(t: seq<Resort>, country: string, m: Metric)
    requires Distinct(GroupValues(t, country, m))
    ensures (set i | 0 <= i < |t| && t[i].country == country :: TwiceRankOf(Assign(t)[i].ranks, m))
         == DoubledRange(|Peers(t, country)|)
  {
    CountryRanksAreColumnRanks(t, country, m);
    DistinctRanksArePermutation(GroupValues(t, country, m));
  }
}
