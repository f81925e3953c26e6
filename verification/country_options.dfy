/**
 The option lists of the continent and country dropdowns (main.py, line 93
 and lines 164-166): the distinct values of a column, in the order in which
 they first appear in the table, as pandas' `unique` returns them.
 */
module CountryOptions {
  import opened Resorts
  import opened Sequences

  /** The rows of one continent, in table order: the result of
      `query("Continent in @continent")` for a chosen continent. */
  function ContinentRows(t: seq<Row>, continent: string): (g: seq<Row>)
    ensures SubsequenceOf(g, t)
    ensures forall x :: x in g <==> x in t && x.resort.continent == continent
    ensures forall x :: multiset(g)[x] == if x.resort.continent == continent then multiset(t)[x] else 0
  {
    var onContinent := (r: Row) => r.resort.continent == continent;
    FilterCount(t, onContinent);
    Filter(t, onContinent)
  }

  /** The country column of the continent's rows, repeats kept: what
      `unique` is applied to. */
  function ContinentCountries(t: seq<Row>, continent: string): (cs: seq<string>)
    ensures |cs| == |ContinentRows(t, continent)|
    ensures forall k :: 0 <= k < |cs| ==> cs[k] == ContinentRows(t, continent)[k].resort.country
    ensures forall c :: c in cs <==>
      exists i :: 0 <= i < |t| && t[i].resort.continent == continent && t[i].resort.country == c
  {
    var rows := ContinentRows(t, continent);
    var cs := seq(|rows|, k requires 0 <= k < |rows| => rows[k].resort.country);
    ContinentCountriesMembership(t, continent, cs);
    cs
  }

  lemma ContinentCountriesMembership(t: seq<Row>, continent: string, cs: seq<string>)
    requires |cs| == |ContinentRows(t, continent)|
    requires forall k :: 0 <= k < |cs| ==> cs[k] == ContinentRows(t, continent)[k].resort.country
    ensures forall c :: c in cs <==>
      exists i :: 0 <= i < |t| && t[i].resort.continent == continent && t[i].resort.country == c
  {
    var rows := ContinentRows(t, continent);
    forall c
      ensures c in cs <==>
        exists i :: 0 <= i < |t| && t[i].resort.continent == continent && t[i].resort.country == c
    {
      if c in cs {
        var k :| 0 <= k < |cs| && cs[k] == c;
        assert rows[k] in rows;
        var i :| 0 <= i < |t| && t[i] == rows[k];
      }
      if exists i :: 0 <= i < |t| && t[i].resort.continent == continent && t[i].resort.country == c {
        var i :| 0 <= i < |t| && t[i].resort.continent == continent && t[i].resort.country == c;
        assert t[i] in rows;
        var k :| 0 <= k < |rows| && rows[k] == t[i];
        assert cs[k] == c;
      }
    }
  }

  /** The continent of every row, in table order. */
  function Continents(t: seq<Row>): (cs: seq<string>)
    ensures |cs| == |t|
    ensures forall i :: 0 <= i < |t| ==> cs[i] == t[i].resort.continent
  {
    seq(|t|, i requires 0 <= i < |t| => t[i].resort.continent)
  }

  /** pandas' `unique`: every value of `s` once, in order of first appearance. */
  method Unique<T(==)>(s: seq<T>) returns (u: seq<T>)
    ensures forall x :: x in u <==> x in s
    ensures Distinct(u)
    ensures InFirstAppearanceOrder(u, s)
  {
    u := [];
    var i := 0;
    while i < |s|
      invariant 0 <= i <= |s|
      invariant forall x :: x in u <==> x in s[..i]
      invariant forall x :: x in u ==> x in s
      invariant Distinct(u)
      invariant InFirstAppearanceOrder(u, s)
      invariant forall x :: x in u ==> FirstIndex(s, x) < i
    {
      var x := s[i];
      if x !in u {
        assert forall j :: 0 <= j < i ==> s[j] != x by {
          forall j | 0 <= j < i
            ensures s[j] != x
          {
            assert s[j] == s[..i][j];
          }
        }
        assert FirstIndex(s, x) == i;
        u := u + [x];
      }
      assert s[..i + 1] == s[..i] + [x];
      i := i + 1;
    }
    assert s[..i] == s;
  }

  /** The countries offered once a continent is chosen. */
  method CountryDropdown(t: seq<Row>, continent: string) returns (options: seq<string>)
    ensures forall c :: c in options <==>
      exists i :: 0 <= i < |t| && t[i].resort.continent == continent && t[i].resort.country == c
    ensures Distinct(options)
    ensures forall c :: c in options ==> c in ContinentCountries(t, continent)
    ensures InFirstAppearanceOrder(options, ContinentCountries(t, continent))
  {
    options := Unique(ContinentCountries(t, continent));
  }

  /** The continents offered by the first dropdown. */
  method ContinentDropdown(t: seq<Row>) returns (options: seq<string>)
    ensures forall c :: c in options <==> exists i :: 0 <= i < |t| && t[i].resort.continent == c
    ensures Distinct(options)
    ensures InFirstAppearanceOrder(options, Continents(t))
  {
    options := Unique(Continents(t));
  }

  lemma SameElementsSameEmptiness<T>(a: seq<T>, b: seq<T>)
    requires forall x :: x in a <==> x in b
    ensures |a| == 0 <==> |b| == 0
  {
    if |a| > 0 {
      assert a[0] in b;
    }
    if |b| > 0 {
      assert b[0] in a;
    }
  }

  /** Two such lists start with the same element: the one that appears first. */
  lemma SameHead<T>(s: seq<T>, a: seq<T>, b: seq<T>)
    requires |a| > 0 && |b| > 0
    requires forall x :: x in a <==> x in b
    requires forall x :: x in a ==> x in s
    requires InFirstAppearanceOrder(a, s) && InFirstAppearanceOrder(b, s)
    ensures a[0] == b[0]
  {
    assert forall k :: 0 <= k < |a| ==> FirstIndex(s, a[0]) <= FirstIndex(s, a[k]);
    assert forall k :: 0 <= k < |b| ==> FirstIndex(s, b[0]) <= FirstIndex(s, b[k]);
    assert a[0] in b && b[0] in a;
    assert FirstIndex(s, a[0]) == FirstIndex(s, b[0]);
  }

  /** Removing the same first element from two repeat-free lists with the same
      elements leaves lists with the same elements. */
  lemma SameTails<T>(a: seq<T>, b: seq<T>)
    requires |a| > 0 && |b| > 0 && a[0] == b[0]
    requires forall x :: x in a <==> x in b
    requires Distinct(a) && Distinct(b)
    ensures forall x :: x in a[1..] <==> x in b[1..]
  {
    forall x
      ensures x in a[1..] <==> x in b[1..]
    {
      if x in a[1..] {
        assert x in a && x != a[0];
      }
      if x in b[1..] {
        assert x in b && x != b[0];
      }
    }
  }

  /** The three properties of `Unique` leave no freedom: two sequences with the
      same elements, both without repeats and both in first-appearance order
      of `s`, are equal. */
  lemma {:induction false} FirstAppearanceListIsUnique<T>(s: seq<T>, a: seq<T>, b: seq<T>)
    requires forall x :: x in a <==> x in b
    requires forall x :: x in a ==> x in s
    requires Distinct(a) && Distinct(b)
    requires InFirstAppearanceOrder(a, s) && InFirstAppearanceOrder(b, s)
    ensures a == b
  {
    SameElementsSameEmptiness(a, b);
    if |a| > 0 {
      SameHead(s, a, b);
      SameTails(a, b);
      assert Distinct(a[1..]) && Distinct(b[1..]);
      assert InFirstAppearanceOrder(a[1..], s) && InFirstAppearanceOrder(b[1..], s);
      FirstAppearanceListIsUnique(s, a[1..], b[1..]);
      assert a == [a[0]] + a[1..];
      assert b == [b[0]] + b[1..];
    }
  }
}
