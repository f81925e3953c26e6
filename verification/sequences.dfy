/**
 Order facts about sequences that several views of the dashboard rely on:
 order-preserving subsequences, distinctness and first appearance (for
 `unique`), and a descending sort by an integer key (for `sort_values`).
 */
module Sequences {

  /** `a` is what is left of `b` after deleting some elements, the rest kept
      in their original order. */
  predicate SubsequenceOf<T(==)>(a: seq<T>, b: seq<T>)
    decreases |b|
  {
    if |a| == 0 then true
    else if |b| == 0 then false
    else (a[0] == b[0] && SubsequenceOf(a[1..], b[1..])) || SubsequenceOf(a, b[1..])
  }

  /** The elements of `s` that satisfy `p`, in their original order: what a
      boolean mask or a `query` keeps of a table. */
  function Filter<T(==,!new)>(s: seq<T>, p: T -> bool): (r: seq<T>)
    ensures SubsequenceOf(r, s)
    ensures forall x :: x in r <==> x in s && p(x)
  {
    if |s| == 0 then []
    else
      var rest := Filter(s[1..], p);
      assert s == [s[0]] + s[1..];
      if p(s[0]) then
        assert ([s[0]] + rest)[1..] == rest;
        [s[0]] + rest
      else
        rest
  }

  /** The filter keeps every element that satisfies `p` as often as `s` holds
      it, and no other element. */
  lemma {:induction false} FilterCount<T(!new)>(s: seq<T>, p: T -> bool)
    ensures forall x :: multiset(Filter(s, p))[x] == if p(x) then multiset(s)[x] else 0
  {
    if |s| > 0 {
      FilterCount(s[1..], p);
      assert s == [s[0]] + s[1..];
    }
  }

  /** One step of the filter: keep or drop the first element. */
  lemma FilterCons<T(!new)>(s: seq<T>, p: T -> bool)
    requires |s| > 0
    ensures Filter(s, p) == (if p(s[0]) then [s[0]] else []) + Filter(s[1..], p)
  {
  }

  /** `f` applied to every element, in order. */
  function Map<A, B>(s: seq<A>, f: A -> B): (r: seq<B>)
    ensures |r| == |s|
    ensures forall k :: 0 <= k < |s| ==> r[k] == f(s[k])
  {
    if |s| == 0 then [] else [f(s[0])] + Map(s[1..], f)
  }

  /** Filtering by a property of the image and then mapping is mapping and
      then filtering by that property. */
  lemma {:induction false} FilterThroughMap<A(!new), B(!new)>(s: seq<A>, f: A -> B, p: B -> bool, q: A -> bool)
    requires forall x :: q(x) == p(f(x))
    ensures Map(Filter(s, q), f) == Filter(Map(s, f), p)
  {
    if |s| > 0 {
      FilterThroughMap(s[1..], f, p, q);
      FilterCons(s, q);
      var ms := Map(s, f);
      assert ms[0] == f(s[0]) && ms[1..] == Map(s[1..], f);
      FilterCons(ms, p);
      if q(s[0]) {
        assert Map([s[0]] + Filter(s[1..], q), f) == [f(s[0])] + Map(Filter(s[1..], q), f);
      }
    }
  }

  /** Filtering a concatenation filters each part. */
  lemma {:induction false} FilterAppend<T(!new)>(a: seq<T>, b: seq<T>, p: T -> bool)
    ensures Filter(a + b, p) == Filter(a, p) + Filter(b, p)
  {
    if |a| == 0 {
      assert a + b == b;
    } else {
      var ab := a + b;
      assert ab[0] == a[0] && ab[1..] == a[1..] + b;
      FilterAppend(a[1..], b, p);
      var head := if p(a[0]) then [a[0]] else [];
      assert Filter(ab, p) == head + Filter(ab[1..], p);
      assert Filter(a, p) == head + Filter(a[1..], p);
      assert head + (Filter(a[1..], p) + Filter(b, p)) == (head + Filter(a[1..], p)) + Filter(b, p);
    }
  }

  /** No element occurs twice. */
  predicate Distinct<T(==)>(s: seq<T>)
  {
    forall i, j :: 0 <= i < j < |s| ==> s[i] != s[j]
  }

  /** The index of the first occurrence of `x` in `s`. */
  function FirstIndex<T(==)>(s: seq<T>, x: T): (k: nat)
    requires x in s
    ensures k < |s| && s[k] == x
    ensures forall j :: 0 <= j < k ==> s[j] != x
  {
    if s[0] == x then 0 else 1 + FirstIndex(s[1..], x)
  }

  /** The elements of `s` come in the order of their first appearance in `src`. */
  predicate InFirstAppearanceOrder<T(==)>(s: seq<T>, src: seq<T>)
    requires forall x :: x in s ==> x in src
  {
    forall i, j :: 0 <= i < j < |s| ==> FirstIndex(src, s[i]) < FirstIndex(src, s[j])
  }

  /** `s` is sorted so that `key` never increases from one element to the next. */
  predicate NonIncreasing<T>(s: seq<T>, key: T -> int)
  {
    forall i, j :: 0 <= i < j < |s| ==> key(s[i]) >= key(s[j])
  }

  /** No element of `s` has a key above `b`. */
  predicate KeysAtMost<T>(s: seq<T>, key: T -> int, b: int)
  {
    forall j :: 0 <= j < |s| ==> key(s[j]) <= b
  }

  /** Putting an element with a key at least as large in front keeps the order. */
  lemma ConsSorted<T>(x: T, s: seq<T>, key: T -> int)
    requires NonIncreasing(s, key) && KeysAtMost(s, key, key(x))
    ensures NonIncreasing([x] + s, key)
  {
    var r := [x] + s;
    forall i, j | 0 <= i < j < |r|
      ensures key(r[i]) >= key(r[j])
    {
      if i > 0 {
        assert r[i] == s[i - 1] && r[j] == s[j - 1];
      } else {
        assert r[j] == s[j - 1];
      }
    }
  }

  /** Putting an element under the bound in front keeps every key under it. */
  lemma ConsBounded<T>(x: T, s: seq<T>, key: T -> int, b: int)
    requires key(x) <= b && KeysAtMost(s, key, b)
    ensures KeysAtMost([x] + s, key, b)
  {
    var r := [x] + s;
    forall j | 0 <= j < |r|
      ensures key(r[j]) <= b
    {
      if j > 0 {
        assert r[j] == s[j - 1];
      }
    }
  }

  /** Inserts `x` into a sequence sorted by descending key, in front of the
      first element whose key is not larger than its own. */
  function Insert<T>(x: T, s: seq<T>, key: T -> int): (r: seq<T>)
    requires NonIncreasing(s, key)
    ensures NonIncreasing(r, key)
    ensures multiset(r) == multiset(s) + multiset{x}
    ensures forall b :: KeysAtMost(s, key, b) && key(x) <= b ==> KeysAtMost(r, key, b)
  {
    if |s| == 0 || key(x) >= key(s[0]) then
      assert KeysAtMost(s, key, key(x));
      ConsSorted(x, s, key);
      assert forall b :: KeysAtMost(s, key, b) && key(x) <= b ==> KeysAtMost([x] + s, key, b) by {
        forall b | KeysAtMost(s, key, b) && key(x) <= b
          ensures KeysAtMost([x] + s, key, b)
        {
          ConsBounded(x, s, key, b);
        }
      }
      [x] + s
    else
      var rest := Insert(x, s[1..], key);
      assert KeysAtMost(s[1..], key, key(s[0]));
      ConsSorted(s[0], rest, key);
      assert s == [s[0]] + s[1..];
      assert multiset([s[0]] + rest) == multiset{s[0]} + multiset(rest);
      assert forall b :: KeysAtMost(s, key, b) && key(x) <= b ==> KeysAtMost([s[0]] + rest, key, b) by {
        forall b | KeysAtMost(s, key, b) && key(x) <= b
          ensures KeysAtMost([s[0]] + rest, key, b)
        {
          assert key(s[0]) <= b;
          assert KeysAtMost(s[1..], key, b);
          ConsBounded(s[0], rest, key, b);
        }
      }
      [s[0]] + rest
  }

  /** Sorts by descending key: the result is a permutation of `s` whose keys
      never increase. Which of several equal-key elements comes first is
      not part of the contract. */
  function SortDesc<T>(s: seq<T>, key: T -> int): (r: seq<T>)
    ensures NonIncreasing(r, key)
    ensures multiset(r) == multiset(s)
  {
    if |s| == 0 then []
    else
      assert s == [s[0]] + s[1..];
      Insert(s[0], SortDesc(s[1..], key), key)
  }
}
