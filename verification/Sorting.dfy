/**
 Sorting as ORDER BY sees it: the rows of a result, smallest first.
 */
module Sorting {

  predicate Sorted(s: seq<int>) {
    forall i, j :: 0 <= i < j < |s| ==> s[i] <= s[j]
  }

  /** Strictly increasing: sorted, and no value twice. */
  predicate Increasing(s: seq<int>) {
    forall i, j :: 0 <= i < j < |s| ==> s[i] < s[j]
  }

  /** How many values at the front of `s` are below `x`. */
  function Rank(x: int, s: seq<int>): (r: nat)
    requires Sorted(s)
    ensures r <= |s|
    ensures forall i :: 0 <= i < r ==> s[i] < x
    ensures forall i :: r <= i < |s| ==> x <= s[i]
  {
    if s == [] || x <= s[0] then 0 else 1 + Rank(x, s[1..])
  }

  function Place(x: int, s: seq<int>): (r: seq<int>)
    requires Sorted(s)
    ensures Sorted(r)
  {
    var k := Rank(x, s);
    s[..k] + ([x] + s[k..])
  }

  lemma InsertedValues(x: int, s: seq<int>, k: nat)
    requires k <= |s|
    ensures multiset(s[..k] + ([x] + s[k..])) == multiset(s) + multiset{x}
  {
    assert s == s[..k] + s[k..];
  }

  /** The values of `s` in ascending order, duplicates kept. */
  function OrderBy(s: seq<int>): (r: seq<int>)
    ensures Sorted(r)
    ensures multiset(r) == multiset(s)
  {
    if s == [] then []
    else
      var rest := OrderBy(s[1..]);
      InsertedValues(s[0], rest, Rank(s[0], rest));
      assert s == [s[0]] + s[1..];
      Place(s[0], rest)
  }

  lemma HeadIsLeast(a: seq<int>, x: int)
    requires Sorted(a) && x in multiset(a)
    ensures a != [] && a[0] <= x
  {
    assert x in a;
  }

  /** A sorted sequence is determined by its values, so ORDER BY has one answer. */
  lemma {:induction false} SortedUnique(a: seq<int>, b: seq<int>)
    requires Sorted(a) && Sorted(b)
    requires multiset(a) == multiset(b)
    ensures a == b
    decreases |a|, 1
  {
    if a == [] {
      assert |b| == |multiset(b)| == |multiset(a)|;
    } else {
      assert a[0] in multiset(a);
      HeadIsLeast(b, a[0]);
      assert b[0] in multiset(b);
      HeadIsLeast(a, b[0]);
      assert a == [a[0]] + a[1..] && b == [b[0]] + b[1..];
      SortedTailsUnique(a, b);
    }
  }

  lemma {:induction false} SortedTailsUnique(a: seq<int>, b: seq<int>)
    requires Sorted(a) && Sorted(b) && a != [] && b != [] && a[0] == b[0]
    requires multiset(a) == multiset(b)
    ensures a[1..] == b[1..]
    decreases |a|, 0
  {
    assert a == [a[0]] + a[1..] && b == [b[0]] + b[1..];
    assert multiset(a[1..]) == multiset(a) - multiset{a[0]};
    SortedUnique(a[1..], b[1..]);
  }

  predicate NoDuplicates(s: seq<int>) {
    forall i, j :: 0 <= i < j < |s| ==> s[i] != s[j]
  }

  /** The count of a value in a sequence without duplicates. */
  lemma {:induction false} NoDuplicatesCount(s: seq<int>, x: int)
    requires NoDuplicates(s)
    ensures multiset(s)[x] <= 1
  {
    if s != [] {
      assert s == [s[0]] + s[1..];
      NoDuplicatesCount(s[1..], x);
      if x == s[0] {
        assert x !in s[1..];
        assert x !in multiset(s[1..]);
      }
    }
  }

  lemma TwiceCountsTwo(s: seq<int>, i: nat, j: nat)
    requires i < j < |s| && s[i] == s[j]
    ensures multiset(s)[s[i]] >= 2
  {
    assert s == s[..j] + s[j..];
    assert s[i] in s[..j] && s[j] in s[j..];
    assert s[i] in multiset(s[..j]) && s[j] in multiset(s[j..]);
  }

  /** Ordering values that are all different gives a strictly increasing sequence of the same values. */
  lemma OrderByDistinct(s: seq<int>)
    requires NoDuplicates(s)
    ensures Increasing(OrderBy(s))
    ensures forall x :: x in OrderBy(s) <==> x in s
  {
    var r := OrderBy(s);
    forall i, j | 0 <= i < j < |r| ensures r[i] < r[j] {
      if r[i] == r[j] {
        TwiceCountsTwo(r, i, j);
        NoDuplicatesCount(s, r[i]);
      }
    }
    forall x ensures x in r <==> x in s {
      assert x in r <==> x in multiset(r);
      assert x in s <==> x in multiset(s);
    }
  }

  /** What is already increasing stays as it is. */
  lemma OrderByIncreasing(s: seq<int>)
    requires Increasing(s)
    ensures OrderBy(s) == s
  {
    SortedUnique(OrderBy(s), s);
  }
}
