/** Facts about sequences without duplicates that several modules use. */
module Sequences {

  /** The elements of a sequence. */
  ghost function Elems<T>(s: seq<T>): set<T> {
    set x | x in s
  }

  ghost predicate Distinct<T>(s: seq<T>) {
    forall i, j :: 0 <= i < j < |s| ==> s[i] != s[j]
  }

  lemma SmallerSet<T>(a: set<T>, b: set<T>)
    requires a < b
    ensures |a| < |b|
  {
    assert b == a + (b - a);
    assert |b - a| > 0;
  }

  ghost predicate Below(order: seq<nat>, n: nat) {
    forall y :: 0 <= y < |order| ==> order[y] < n
  }

  /** A duplicate-free list of indices below `n` has at most `n` entries, and with `n` entries it has them all. */
  lemma {:induction false} Pigeonhole(order: seq<nat>, n: nat)
    requires Distinct(order) && Below(order, n)
    ensures |order| <= n
    ensures |order| == n ==> forall j: nat :: j < n ==> j in order
  {
    assert order != [] ==> 0 <= order[0] < n;
    if n > 0 {
      if i :| 0 <= i < |order| && order[i] == n - 1 {
        var rest := order[..i] + order[i + 1..];
        assert forall y :: 0 <= y < |rest| ==> rest[y] == order[if y < i then y else y + 1];
        assert |rest| == |order| - 1;
        Pigeonhole(rest, n - 1);
        forall j: nat | |order| == n && j < n
          ensures j in order
        {
          if j < n - 1 {
            assert j in rest;
          }
        }
      } else {
        Pigeonhole(order, n - 1);
      }
    }
  }

  /** Covering the indices below `n` takes at least `n` entries. */
  lemma {:induction false} CoverNeeds(order: seq<nat>, n: nat)
    requires forall j: nat :: j < n ==> j in order
    ensures |order| >= n
  {
    if n > 0 {
      assert n - 1 in order;
      var i :| 0 <= i < |order| && order[i] == n - 1;
      var rest := order[..i] + order[i + 1..];
      forall j: nat | j < n - 1
        ensures j in rest
      {
        assert j in order;
        var k :| 0 <= k < |order| && order[k] == j;
        assert rest[if k < i then k else k - 1] == j;
      }
      CoverNeeds(rest, n - 1);
    }
  }

  lemma {:induction false} DistinctSize<T>(s: seq<T>)
    requires Distinct(s)
    ensures |Elems(s)| == |s|
  {
    if s != [] {
      var init, last := s[..|s| - 1], s[|s| - 1];
      assert s == init + [last];
      DistinctSize(init);
      assert Elems(s) == Elems(init) + {last};
    }
  }

  lemma {:induction false} DistinctMultiset<T>(s: seq<T>, x: T)
    requires Distinct(s)
    ensures multiset(s)[x] == if x in s then 1 else 0
  {
    if s != [] {
      assert s == [s[0]] + s[1..];
      DistinctMultiset(s[1..], x);
    }
  }

  lemma SameMultiset<T>(a: seq<T>, b: seq<T>)
    requires Distinct(a) && Distinct(b) && Elems(a) == Elems(b)
    ensures multiset(a) == multiset(b)
  {
    forall x | x in multiset(a) || x in multiset(b)
      ensures multiset(a)[x] == multiset(b)[x]
    {
      assert x in Elems(a) <==> x in Elems(b);
      DistinctMultiset(a, x);
      DistinctMultiset(b, x);
    }
  }
}
