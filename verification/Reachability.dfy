/**
 Finite directed graphs given by their set of links: the nodes reachable from a
 set, and when no node reaches itself.  Everything here is stated on links
 only, so that it can speak about filters, which are objects.
 */
module Reachability {
  import opened Sequences

  /** The nodes that some link leaving `s` arrives at. */
  ghost function Targets<T>(links: set<(T, T)>, s: set<T>): set<T> {
    set e | e in links && e.0 in s :: e.1
  }

  /** The nodes that have an incoming link. */
  ghost function Entered<T>(links: set<(T, T)>): set<T> {
    set e | e in links :: e.1
  }

  /** The nodes reachable from `s` by zero or more links. */
  ghost function Reach<T>(links: set<(T, T)>, s: set<T>): (r: set<T>)
    ensures s <= r
    ensures Targets(links, r) <= r
    decreases |Entered(links) - s|
  {
    var next := s + Targets(links, s);
    if next == s then
      s
    else
      assert Entered(links) - next < Entered(links) - s by {
        assert Targets(links, s) <= Entered(links);
      }
      SmallerSet(Entered(links) - next, Entered(links) - s);
      Reach(links, next)
  }

  /** Reach is the least set that contains `s` and is closed under links. */
  lemma {:induction false} ReachIsLeast<T>(links: set<(T, T)>, s: set<T>, closed: set<T>)
    requires s <= closed
    requires Targets(links, closed) <= closed
    ensures Reach(links, s) <= closed
    decreases |Entered(links) - s|
  {
    var next := s + Targets(links, s);
    if next != s {
      assert Entered(links) - next < Entered(links) - s by {
        assert Targets(links, s) <= Entered(links);
      }
      SmallerSet(Entered(links) - next, Entered(links) - s);
      assert Targets(links, s) <= Targets(links, closed);
      ReachIsLeast(links, next, closed);
    }
  }

  lemma ReachOfUnion<T>(links: set<(T, T)>, a: set<T>, b: set<T>)
    ensures Reach(links, a + b) == Reach(links, a) + Reach(links, b)
  {
    var u := Reach(links, a) + Reach(links, b);
    assert Targets(links, u) <= u by {
      assert Targets(links, u) == Targets(links, Reach(links, a)) + Targets(links, Reach(links, b));
    }
    ReachIsLeast(links, a + b, u);
    ReachIsLeast(links, a, Reach(links, a + b));
    ReachIsLeast(links, b, Reach(links, a + b));
  }

  /** No link starts at a node that its own target reaches. */
  ghost predicate Acyclic<T>(links: set<(T, T)>) {
    forall e :: e in links ==> e.0 !in Reach(links, {e.1})
  }

  /** Every link points forward in `order`. */
  ghost predicate Forward<T>(order: seq<T>, links: set<(T, T)>) {
    forall e :: e in links ==>
      exists i, j :: 0 <= i < j < |order| && order[i] == e.0 && order[j] == e.1
  }

  lemma ForwardIsAcyclic<T>(order: seq<T>, links: set<(T, T)>)
    requires Distinct(order) && Forward(order, links)
    ensures Acyclic(links)
  {
    hide Reach, Targets;
    forall e | e in links
      ensures e.0 !in Reach(links, {e.1})
    {
      var i, j :| 0 <= i < j < |order| && order[i] == e.0 && order[j] == e.1;
      assert order[i + 1..][j - i - 1] == e.1;
      LaterIsClosed(order, links, i + 1);
      ReachIsLeast(links, {e.1}, Elems(order[i + 1..]));
    }
  }

  lemma LaterIsClosed<T>(order: seq<T>, links: set<(T, T)>, n: nat)
    requires Distinct(order) && Forward(order, links) && n <= |order|
    ensures Targets(links, Elems(order[n..])) <= Elems(order[n..])
  {
    forall e | e in links && e.0 in order[n..]
      ensures e.1 in order[n..]
    {
      var x, y :| 0 <= x < y < |order| && order[x] == e.0 && order[y] == e.1;
      var z :| n <= z < |order| && order[z] == e.0;
      assert x == z;
      assert order[n..][y - n] == e.1;
    }
  }

  ghost predicate EnteredFrom<T>(links: set<(T, T)>, s: set<T>, u: T) {
    exists e :: e in links && e.0 in s && e.1 == u
  }

  /** Every node of `stuck` is entered from `stuck`. */
  ghost predicate Stuck<T>(links: set<(T, T)>, stuck: set<T>) {
    forall u {:trigger EnteredFrom(links, stuck, u)} :: u in stuck ==> EnteredFrom(links, stuck, u)
  }

  lemma StuckHasCycle<T>(links: set<(T, T)>, stuck: set<T>)
    requires stuck != {} && Stuck(links, stuck)
    ensures !Acyclic(links)
  {
    var u :| u in stuck;
    WalkBack(links, stuck, u, {u});
  }

  /** Walks links backwards inside `stuck`; `seen` are the nodes met, all reachable from `u`. */
  lemma {:induction false} WalkBack<T>(links: set<(T, T)>, stuck: set<T>, u: T, seen: set<T>)
    requires Stuck(links, stuck)
    requires u in stuck && u in seen && seen <= stuck
    requires seen <= Reach(links, {u})
    ensures !Acyclic(links)
    decreases |stuck - seen|
  {
    assert EnteredFrom(links, stuck, u);
    var e :| e in links && e.0 in stuck && e.1 == u;
    if e.0 in seen {
      assert e.0 in Reach(links, {e.1});
    } else {
      SmallerSet(stuck - (seen + {e.0}), stuck - seen);
      var r := Reach(links, {e.0});
      assert e in links && e.0 in r;
      assert u in Targets(links, r);
      ReachIsLeast(links, {u}, r);
      WalkBack(links, stuck, e.0, seen + {e.0});
    }
  }

  /** `links` with every link into `gone` cut. */
  ghost function CutInto<T>(links: set<(T, T)>, gone: set<T>): set<(T, T)> {
    set e | e in links && e.1 !in gone
  }

  /**
   Cutting the links into a closed set hides nothing but members of that set:
   reaching from `s` after the cut, plus the set, is what `s` reached before.
   */
  lemma ReachAfterCut<T>(links: set<(T, T)>, gone: set<T>, s: set<T>)
    requires Targets(links, gone) <= gone
    ensures Reach(CutInto(links, gone), s) + gone == Reach(links, s) + gone
  {
    var cut := CutInto(links, gone);
    var after, before := Reach(cut, s) + gone, Reach(links, s);
    forall e | e in links && e.0 in after
      ensures e.1 in after
    {
      if e.0 in gone {
        assert e.1 in Targets(links, gone);
      } else if e.1 !in gone {
        assert e in cut;
        assert e.1 in Targets(cut, Reach(cut, s));
      }
    }
    ReachIsLeast(links, s, after);
    assert Targets(cut, before) <= Targets(links, before);
    ReachIsLeast(cut, s, before);
  }
}
