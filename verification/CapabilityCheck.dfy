/**
 Capability negotiation: a capability value is fixed, an interval or a discrete
 list, and merging two capabilities is meant to be intersection, key by key.
 */
module CapabilityCheck {

  datatype Option<T> = None | Some(value: T)

  // ------------------------------------------------------------------
  // Values
  // ------------------------------------------------------------------

  /** The element types that capability values are made of. */
  datatype Elem = U32 | I64 | ChannelLayout | SampleFormat | AacProfile | AacStreamFormat | PixelFormat | BitStreamFormat

  datatype Shape = Fixed(v: int) | Interval(first: int, second: int) | Discrete(vs: seq<int>)

  /** A dynamically typed value: a capability of some element type, or something else. */
  datatype Value = Cap(elem: Elem, shape: Shape) | Foreign

  /** What a value stands for: the configurations it admits. */
  predicate Admits(s: Shape, x: int) {
    match s
    case Fixed(v) => x == v
    case Interval(a, b) => a <= x <= b || b <= x <= a
    case Discrete(vs) => x in vs
  }

  ghost function Values(s: Shape): set<int> {
    match s
    case Fixed(v) => {v}
    case Interval(a, b) => {a, b}
    case Discrete(vs) => set x | x in vs
  }

  predicate Ordered(s: Shape) {
    s.Interval? ==> s.first <= s.second
  }

  predicate Empty(s: Shape) {
    s.Discrete? && s.vs == []
  }

  // ------------------------------------------------------------------
  // Comparison
  // ------------------------------------------------------------------

  const TWO31 := 0x8000_0000
  const TWO32 := 0x1_0000_0000

  /** Conversion to a 32-bit `int`. */
  function Wrap32(x: int): int {
    var m := x % TWO32;
    if m >= TWO31 then m - TWO32 else m
  }

  /** The comparison functions: a difference, whatever its type, narrowed to `int`. */
  function Compare(a: int, b: int): int {
    Wrap32(a - b)
  }

  ghost predicate Near(s: set<int>) {
    forall x, y :: x in s && y in s ==> -TWO31 < x - y < TWO31
  }

  /** On values that lie near each other the comparison is the difference. */
  lemma CompareExact(s: set<int>, a: int, b: int)
    requires Near(s) && a in s && b in s
    ensures Compare(a, b) == a - b
  {
    assert -TWO31 < a - b < TWO31;
  }

  lemma MaxMinExact(s: set<int>, a: int, b: int)
    requires Near(s) && a in s && b in s
    ensures Max(a, b) == if a >= b then a else b
    ensures Min(a, b) == if a <= b then a else b
  {
    CompareExact(s, a, b);
  }

  function Max(a: int, b: int): int {
    if Compare(a, b) >= 0 then a else b
  }

  function Min(a: int, b: int): int {
    if Compare(a, b) <= 0 then a else b
  }

  // ------------------------------------------------------------------
  // The checks, one per pair of kinds
  // ------------------------------------------------------------------

  function CheckFF(a: int, b: int): Option<Shape> {
    if Compare(a, b) == 0 then Some(Fixed(a)) else None
  }

  function CheckFI(v: int, first: int, second: int): Option<Shape> {
    if Compare(v, Min(first, second)) >= 0 && Compare(v, Max(first, second)) <= 0 then Some(Fixed(v)) else None
  }

  predicate AnyEqual(vs: seq<int>, v: int) {
    exists i :: 0 <= i < |vs| && Compare(vs[i], v) == 0
  }

  function CheckFD(v: int, vs: seq<int>): Option<Shape> {
    if AnyEqual(vs, v) then Some(Fixed(v)) else None
  }

  function CheckII(a: Shape, b: Shape): Option<Shape>
    requires a.Interval? && b.Interval?
  {
    var low := Max(Min(a.first, a.second), Min(b.first, b.second));
    var high := Min(Max(a.first, a.second), Max(b.first, b.second));
    var c := Compare(low, high);
    if c > 0 then None else if c == 0 then Some(Fixed(low)) else Some(Interval(low, high))
  }

  /** The outcome for the list of values that passed: none, one, or several. */
  function Collected(vs: seq<int>): Option<Shape> {
    if vs == [] then None else if |vs| == 1 then Some(Fixed(vs[0])) else Some(Discrete(vs))
  }

  /** The members of `vs` between the ends, which are not put in order first. */
  function Between(vs: seq<int>, first: int, second: int): seq<int> {
    if vs == [] then []
    else
      var v := vs[|vs| - 1];
      Between(vs[..|vs| - 1], first, second) +
      if Compare(v, first) >= 0 && Compare(v, second) <= 0 then [v] else []
  }

  /** The members of `vs` that `other` has too. */
  function Common(vs: seq<int>, other: seq<int>): seq<int> {
    if vs == [] then []
    else
      var v := vs[|vs| - 1];
      Common(vs[..|vs| - 1], other) + if exists i :: 0 <= i < |other| && Compare(v, other[i]) == 0 then [v] else []
  }

  method IDCapabilityCheck(first: int, second: int, vs: seq<int>) returns (out: Option<Shape>)
    ensures out == Collected(Between(vs, first, second))
  {
    var tmp: seq<int> := [];
    for i := 0 to |vs|
      invariant tmp == Between(vs[..i], first, second)
    {
      assert vs[..i + 1][..i] == vs[..i];
      if Compare(vs[i], first) >= 0 && Compare(vs[i], second) <= 0 {
        tmp := tmp + [vs[i]];
      }
    }
    assert vs[..|vs|] == vs;
    out := Collected(tmp);
  }

  method DDCapabilityCheck(vs: seq<int>, other: seq<int>) returns (out: Option<Shape>)
    ensures out == Collected(Common(vs, other))
  {
    var tmp: seq<int> := [];
    for i := 0 to |vs|
      invariant tmp == Common(vs[..i], other)
    {
      assert vs[..i + 1][..i] == vs[..i];
      if exists k :: 0 <= k < |other| && Compare(vs[i], other[k]) == 0 {
        tmp := tmp + [vs[i]];
      }
    }
    assert vs[..|vs|] == vs;
    out := Collected(tmp);
  }

  /** The check for the kinds of its two arguments; the first argument comes from the original capability. */
  function Check(a: Shape, b: Shape): Option<Shape> {
    match (a, b)
    case (Fixed(v), Fixed(w)) => CheckFF(v, w)
    case (Fixed(v), Interval(x, y)) => CheckFI(v, x, y)
    case (Fixed(v), Discrete(ws)) => CheckFD(v, ws)
    case (Interval(x, y), Fixed(w)) => CheckFI(w, x, y)
    case (Interval(_, _), Interval(_, _)) => CheckII(b, a)
    case (Interval(x, y), Discrete(ws)) => Collected(Between(ws, x, y))
    case (Discrete(vs), Fixed(w)) => CheckFD(w, vs)
    case (Discrete(vs), Interval(x, y)) => Collected(Between(vs, x, y))
    case (Discrete(vs), Discrete(ws)) => Collected(Common(ws, vs))
  }

  /**
   The out value of a check is the intersection of its arguments, and there is
   none when that is empty; it is in order and made of the arguments' values.
   */
  ghost predicate Intersects(a: Shape, b: Shape, out: Option<Shape>) {
    match out
    case None => forall x :: !(Admits(a, x) && Admits(b, x))
    case Some(c) =>
      && (forall x :: Admits(c, x) <==> Admits(a, x) && Admits(b, x))
      && Ordered(c) && !Empty(c)
      && Values(c) <= Values(a) + Values(b)
  }

  /** Equal modulo 2^32, which is equal to the comparison. */
  predicate Congruent(x: int, y: int) {
    (x - y) % TWO32 == 0
  }

  lemma CompareZero(a: int, b: int)
    ensures Compare(a, b) == 0 <==> Congruent(a, b)
    ensures Congruent(a, b) <==> Congruent(b, a)
  {
  }

  /** Some number that the value admits looks like `x` to the comparison. */
  ghost predicate Aliased(s: Shape, x: int) {
    exists y :: Admits(s, y) && Congruent(x, y)
  }

  lemma AdmittedIsAliased(s: Shape, x: int)
    requires Admits(s, x)
    ensures Aliased(s, x)
  {
    assert Congruent(x, x);
  }

  /** An interval whose ends the comparison puts in the right order. */
  predicate Narrow(s: Shape) {
    s.Interval? ==> -TWO31 < s.first - s.second < TWO31
  }

  lemma WrapUnique(x: int, k: int, r: int)
    requires x == k * TWO32 + r && -TWO31 <= r < TWO31
    ensures Wrap32(x) == r
  {
    assert x % TWO32 == if r >= 0 then r else r + TWO32;
  }

  lemma AliasPasses(v: int, y: int, low: int, high: int)
    requires low <= y <= high < low + TWO31 && Congruent(v, y)
    ensures Compare(v, low) >= 0 && Compare(v, high) <= 0
  {
    var k := (v - y) / TWO32;
    assert v - y == k * TWO32;
    WrapUnique(v - low, k, y - low);
    WrapUnique(v - high, k, y - high);
  }

  lemma PassingAlias(v: int, low: int, high: int) returns (y: int)
    requires low <= high < low + TWO31 && Compare(v, low) >= 0 && Compare(v, high) <= 0
    ensures low <= y <= high && Congruent(v, y)
  {
    var k, r := (v - low) / TWO32, (v - low) % TWO32;
    assert v - low == k * TWO32 + r && Compare(v, low) == r < TWO31;
    if r > high - low {
      WrapUnique(v - high, k, r - (high - low));
    }
    y := low + r;
    assert v - y == k * TWO32;
    MultipleIsCongruent(v, y, k);
  }

  lemma MultipleIsCongruent(x: int, y: int, k: int)
    requires x - y == k * TWO32
    ensures Congruent(x, y)
  {
  }

  /** A number passes between the ends of a narrow interval exactly when it is congruent to one that lies there. */
  lemma PassesExact(v: int, low: int, high: int)
    requires low <= high < low + TWO31
    ensures Compare(v, low) >= 0 && Compare(v, high) <= 0 <==> Aliased(Interval(low, high), v)
  {
    hide Compare, Congruent;
    if Aliased(Interval(low, high), v) {
      var y :| Admits(Interval(low, high), y) && Congruent(v, y);
      AliasPasses(v, y, low, high);
    }
    if Compare(v, low) >= 0 && Compare(v, high) <= 0 {
      var y := PassingAlias(v, low, high);
      assert Admits(Interval(low, high), y);
    }
  }

  /** The out value admits the members of `kept` that look to the comparison like something `other` admits. */
  ghost predicate Filters(kept: Shape, other: Shape, out: Option<Shape>) {
    match out
    case None => forall x :: !(Admits(kept, x) && Aliased(other, x))
    case Some(c) =>
      && (forall x :: Admits(c, x) <==> Admits(kept, x) && Aliased(other, x))
      && !c.Interval? && !Empty(c)
      && Values(c) <= Values(kept)
  }

  lemma CollectedAdmits(vs: seq<int>)
    ensures Collected(vs).None? <==> vs == []
    ensures Collected(vs).Some? ==>
      var c := Collected(vs).value;
      (forall x :: Admits(c, x) <==> x in vs) && !c.Interval? && !Empty(c) && Values(c) == set x | x in vs
  {
  }

  lemma CollectedFilters(kept: seq<int>, other: Shape, found: seq<int>)
    requires forall x :: x in found <==> x in kept && Aliased(other, x)
    ensures Filters(Discrete(kept), other, Collected(found))
  {
    hide Aliased, Collected;
    CollectedAdmits(found);
    assert forall x :: Admits(Discrete(kept), x) && Aliased(other, x) <==> x in found;
    forall x | x in found
      ensures x in Values(Discrete(kept))
    {
      assert Admits(Discrete(kept), x);
    }
  }

  lemma FixedFilters(v: int, other: Shape, out: Option<Shape>)
    requires out == if Aliased(other, v) then Some(Fixed(v)) else None
    ensures Filters(Fixed(v), other, out)
  {
  }

  lemma {:induction false} BetweenFacts(vs: seq<int>, low: int, high: int, x: int)
    requires low <= high < low + TWO31
    ensures x in Between(vs, low, high) <==> x in vs && Aliased(Interval(low, high), x)
  {
    hide Compare, Aliased;
    if vs != [] {
      var init, last := vs[..|vs| - 1], vs[|vs| - 1];
      assert vs == init + [last];
      BetweenFacts(init, low, high, x);
      PassesExact(last, low, high);
    }
  }

  lemma AnyEqualFacts(vs: seq<int>, v: int)
    ensures AnyEqual(vs, v) <==> Aliased(Discrete(vs), v)
    ensures (exists i :: 0 <= i < |vs| && Compare(v, vs[i]) == 0) <==> Aliased(Discrete(vs), v)
  {
    hide Compare, Congruent;
    forall i | 0 <= i < |vs|
      ensures Compare(vs[i], v) == 0 <==> Congruent(v, vs[i])
      ensures Compare(v, vs[i]) == 0 <==> Congruent(v, vs[i])
    {
      CompareZero(vs[i], v);
      CompareZero(v, vs[i]);
    }
    if Aliased(Discrete(vs), v) {
      var y :| Admits(Discrete(vs), y) && Congruent(v, y);
      var i :| 0 <= i < |vs| && vs[i] == y;
      assert Congruent(v, vs[i]);
    }
  }

  lemma {:induction false} CommonFacts(vs: seq<int>, other: seq<int>, x: int)
    ensures x in Common(vs, other) <==> x in vs && Aliased(Discrete(other), x)
  {
    hide Compare, Aliased;
    if vs != [] {
      var init, last := vs[..|vs| - 1], vs[|vs| - 1];
      assert vs == init + [last];
      CommonFacts(init, other, x);
      AnyEqualFacts(other, last);
    }
  }

  lemma FixedInInterval(v: int, first: int, second: int)
    requires Narrow(Interval(first, second))
    ensures Filters(Fixed(v), Interval(first, second), CheckFI(v, first, second))
  {
    hide Compare, Max, Min, Aliased;
    MaxMinExact({first, second}, first, second);
    var low, high := Min(first, second), Max(first, second);
    PassesExact(v, low, high);
    assert Aliased(Interval(low, high), v) <==> Aliased(Interval(first, second), v) by {
      SameAliases(Interval(low, high), Interval(first, second), v);
    }
    FixedFilters(v, Interval(first, second), CheckFI(v, first, second));
  }

  lemma SameAliases(s: Shape, t: Shape, x: int)
    requires forall y :: Admits(s, y) <==> Admits(t, y)
    ensures Aliased(s, x) <==> Aliased(t, x)
  {
  }

  lemma FixedInList(v: int, vs: seq<int>)
    ensures Filters(Fixed(v), Discrete(vs), CheckFD(v, vs))
  {
    hide AnyEqual, Aliased;
    AnyEqualFacts(vs, v);
    FixedFilters(v, Discrete(vs), CheckFD(v, vs));
  }

  lemma FixedWithFixed(v: int, w: int)
    ensures Filters(Fixed(v), Fixed(w), CheckFF(v, w))
  {
    hide Compare, Congruent;
    CompareZero(v, w);
  }

  lemma ListInInterval(vs: seq<int>, low: int, high: int)
    requires low <= high < low + TWO31
    ensures Filters(Discrete(vs), Interval(low, high), Collected(Between(vs, low, high)))
  {
    hide Aliased, Between;
    forall x
      ensures x in Between(vs, low, high) <==> x in vs && Aliased(Interval(low, high), x)
    {
      BetweenFacts(vs, low, high, x);
    }
    CollectedFilters(vs, Interval(low, high), Between(vs, low, high));
  }

  lemma ListInList(vs: seq<int>, other: seq<int>)
    ensures Filters(Discrete(vs), Discrete(other), Collected(Common(vs, other)))
  {
    hide Aliased, Common;
    forall x
      ensures x in Common(vs, other) <==> x in vs && Aliased(Discrete(other), x)
    {
      CommonFacts(vs, other, x);
    }
    CollectedFilters(vs, Discrete(other), Common(vs, other));
  }

  lemma IntervalsIntersect(a: Shape, b: Shape)
    requires a.Interval? && b.Interval? && Near(Values(a) + Values(b))
    ensures Intersects(a, b, CheckII(a, b))
  {
    hide Compare, Near, Max, Min;
    var s := Values(a) + Values(b);
    MaxMinExact(s, a.first, a.second);
    MaxMinExact(s, b.first, b.second);
    MaxMinExact(s, Min(a.first, a.second), Min(b.first, b.second));
    MaxMinExact(s, Max(a.first, a.second), Max(b.first, b.second));
    var low := Max(Min(a.first, a.second), Min(b.first, b.second));
    var high := Min(Max(a.first, a.second), Max(b.first, b.second));
    CompareExact(s, low, high);
  }

  lemma Flip(a: Shape, b: Shape, out: Option<Shape>)
    requires Intersects(b, a, out)
    ensures Intersects(a, b, out)
  {
  }

  // ------------------------------------------------------------------
  // When a check is intersection
  // ------------------------------------------------------------------

  /** Intervals are narrow, and in order where the other side is a list. */
  predicate WellFormed(a: Shape, b: Shape) {
    && Narrow(a) && Narrow(b)
    && (b.Discrete? ==> Ordered(a)) && (a.Discrete? ==> Ordered(b))
  }

  /** No member is mistaken for something that the other side admits. */
  ghost predicate Told(kept: Shape, other: Shape) {
    forall x :: x in Values(kept) && Aliased(other, x) ==> Admits(other, x)
  }

  lemma CheckFilters(a: Shape, b: Shape)
    requires !(a.Interval? && b.Interval?) && WellFormed(a, b)
    ensures
      if b.Interval? || a.Fixed? then Filters(a, b, Check(a, b)) else Filters(b, a, Check(a, b))
  {
    hide Filters, CheckII, CheckFI, Between, Common, CheckFD, CheckFF, Collected;
    match (a, b)
    case (Fixed(v), Fixed(w)) => FixedWithFixed(v, w);
    case (Fixed(v), Interval(x, y)) => FixedInInterval(v, x, y);
    case (Fixed(v), Discrete(ws)) => FixedInList(v, ws);
    case (Interval(x, y), Fixed(w)) => FixedInInterval(w, x, y);
    case (Interval(x, y), Discrete(ws)) => ListInInterval(ws, x, y);
    case (Discrete(vs), Fixed(w)) => FixedInList(w, vs);
    case (Discrete(vs), Interval(x, y)) => ListInInterval(vs, x, y);
    case (Discrete(vs), Discrete(ws)) => ListInList(ws, vs);
    case (Interval(_, _), Interval(_, _)) =>
  }

  lemma FiltersExact(kept: Shape, other: Shape, out: Option<Shape>)
    requires !kept.Interval? && Filters(kept, other, out)
    ensures Intersects(kept, other, out) <==> Told(kept, other)
  {
    hide Aliased;
    assert forall x :: Admits(kept, x) <==> x in Values(kept);
    forall x | Admits(other, x)
      ensures Aliased(other, x)
    {
      AdmittedIsAliased(other, x);
    }
    if !Told(kept, other) {
      var x :| x in Values(kept) && Aliased(other, x) && !Admits(other, x);
      assert Admits(kept, x);
      assert out.Some? && Admits(out.value, x);
    }
  }

  /** What a check of two values needs: near ends of two intervals, or members that are told apart. */
  ghost predicate Sound(a: Shape, b: Shape) {
    if a.Interval? && b.Interval? then Near(Values(a) + Values(b))
    else if b.Interval? || a.Fixed? then Told(a, b)
    else Told(b, a)
  }

  /** Every check that is sound is intersection. */
  lemma CheckIsIntersection(a: Shape, b: Shape)
    requires WellFormed(a, b) && Sound(a, b)
    ensures Intersects(a, b, Check(a, b))
  {
    hide Filters, Told, Near;
    if a.Interval? && b.Interval? {
      assert Values(a) + Values(b) == Values(b) + Values(a);
      IntervalsIntersect(b, a);
      Flip(a, b, Check(a, b));
    } else {
      CheckExact(a, b);
    }
  }

  /** Unless both sides are intervals, a check is intersection if and only if no member is mistaken for another number. */
  lemma CheckExact(a: Shape, b: Shape)
    requires !(a.Interval? && b.Interval?) && WellFormed(a, b)
    ensures Intersects(a, b, Check(a, b)) <==> Sound(a, b)
  {
    hide Filters, Told, Intersects, Check;
    CheckFilters(a, b);
    if b.Interval? || a.Fixed? {
      FiltersExact(a, b, Check(a, b));
    } else {
      FiltersExact(b, a, Check(a, b));
      if Intersects(a, b, Check(a, b)) {
        Flip(b, a, Check(a, b));
      }
      if Intersects(b, a, Check(a, b)) {
        Flip(a, b, Check(a, b));
      }
    }
  }

  /** Numbers that lie near each other are not mistaken for each other. */
  lemma NearTold(kept: Shape, other: Shape)
    requires Near(Values(kept) + Values(other))
    ensures Told(kept, other)
  {
    var s := Values(kept) + Values(other);
    forall x | x in Values(kept) && Aliased(other, x)
      ensures Admits(other, x)
    {
      var y :| Admits(other, y) && Congruent(x, y);
      if other.Interval? {
        assert other.first in s && other.second in s && x in s;
      } else {
        assert y in s && x in s;
      }
      assert -TWO31 < x - y < TWO31;
    }
  }

  /** 32-bit values, which all types but bit rates and channel layouts have, are never mistaken for each other. */
  lemma WordsTold(kept: Shape, other: Shape)
    requires forall x :: x in Values(kept) + Values(other) ==> 0 <= x < TWO32
    ensures Told(kept, other)
  {
    forall x | x in Values(kept) && Aliased(other, x)
      ensures Admits(other, x)
    {
      var y :| Admits(other, y) && Congruent(x, y);
      if other.Interval? {
        assert other.first in Values(kept) + Values(other) && other.second in Values(kept) + Values(other);
      } else {
        assert y in Values(kept) + Values(other);
      }
      assert x in Values(kept) + Values(other);
    }
  }

  /** Numbers that the comparison tells apart. */
  ghost predicate TellsApart(s: set<int>) {
    forall x, y :: x in s && y in s && Congruent(x, y) ==> x == y
  }

  /** The numbers that two sides are made of can be compared, with intervals among them or not. */
  ghost predicate Comparable(s: set<int>, intervals: bool) {
    if intervals then Near(s) else TellsApart(s)
  }

  lemma SoundFrom(s: set<int>, a: Shape, b: Shape)
    requires Values(a) <= s && Values(b) <= s && Comparable(s, a.Interval? || b.Interval?)
    requires Ordered(a) && Ordered(b)
    ensures WellFormed(a, b) && Sound(a, b)
  {
    hide Congruent;
    if a.Interval? || b.Interval? {
      assert Near(Values(a) + Values(b)) && Near(Values(b) + Values(a));
      assert a.Interval? ==> a.first in s && a.second in s;
      assert b.Interval? ==> b.first in s && b.second in s;
      NearTold(a, b);
      NearTold(b, a);
    }
  }

  // ------------------------------------------------------------------
  // Where the checks are not intersection
  // ------------------------------------------------------------------

  /** Two fixed values are told apart exactly when they are equal or 2^32 does not divide their difference. */
  lemma FixedCheckExact(a: int, b: int)
    ensures Intersects(Fixed(a), Fixed(b), Check(Fixed(a), Fixed(b))) <==> a == b || !Congruent(a, b)
  {
    hide Check, Congruent, Intersects;
    CheckExact(Fixed(a), Fixed(b));
    assert Admits(Fixed(b), b);
  }

  /** A fixed value against a list: right exactly when the list has it, or has nothing congruent to it. */
  lemma FixedListExact(v: int, ws: seq<int>)
    ensures Intersects(Fixed(v), Discrete(ws), Check(Fixed(v), Discrete(ws))) <==>
      (v in ws || forall w :: w in ws ==> !Congruent(v, w))
  {
    hide Check, Congruent, Intersects;
    CheckExact(Fixed(v), Discrete(ws));
    assert forall w :: w in ws <==> Admits(Discrete(ws), w);
  }

  /** Two lists: right exactly when no member of the second list outside the first is congruent to one of the first. */
  lemma ListCheckExact(vs: seq<int>, ws: seq<int>)
    ensures Intersects(Discrete(vs), Discrete(ws), Check(Discrete(vs), Discrete(ws))) <==>
      forall v, w :: v in vs && w in ws && Congruent(w, v) ==> w in vs
  {
    hide Check, Congruent, Intersects;
    CheckExact(Discrete(vs), Discrete(ws));
    assert forall v :: v in vs <==> Admits(Discrete(vs), v);
    assert forall w :: w in ws <==> w in Values(Discrete(ws));
  }

  const CH_5POINT1 := 0x60F
  const CH_5POINT1POINT2 := 0x60F + 0x10_0000_0000 + 0x20_0000_0000

  /** The layouts 5.1 and 5.1.2 differ in bits 36 and 37 only, and pass for the same. */
  lemma LayoutsCollide()
    ensures Check(Fixed(CH_5POINT1), Fixed(CH_5POINT1POINT2)) == Some(Fixed(CH_5POINT1))
    ensures !Intersects(Fixed(CH_5POINT1), Fixed(CH_5POINT1POINT2), Check(Fixed(CH_5POINT1), Fixed(CH_5POINT1POINT2)))
  {
    FixedCheckExact(CH_5POINT1, CH_5POINT1POINT2);
  }

  lemma {:induction false} NothingBetween(s: set<int>, vs: seq<int>, first: int, second: int)
    requires Near(s) && first in s && second in s && (forall v :: v in vs ==> v in s) && first > second
    ensures Between(vs, first, second) == []
  {
    hide Compare, Near;
    if vs != [] {
      var init, last := vs[..|vs| - 1], vs[|vs| - 1];
      assert vs == init + [last];
      NothingBetween(s, init, first, second);
      CompareExact(s, last, first);
      CompareExact(s, last, second);
    }
  }

  /**
   An interval written high end first is still a range for the other checks, but
   the list check takes it as empty: it is right exactly when the interval is in
   order or no member of the list lies in it.
   */
  lemma ReversedIntervalExact(first: int, second: int, vs: seq<int>)
    requires Near(Values(Discrete(vs)) + {first, second})
    ensures
      Intersects(Interval(first, second), Discrete(vs), Check(Interval(first, second), Discrete(vs))) <==>
      (first <= second || forall v :: v in vs ==> !(second <= v <= first))
  {
    var s := Values(Discrete(vs)) + {first, second};
    if first <= second {
      SoundFrom(s, Interval(first, second), Discrete(vs));
      CheckIsIntersection(Interval(first, second), Discrete(vs));
    } else {
      NothingBetween(s, vs, first, second);
      if v :| v in vs && second <= v <= first {
        assert Admits(Interval(first, second), v) && Admits(Discrete(vs), v);
      }
    }
  }

  /** The check finds every member of an interval if and only if the interval is less than 2^31 wide. */
  lemma WideIntervalExact(first: int, second: int)
    requires first <= second
    ensures (forall v :: first <= v <= second ==> Check(Fixed(v), Interval(first, second)) == Some(Fixed(v))) <==>
      second - first < TWO31
  {
    if second - first < TWO31 {
      forall v | first <= v <= second
        ensures Check(Fixed(v), Interval(first, second)) == Some(Fixed(v))
      {
        FixedInInterval(v, first, second);
        AdmittedIsAliased(Interval(first, second), v);
        assert Admits(Fixed(v), v);
      }
    } else if Compare(first, second) <= 0 {
      var v := first + TWO31;
      assert Compare(v, first) < 0;
      assert Check(Fixed(v), Interval(first, second)) == None;
    } else {
      var v := first + 1;
      assert Compare(v, first) == 1;
      assert Check(Fixed(v), Interval(first, second)) == None;
    }
  }

  /** The interval of all 32-bit numbers has nothing in common with 44100. */
  lemma WideIntervalMisses()
    ensures Check(Fixed(44100), Interval(0, TWO32 - 1)) == None
  {
  }

  /** The interval 48000 to 8000 admits 44100, and yet has nothing in common with a list of it. */
  lemma ReversedIntervalMisses()
    ensures Admits(Interval(48000, 8000), 44100) && Check(Interval(48000, 8000), Discrete([44100])) == None
    ensures Check(Interval(48000, 8000), Fixed(44100)) == Some(Fixed(44100))
  {
    assert Between([44100], 48000, 8000) == [];
  }

  // ------------------------------------------------------------------
  // Capabilities: one value per key
  // ------------------------------------------------------------------

  /** The keys that the check map knows, and any other tag. */
  datatype Key =
    | AudioSampleRate | AudioChannels | AudioChannelLayout | AudioSampleFormat | AudioMpegVersion | AudioMpegLayer
    | AudioAacProfile | AudioAacLevel | AudioAacStreamFormat | VideoPixelFormat | VideoBitStreamFormat | MediaBitrate
    | UnknownKey(tag: nat)

  /** The element type of a key's values. */
  function ElemOf(k: Key): Elem {
    match k
    case AudioChannelLayout => ChannelLayout
    case AudioSampleFormat => SampleFormat
    case AudioAacProfile => AacProfile
    case AudioAacStreamFormat => AacStreamFormat
    case VideoPixelFormat => PixelFormat
    case VideoBitStreamFormat => BitStreamFormat
    case MediaBitrate => I64
    case _ => U32
  }

  /** Numbers may come as intervals; enumerations may not. */
  predicate IntervalAllowed(k: Key) {
    ElemOf(k) == U32 || ElemOf(k) == I64
  }

  predicate WellTyped(k: Key, v: Value) {
    v.Cap? && v.elem == ElemOf(k) && (v.shape.Interval? ==> IntervalAllowed(k))
  }

  /** The types of the twelve keys, as the tables of checks and extractors have them. */
  lemma KeyTypes()
    ensures forall k :: k in {AudioSampleRate, AudioChannels, AudioMpegVersion, AudioMpegLayer, AudioAacLevel} ==>
      ElemOf(k) == U32 && IntervalAllowed(k)
    ensures ElemOf(MediaBitrate) == I64 && IntervalAllowed(MediaBitrate)
    ensures ElemOf(AudioChannelLayout) == ChannelLayout && ElemOf(AudioSampleFormat) == SampleFormat
    ensures ElemOf(AudioAacProfile) == AacProfile && ElemOf(AudioAacStreamFormat) == AacStreamFormat
    ensures ElemOf(VideoPixelFormat) == PixelFormat && ElemOf(VideoBitStreamFormat) == BitStreamFormat
    ensures forall k :: IntervalAllowed(k) ==> ElemOf(k) == U32 || ElemOf(k) == I64
  {
  }

  /** Values of different types, foreign ones, and intervals of enumerations never match. */
  lemma MistypedNoMatch(k: Key, a: Value, b: Value)
    requires !a.Cap? || !b.Cap? || a.elem != b.elem || a.elem != ElemOf(k)
      || (!IntervalAllowed(k) && (a.shape.Interval? || b.shape.Interval?))
    ensures CheckValue(k, a, b) == None
  {
  }

  type Keys = map<Key, Value>

  /** The check that the map holds for a known key. */
  function CheckValue(k: Key, a: Value, b: Value): Option<Value> {
    if WellTyped(k, a) && WellTyped(k, b) then
      match Check(a.shape, b.shape)
      case None => None
      case Some(c) => Some(Cap(ElemOf(k), c))
    else None
  }

  /** `CapabilityValueCheck` as code: the two checks that collect lists are loops. */
  method CapabilityValueCheck(k: Key, a: Value, b: Value) returns (out: Option<Value>)
    ensures out == CheckValue(k, a, b)
  {
    if !WellTyped(k, a) || !WellTyped(k, b) {
      return None;
    }
    var c;
    match (a.shape, b.shape) {
      case (Interval(x, y), Discrete(ws)) => c := IDCapabilityCheck(x, y, ws);
      case (Discrete(vs), Interval(x, y)) => c := IDCapabilityCheck(x, y, vs);
      case (Discrete(vs), Discrete(ws)) => c := DDCapabilityCheck(ws, vs);
      case _ => c := Check(a.shape, b.shape);
    }
    return if c.None? then None else Some(Cap(ElemOf(k), c.value));
  }

  /** A key that both sides hold, that is known, and whose values do not meet. */
  predicate Conflict(a: Keys, b: Keys, k: Key) {
    k in a && k in b && !k.UnknownKey? && CheckValue(k, a[k], b[k]).None?
  }

  /** The value of a key after a merge without conflict; of an unknown shared key, the other side's. */
  function MergedValue(a: Keys, b: Keys, k: Key): Value
    requires (k in a || k in b) && !Conflict(a, b, k)
  {
    if k !in b then a[k]
    else if k !in a || k.UnknownKey? then b[k]
    else CheckValue(k, a[k], b[k]).value
  }

  ghost function Merge(a: Keys, b: Keys): Option<Keys> {
    if exists k :: Conflict(a, b, k) then None
    else Some(map k | k in a.Keys + b.Keys :: MergedValue(a, b, k))
  }

  method MergeCapabilityKeys(a: Keys, b: Keys) returns (ok: bool, res: Keys)
    ensures ok <==> Merge(a, b).Some?
    ensures res == if ok then Merge(a, b).value else map[]
    ensures ok ==> res.Keys == a.Keys + b.Keys
    ensures ok ==> forall k :: k in a && k !in b ==> res[k] == a[k]
    ensures ok ==> forall k :: k in b && (k !in a || k.UnknownKey?) ==> res[k] == b[k]
  {
    res := map[];
    var rest := a.Keys;
    while rest != {}
      invariant rest <= a.Keys
      invariant forall k :: k in a && k !in rest ==> !Conflict(a, b, k)
      invariant res.Keys == set k | k in a && k !in rest && !(k in b && k.UnknownKey?)
      invariant forall k :: k in res ==> !Conflict(a, b, k) && res[k] == MergedValue(a, b, k)
      decreases rest
    {
      var k :| k in rest;
      rest := rest - {k};
      if k !in b {
        res := res[k := a[k]];
      } else if !k.UnknownKey? {
        var tmp := CapabilityValueCheck(k, a[k], b[k]);
        if tmp.None? {
          assert Conflict(a, b, k);
          return false, map[];
        }
        res := res[k := tmp.value];
      }
    }
    ok := true;
    res := res + (map k | k in b && k !in res :: b[k]);
  }

  // ------------------------------------------------------------------
  // Merging is intersection
  // ------------------------------------------------------------------

  /** A configuration: one number per key. */
  type Config = map<Key, int>

  predicate AdmitsValue(v: Value, x: int) {
    v.Cap? && Admits(v.shape, x)
  }

  /** The configuration gives every key of the capability a number its value admits. */
  ghost predicate AdmitsAll(a: Keys, c: Config) {
    forall k :: k in a ==> k in c && AdmitsValue(a[k], c[k])
  }

  ghost predicate SameMeaning(a: Keys, b: Keys) {
    forall c: Config :: AdmitsAll(a, c) <==> AdmitsAll(b, c)
  }

  /** Known keys and well-typed values. */
  ghost predicate Regular(a: Keys) {
    forall k :: k in a ==> !k.UnknownKey? && WellTyped(k, a[k])
  }

  ghost predicate InOrder(a: Keys) {
    forall k :: k in a && a[k].Cap? ==> Ordered(a[k].shape)
  }

  ghost function ValuesAt(a: Keys, k: Key): set<int> {
    if k in a && a[k].Cap? then Values(a[k].shape) else {}
  }

  predicate IntervalAt(a: Keys, k: Key) {
    k in a && a[k].Cap? && a[k].shape.Interval?
  }

  /** The values of every shared key are sound to check. */
  ghost predicate SoundWith(a: Keys, b: Keys) {
    forall k :: k in a && k in b && a[k].Cap? && b[k].Cap? ==>
      WellFormed(a[k].shape, b[k].shape) && Sound(a[k].shape, b[k].shape)
  }

  /** An interval comes of two intervals only. */
  lemma CheckKind(a: Shape, b: Shape)
    ensures Check(a, b).Some? && Check(a, b).value.Interval? ==> a.Interval? && b.Interval?
  {
  }

  /** The merge of two regular capabilities is again regular and made of their values. */
  lemma MergeIsRegular(a: Keys, b: Keys)
    requires Regular(a) && Regular(b) && SoundWith(a, b) && Merge(a, b).Some?
    ensures Regular(Merge(a, b).value)
    ensures InOrder(a) && InOrder(b) ==> InOrder(Merge(a, b).value)
    ensures forall k :: ValuesAt(Merge(a, b).value, k) <= ValuesAt(a, k) + ValuesAt(b, k)
    ensures forall k :: IntervalAt(Merge(a, b).value, k) ==> IntervalAt(a, k) || IntervalAt(b, k)
    ensures forall k, x :: k in Merge(a, b).value ==>
      (AdmitsValue(Merge(a, b).value[k], x) <==>
       (k in a ==> AdmitsValue(a[k], x)) && (k in b ==> AdmitsValue(b[k], x)))
  {
    hide Check, Sound, Ordered, Values, WellFormed;
    var m := Merge(a, b).value;
    forall k | k in m
      ensures WellTyped(k, m[k]) && ValuesAt(m, k) <= ValuesAt(a, k) + ValuesAt(b, k)
      ensures (k in a ==> Ordered(a[k].shape)) && (k in b ==> Ordered(b[k].shape)) ==> Ordered(m[k].shape)
      ensures IntervalAt(m, k) ==> IntervalAt(a, k) || IntervalAt(b, k)
      ensures forall x :: AdmitsValue(m[k], x) <==> (k in a ==> AdmitsValue(a[k], x)) && (k in b ==> AdmitsValue(b[k], x))
    {
      assert !Conflict(a, b, k);
      if k in a && k in b {
        CheckIsIntersection(a[k].shape, b[k].shape);
        CheckKind(a[k].shape, b[k].shape);
      }
    }
  }

  /** A key of either side is a key of the merge, with a value that is not an empty list unless a side's is. */
  lemma MergedNotEmpty(a: Keys, b: Keys, k: Key)
    requires Regular(a) && Regular(b) && SoundWith(a, b) && Merge(a, b).Some? && (k in a || k in b)
    requires (k in a ==> !Empty(a[k].shape)) && (k in b ==> !Empty(b[k].shape))
    ensures
      var m := Merge(a, b).value;
      k in m && WellTyped(k, m[k]) && !Empty(m[k].shape)
  {
    hide Check, Sound, WellFormed;
    assert !Conflict(a, b, k);
    if k in a && k in b {
      CheckIsIntersection(a[k].shape, b[k].shape);
      CheckKind(a[k].shape, b[k].shape);
    }
  }

  /** Two values of a key that nothing satisfies together. */
  ghost predicate Disjoint(v: Value, w: Value) {
    forall x :: !(AdmitsValue(v, x) && AdmitsValue(w, x))
  }

  lemma ConflictIsDisjoint(a: Keys, b: Keys, k: Key)
    requires Regular(a) && Regular(b) && SoundWith(a, b) && k in a && k in b
    ensures Conflict(a, b, k) <==> Disjoint(a[k], b[k])
  {
    CheckIsIntersection(a[k].shape, b[k].shape);
    var c := Check(a[k].shape, b[k].shape);
    if c.Some? {
      var x := Pick(c.value);
      assert Admits(c.value, x);
      assert AdmitsValue(a[k], x) && AdmitsValue(b[k], x);
    }
  }

  /** The number that stands for a value in a configuration: the fixed one, the first end, the first member. */
  function Pick(s: Shape): (x: int)
    requires !Empty(s)
    ensures Admits(s, x)
  {
    match s
    case Fixed(v) => v
    case Interval(first, _) => first
    case Discrete(vs) => vs[0]
  }

  /**
   Merging is intersection: it fails exactly when some shared key has values
   that nothing satisfies together, and otherwise admits exactly the
   configurations that both sides admit.
   */
  lemma MergeIsIntersection(a: Keys, b: Keys)
    requires Regular(a) && Regular(b) && SoundWith(a, b)
    ensures Merge(a, b).None? <==> exists k :: k in a && k in b && Disjoint(a[k], b[k])
    ensures Merge(a, b).Some? ==>
      forall c: Config :: AdmitsAll(Merge(a, b).value, c) <==> AdmitsAll(a, c) && AdmitsAll(b, c)
  {
    forall k | k in a && k in b
      ensures Conflict(a, b, k) <==> Disjoint(a[k], b[k])
    {
      ConflictIsDisjoint(a, b, k);
    }
    if Merge(a, b).Some? {
      MergeIsRegular(a, b);
      var m := Merge(a, b).value;
      forall c: Config
        ensures AdmitsAll(m, c) <==> AdmitsAll(a, c) && AdmitsAll(b, c)
      {
        if AdmitsAll(m, c) {
          assert forall k :: k in a ==> k in m && AdmitsValue(m[k], c[k]);
          assert forall k :: k in b ==> k in m && AdmitsValue(m[k], c[k]);
        }
      }
    }
  }

  lemma MergeCommutes(a: Keys, b: Keys)
    requires Regular(a) && Regular(b) && SoundWith(a, b) && SoundWith(b, a)
    ensures Merge(a, b).None? <==> Merge(b, a).None?
    ensures Merge(a, b).Some? ==> SameMeaning(Merge(a, b).value, Merge(b, a).value)
  {
    MergeIsIntersection(a, b);
    MergeIsIntersection(b, a);
    assert forall k :: k in a && k in b ==> (Disjoint(a[k], b[k]) <==> Disjoint(b[k], a[k]));
  }

  lemma SoundWithItself(s: Shape)
    requires Narrow(s)
    ensures WellFormed(s, s) && Sound(s, s)
  {
  }

  /** Merging a capability with itself fails exactly when it has an empty list, and otherwise means the same. */
  lemma MergeIdempotent(a: Keys)
    requires Regular(a) && forall k :: k in a && a[k].Cap? ==> Narrow(a[k].shape)
    ensures Merge(a, a).None? <==> exists k :: k in a && Empty(a[k].shape)
    ensures Merge(a, a).Some? ==> SameMeaning(Merge(a, a).value, a)
  {
    forall k | k in a
      ensures WellFormed(a[k].shape, a[k].shape) && Sound(a[k].shape, a[k].shape)
    {
      SoundWithItself(a[k].shape);
    }
    MergeIsIntersection(a, a);
    forall k | k in a
      ensures Disjoint(a[k], a[k]) <==> Empty(a[k].shape)
    {
      if !Empty(a[k].shape) {
        assert AdmitsValue(a[k], Pick(a[k].shape));
      }
    }
  }

  // ------------------------------------------------------------------
  // Associativity
  // ------------------------------------------------------------------

  /** All values that three capabilities hold for one key can be compared, and intervals are in order. */
  ghost predicate ComparableThree(a: Keys, b: Keys, c: Keys) {
    && InOrder(a) && InOrder(b) && InOrder(c)
    && forall k :: Comparable(ValuesAt(a, k) + ValuesAt(b, k) + ValuesAt(c, k),
                              IntervalAt(a, k) || IntervalAt(b, k) || IntervalAt(c, k))
  }

  /** Every capability that holds the key admits `x` for it. */
  ghost predicate Joint(a: Keys, b: Keys, c: Keys, k: Key, x: int) {
    (k in a ==> AdmitsValue(a[k], x)) && (k in b ==> AdmitsValue(b[k], x)) && (k in c ==> AdmitsValue(c[k], x))
  }

  /** Some key is held at least twice, and nothing satisfies all its holders. */
  ghost predicate Torn(a: Keys, b: Keys, c: Keys, k: Key) {
    && ((k in a && k in b) || (k in a && k in c) || (k in b && k in c))
    && forall x :: !Joint(a, b, c, k, x)
  }

  ghost function MergeLeft(a: Keys, b: Keys, c: Keys): Option<Keys> {
    var ab := Merge(a, b);
    if ab.None? then None else Merge(ab.value, c)
  }

  ghost function MergeRight(a: Keys, b: Keys, c: Keys): Option<Keys> {
    var bc := Merge(b, c);
    if bc.None? then None else Merge(a, bc.value)
  }

  lemma NearTellsApart(s: set<int>)
    requires Near(s)
    ensures TellsApart(s)
  {
    assert forall x, y :: x in s && y in s ==> -TWO31 < x - y < TWO31;
  }

  /** Capabilities made of the values of three that can be compared are sound to merge. */
  lemma SoundPair(a: Keys, b: Keys, c: Keys, m: Keys, n: Keys)
    requires ComparableThree(a, b, c) && InOrder(m) && InOrder(n)
    requires forall k :: ValuesAt(m, k) + ValuesAt(n, k) <= ValuesAt(a, k) + ValuesAt(b, k) + ValuesAt(c, k)
    requires forall k :: IntervalAt(m, k) || IntervalAt(n, k) ==> IntervalAt(a, k) || IntervalAt(b, k) || IntervalAt(c, k)
    ensures SoundWith(m, n)
  {
    hide Near, TellsApart, Sound, WellFormed, Ordered, Values;
    forall k | k in m && k in n && m[k].Cap? && n[k].Cap?
      ensures WellFormed(m[k].shape, n[k].shape) && Sound(m[k].shape, n[k].shape)
    {
      var s := ValuesAt(a, k) + ValuesAt(b, k) + ValuesAt(c, k);
      if IntervalAt(a, k) || IntervalAt(b, k) || IntervalAt(c, k) {
        NearTellsApart(s);
      }
      assert Values(m[k].shape) == ValuesAt(m, k) && Values(n[k].shape) == ValuesAt(n, k);
      assert Values(m[k].shape) + Values(n[k].shape) <= s;
      SoundFrom(s, m[k].shape, n[k].shape);
    }
  }

  /** Either way of merging three fails on the torn keys and otherwise means all three at once. */
  lemma MergeLeftMeaning(a: Keys, b: Keys, c: Keys)
    requires Regular(a) && Regular(b) && Regular(c) && ComparableThree(a, b, c)
    ensures MergeLeft(a, b, c).None? <==> exists k :: Torn(a, b, c, k)
    ensures MergeLeft(a, b, c).Some? ==> forall d: Config ::
      AdmitsAll(MergeLeft(a, b, c).value, d) <==> AdmitsAll(a, d) && AdmitsAll(b, d) && AdmitsAll(c, d)
  {
    SoundPair(a, b, c, a, b);
    MergeIsIntersection(a, b);
    if Merge(a, b).None? {
      var k :| k in a && k in b && Disjoint(a[k], b[k]);
      assert Torn(a, b, c, k);
    } else {
      var m := Merge(a, b).value;
      MergeIsRegular(a, b);
      SoundPair(a, b, c, m, c);
      MergeIsIntersection(m, c);
      forall k
        ensures Torn(a, b, c, k) <==> k in m && k in c && Disjoint(m[k], c[k])
      {
        TornLeft(a, b, c, m, k);
      }
    }
  }

  lemma TornLeft(a: Keys, b: Keys, c: Keys, m: Keys, k: Key)
    requires m.Keys == a.Keys + b.Keys
    requires forall x :: k in m ==>
      (AdmitsValue(m[k], x) <==> (k in a ==> AdmitsValue(a[k], x)) && (k in b ==> AdmitsValue(b[k], x)))
    requires k in a && k in b ==> !Disjoint(a[k], b[k])
    ensures Torn(a, b, c, k) <==> k in m && k in c && Disjoint(m[k], c[k])
  {
    if k in a && k in b {
      var x :| AdmitsValue(a[k], x) && AdmitsValue(b[k], x);
      assert k !in c ==> Joint(a, b, c, k, x);
    }
    if k in m && k in c {
      assert forall x :: Joint(a, b, c, k, x) <==> AdmitsValue(m[k], x) && AdmitsValue(c[k], x);
    }
  }

  lemma MergeRightMeaning(a: Keys, b: Keys, c: Keys)
    requires Regular(a) && Regular(b) && Regular(c) && ComparableThree(a, b, c)
    ensures MergeRight(a, b, c).None? <==> exists k :: Torn(a, b, c, k)
    ensures MergeRight(a, b, c).Some? ==> forall d: Config ::
      AdmitsAll(MergeRight(a, b, c).value, d) <==> AdmitsAll(a, d) && AdmitsAll(b, d) && AdmitsAll(c, d)
  {
    SoundPair(a, b, c, b, c);
    MergeIsIntersection(b, c);
    if Merge(b, c).None? {
      var k :| k in b && k in c && Disjoint(b[k], c[k]);
      assert Torn(a, b, c, k);
    } else {
      var m := Merge(b, c).value;
      MergeIsRegular(b, c);
      SoundPair(a, b, c, a, m);
      MergeIsIntersection(a, m);
      forall k
        ensures Torn(a, b, c, k) <==> k in a && k in m && Disjoint(a[k], m[k])
      {
        TornLeft(b, c, a, m, k);
        assert Torn(a, b, c, k) <==> Torn(b, c, a, k) by {
          assert forall x :: Joint(a, b, c, k, x) <==> Joint(b, c, a, k, x);
        }
      }
    }
  }

  /** Merging is associative up to meaning, failures included. */
  lemma MergeAssociates(a: Keys, b: Keys, c: Keys)
    requires Regular(a) && Regular(b) && Regular(c) && ComparableThree(a, b, c)
    ensures MergeLeft(a, b, c).None? <==> MergeRight(a, b, c).None?
    ensures MergeLeft(a, b, c).Some? ==> SameMeaning(MergeLeft(a, b, c).value, MergeRight(a, b, c).value)
  {
    MergeLeftMeaning(a, b, c);
    MergeRightMeaning(a, b, c);
  }
}
