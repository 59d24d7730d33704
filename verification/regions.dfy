/** The axis-region algebra: closed intervals (`Range`), discrete point sets
    (`Stops`), their containment and intersection, and the two membership
    tests built on them (`in_region`, `location_in_selection`).

    `types.py` and `convert5to4.py` carry identical copies of `Range` and
    `Stops`; this module is the single model of both. */
module Regions {

  import opened Basics
  import opened ExtReal

  /** Both ends inclusive. Callers may pass the ends in either order. */
  datatype Range = Range(start: XReal, end: XReal)

  datatype Stops = Stops(stops: set<XReal>)

  /** What `x in container` may be asked about: a float, a Range or a Stops. */
  datatype Value = Scalar(x: XReal) | RangeValue(range: Range) | StopsValue(points: Stops)

  /** An entry of a `Region`: a Range or a Stops. */
  datatype Bound = RangeBound(range: Range) | StopsBound(points: Stops)

  /** An entry of a `RegionSelection`: a kept axis's design-space Range, or a
      pinned axis's single value. */
  datatype Selected = Point(p: real) | Kept(range: Range)

  /** `start <= v <= end`, with `self` taken as given (never sorted). */
  predicate InRange(r: Range, v: XReal) {
    Le(r.start, v) && Le(v, r.end)
  }

  /** The range with its ends in ascending order, as `sorted((start, end))`. */
  function Normalized(r: Range): (n: Range)
    ensures Le(n.start, n.end)
    ensures (n.start == r.start && n.end == r.end) || (n.start == r.end && n.end == r.start)
  {
    var (s, e) := Sort2(r.start, r.end);
    Range(s, e)
  }

  predicate WellOrdered(r: Range) {
    Le(r.start, r.end)
  }

  /** `value in self` for a `Range` self. Only the argument is sorted. */
  predicate RangeContains(r: Range, v: Value) {
    match v
    case RangeValue(o) =>
      var n := Normalized(o);
      InRange(r, n.start) && InRange(r, n.end)
    case StopsValue(s) => forall stop :: stop in s.stops ==> InRange(r, stop)
    case Scalar(x) => InRange(r, x)
  }

  /** `value in self` for a `Stops` self. */
  predicate StopsContains(s: Stops, v: Value) {
    match v
    case RangeValue(o) => o.start == o.end && o.start in s.stops
    case StopsValue(t) => forall stop :: stop in t.stops ==> stop in s.stops
    case Scalar(x) => x in s.stops
  }

  predicate Contains(b: Bound, v: Value) {
    match b
    case RangeBound(r) => RangeContains(r, v)
    case StopsBound(s) => StopsContains(s, v)
  }

  /** `Range.intersection`: both operands are sorted first; `None` when they do not meet. */
  function Intersection(a: Range, b: Range): (r: Option<Range>)
    ensures r.Some? ==> WellOrdered(r.value)
    ensures r.Some? ==> RangeContains(Normalized(a), RangeValue(r.value))
    ensures r.Some? ==> RangeContains(Normalized(b), RangeValue(r.value))
  {
    var na := Normalized(a);
    var nb := Normalized(b);
    if Lt(na.end, nb.start) || Lt(nb.end, na.start) then None
    else
      var r := Range(Max(na.start, nb.start), Min(na.end, nb.end));
      assert Normalized(r) == r;
      Some(r)
  }

  // ---------------------------------------------------------------------
  // Properties of the interval algebra

  /** A value lies in the intersection exactly when it lies in both (sorted) operands. */
  lemma IntersectionMeaning(a: Range, b: Range, x: XReal)
    ensures InRange(Normalized(a), x) && InRange(Normalized(b), x)
        <==> Intersection(a, b).Some? && InRange(Intersection(a, b).value, x)
  {
  }

  /** The intersection is `None` exactly when the sorted operands share no value. */
  lemma IntersectionNoneIffDisjoint(a: Range, b: Range)
    ensures Intersection(a, b).None?
        <==> forall x :: !(InRange(Normalized(a), x) && InRange(Normalized(b), x))
  {
    var na, nb := Normalized(a), Normalized(b);
    if Intersection(a, b).Some? {
      var w := Max(na.start, nb.start);
      assert InRange(na, w) && InRange(nb, w);
    }
  }

  /** The operand order does not matter. */
  lemma IntersectionSymmetric(a: Range, b: Range)
    ensures Intersection(a, b) == Intersection(b, a)
  {
    var na, nb := Normalized(a), Normalized(b);
    if Intersection(a, b).Some? {
      LeAntisym(Max(na.start, nb.start), Max(nb.start, na.start));
      LeAntisym(Min(na.end, nb.end), Min(nb.end, na.end));
    }
  }

  /** For well-ordered operands a non-empty intersection lies in both of them. */
  lemma IntersectionWithinOperands(a: Range, b: Range)
    requires WellOrdered(a) && WellOrdered(b)
    requires Intersection(a, b).Some?
    ensures RangeContains(a, RangeValue(Intersection(a, b).value))
    ensures RangeContains(b, RangeValue(Intersection(a, b).value))
  {
    assert Normalized(a) == a;
    assert Normalized(b) == b;
  }

  /** A Range contains a Range argument exactly when it contains every value
      between the argument's sorted ends. */
  lemma RangeContainsRangeMeaning(r: Range, o: Range)
    ensures RangeContains(r, RangeValue(o))
        <==> forall x :: InRange(Normalized(o), x) ==> InRange(r, x)
  {
    var n := Normalized(o);
    if forall x :: InRange(n, x) ==> InRange(r, x) {
      assert InRange(n, n.start) && InRange(n, n.end);
    }
  }

  /** A well-ordered Range contains itself. */
  lemma RangeContainsItself(r: Range)
    requires WellOrdered(r)
    ensures RangeContains(r, RangeValue(r))
  {
    assert Normalized(r) == r;
  }

  /** Range containment is transitive. */
  lemma RangeContainsTransitive(a: Range, b: Range, c: Range)
    requires WellOrdered(b)
    requires RangeContains(a, RangeValue(b)) && RangeContains(b, RangeValue(c))
    ensures RangeContains(a, RangeValue(c))
  {
    RangeContainsRangeMeaning(a, b);
    RangeContainsRangeMeaning(b, c);
    RangeContainsRangeMeaning(a, c);
    assert Normalized(b) == b;
  }

  /** Because `self` is not sorted, a reversed Range contains no value, no
      Range and no non-empty Stops. */
  lemma ReversedRangeContainsNothing(r: Range, v: Value)
    requires Lt(r.end, r.start)
    ensures RangeContains(r, v) <==> v.StopsValue? && v.points.stops == {}
  {
    if v.StopsValue? && v.points.stops != {} {
      var s :| s in v.points.stops;
      assert !InRange(r, s);
    }
  }

  /** A Range contains a Stops when every stop lies between its ends, so the
      empty Stops is contained in every Range. */
  lemma RangeContainsEmptyStops(r: Range)
    ensures RangeContains(r, StopsValue(Stops({})))
  {
  }

  /** Stops-in-Stops is the subset relation: reflexive and transitive. */
  lemma StopsContainsIsSubset(s: Stops, t: Stops, u: Stops)
    ensures StopsContains(s, StopsValue(t)) <==> t.stops <= s.stops
    ensures StopsContains(s, StopsValue(s))
    ensures StopsContains(s, StopsValue(t)) && StopsContains(t, StopsValue(u))
        ==> StopsContains(s, StopsValue(u))
  {
  }

  /** A Stops holds a Range only when the Range is a single stop. */
  lemma StopsContainsRangeOnlyPoints(s: Stops, o: Range)
    ensures StopsContains(s, RangeValue(o))
        <==> exists p :: p in s.stops && o == Range(p, p)
  {
    if StopsContains(s, RangeValue(o)) {
      assert o == Range(o.start, o.start);
    }
  }

  // ---------------------------------------------------------------------
  // Membership tests

  /** `in_region(value, region)`. */
  predicate InRegion(value: map<string, Value>, region: map<string, Bound>) {
    value.Keys == region.Keys
    && forall name :: name in value ==> Contains(region[name], value[name])
  }

  /** One axis of `location_in_selection`: equality with a pinned value,
      containment in a kept Range. */
  predicate InSelectionAt(v: real, s: Selected) {
    match s
    case Point(p) => v == p
    case Kept(r) => RangeContains(r, Scalar(Fin(v)))
  }

  /** `location_in_selection(location, selection)`, stated over all axes at once. */
  predicate LocationInSelection(loc: map<string, real>, sel: map<string, Selected>) {
    loc.Keys == sel.Keys
    && forall name :: name in loc ==> InSelectionAt(loc[name], sel[name])
  }

  /** `_locationInSelection`: the key check, then one axis at a time in any
      order, returning at the first axis that fails. */
  method CheckLocationInSelection(loc: map<string, real>, sel: map<string, Selected>) returns (b: bool)
    ensures b == LocationInSelection(loc, sel)
    ensures loc.Keys != sel.Keys ==> !b
  {
    if loc.Keys != sel.Keys {
      return false;
    }
    var rest := loc.Keys;
    while rest != {}
      invariant rest <= loc.Keys
      invariant forall name :: name in loc.Keys - rest ==> InSelectionAt(loc[name], sel[name])
      decreases rest
    {
      var name :| name in rest;
      var value := loc[name];
      match sel[name] {
        case Point(p) =>
          if value != p {
            return false;
          }
        case Kept(r) =>
          if !RangeContains(r, Scalar(Fin(value))) {
            return false;
          }
      }
      rest := rest - {name};
    }
    return true;
  }

  /** A selection read as a region: a pinned value is the one-stop Stops,
      a kept Range stays a Range. */
  function SelectionRegion(sel: map<string, Selected>): (region: map<string, Bound>)
    ensures region.Keys == sel.Keys
  {
    map name | name in sel :: match sel[name]
      case Point(p) => StopsBound(Stops({Fin(p)}))
      case Kept(r) => RangeBound(r)
  }

  function ScalarLocation(loc: map<string, real>): (value: map<string, Value>)
    ensures value.Keys == loc.Keys
  {
    map name | name in loc :: Scalar(Fin(loc[name]))
  }

  /** `location_in_selection` is `in_region` with every pinned value read as
      a one-stop Stops, so the two membership tests agree. */
  lemma {:induction false} LocationInSelectionIsInRegion(loc: map<string, real>, sel: map<string, Selected>)
    ensures LocationInSelection(loc, sel) <==> InRegion(ScalarLocation(loc), SelectionRegion(sel))
  {
    var value, region := ScalarLocation(loc), SelectionRegion(sel);
    if loc.Keys == sel.Keys {
      forall name | name in loc
        ensures InSelectionAt(loc[name], sel[name]) <==> Contains(region[name], value[name])
      {
        match sel[name]
        case Point(p) =>
          assert Fin(loc[name]) in {Fin(p)} <==> loc[name] == p;
        case Kept(r) =>
      }
    }
  }
}
