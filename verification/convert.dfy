/** `convert5to4`: one version 4 document per variable font of a version 5
    document. Axes with a kept range become the new document's axes; pinned
    axes and axes the font does not mention select a single value; rules,
    sources and instances are reduced to what the selection can still reach. */
module Convert {

  import opened Basics
  import opened ExtReal
  import opened Regions
  import opened PyDict
  import opened DesignSpace
  import opened StatNaming
  import opened Seqs

  // ---------------------------------------------------------------------
  // Reduced axes

  /** Keeps a (user, design) pair whose user value lies between `lo` and `hi`. */
  function InsideFn(lo: XReal, hi: XReal): ((real, real)) -> Option<(real, real)> {
    (p: (real, real)) => if Le(lo, Fin(p.0)) && Le(Fin(p.0), hi) then Some(p) else None
  }

  /** The (user, design) pairs whose user value lies between `lo` and `hi`, in
      order; `FilterMappingAppend` and `FilterMappingOne` give the order. */
  function FilterMapping(mapping: seq<(real, real)>, lo: XReal, hi: XReal): (r: seq<(real, real)>)
    ensures |r| <= |mapping|
    ensures forall p :: p in r <==> p in mapping && Le(lo, Fin(p.0)) && Le(Fin(p.0), hi)
  {
    var r := FilterMap(mapping, InsideFn(lo, hi));
    assert forall p :: p in r <==> p in mapping && Le(lo, Fin(p.0)) && Le(Fin(p.0), hi) by {
      forall p ensures p in r <==> p in mapping && Le(lo, Fin(p.0)) && Le(Fin(p.0), hi) {
        if p in mapping && Le(lo, Fin(p.0)) && Le(Fin(p.0), hi) {
          var i :| 0 <= i < |mapping| && mapping[i] == p;
          assert InsideFn(lo, hi)(mapping[i]) == Some(p);
        }
      }
    }
    r
  }

  /** The pairs kept from two consecutive parts of a mapping are those kept
      from the first part followed by those kept from the second. */
  lemma FilterMappingAppend(a: seq<(real, real)>, b: seq<(real, real)>, lo: XReal, hi: XReal)
    ensures FilterMapping(a + b, lo, hi) == FilterMapping(a, lo, hi) + FilterMapping(b, lo, hi)
  {
    FilterMapAppend(a, b, InsideFn(lo, hi));
  }

  /** A single pair is kept exactly when its user value is inside the bounds. */
  lemma FilterMappingOne(p: (real, real), lo: XReal, hi: XReal)
    ensures FilterMapping([p], lo, hi) == if Le(lo, Fin(p.0)) && Le(Fin(p.0), hi) then [p] else []
  {
    FilterMapOne(p, InsideFn(lo, hi));
  }

  /** A mapping entirely inside the bounds is kept whole, order included. */
  lemma FilterMappingKeepsInside(mapping: seq<(real, real)>, lo: XReal, hi: XReal)
    requires forall i :: 0 <= i < |mapping| ==> Le(lo, Fin(mapping[i].0)) && Le(Fin(mapping[i].0), hi)
    ensures FilterMapping(mapping, lo, hi) == mapping
  {
    FilterMapKeepsAll(mapping, InsideFn(lo, hi));
  }

  /** The axis a kept range subset turns into: the source axis's identity, the
      range clamped to the axis, a non-zero subset default, and the mapping
      points inside the subset. */
  function ReduceAxis(axis: Axis, sub: AxisSubset): (v: VfAxis)
    requires sub.RangeSubset?
    ensures v.tag == axis.tag && v.name == axis.name && v.labelNames == axis.labelNames && v.hidden == axis.hidden
    ensures v.minimum.Some? && v.maximum.Some?
    ensures Le(sub.userMinimum, v.minimum.value) && Le(Fin(axis.minimum), v.minimum.value)
    ensures v.minimum.value == sub.userMinimum || v.minimum.value == Fin(axis.minimum)
    ensures Le(v.maximum.value, sub.userMaximum) && Le(v.maximum.value, Fin(axis.maximum))
    ensures v.maximum.value == sub.userMaximum || v.maximum.value == Fin(axis.maximum)
    ensures sub.userDefault.Some? && sub.userDefault.value != 0.0 ==> v.default == sub.userDefault.value
    ensures sub.userDefault.None? || sub.userDefault.value == 0.0 ==> v.default == axis.default
    ensures forall p :: p in v.mapping <==>
      p in axis.mapping && Le(sub.userMinimum, Fin(p.0)) && Le(Fin(p.0), sub.userMaximum)
    ensures v.mapping == FilterMapping(axis.mapping, sub.userMinimum, sub.userMaximum)
  {
    var default := if sub.userDefault.Some? && sub.userDefault.value != 0.0 then sub.userDefault.value else axis.default;
    VfAxis(
      axis.tag, axis.name, axis.labelNames, axis.hidden,
      Some(Max(sub.userMinimum, Fin(axis.minimum))),
      default,
      Some(Min(sub.userMaximum, Fin(axis.maximum))),
      FilterMapping(axis.mapping, sub.userMinimum, sub.userMaximum))
  }

  // ---------------------------------------------------------------------
  // Splitting the axis subsets

  /** `axesWithRange`, `axesWithSingleLocation`, and the axes added to the new document. */
  datatype Split = Split(withRange: Dict<VfAxis>, single: Dict<real>, vfAxes: seq<VfAxis>)

  /** Every subset names an axis the document knows. */
  predicate Resolves(h: Helpers, subsets: seq<AxisSubset>) {
    forall i :: 0 <= i < |subsets| ==> h.getAxis(subsets[i].name).Some?
  }

  /** The names of the axes the subsets of one kind resolve to. */
  function ResolvedNames(h: Helpers, subsets: seq<AxisSubset>, ranges: bool): set<string> {
    set i | 0 <= i < |subsets| && subsets[i].RangeSubset? == ranges && h.getAxis(subsets[i].name).Some?
      :: h.getAxis(subsets[i].name).value.name
  }

  lemma ResolvedNamesSnoc(h: Helpers, subsets: seq<AxisSubset>, ranges: bool)
    requires |subsets| > 0
    ensures var n := |subsets| - 1;
      var sub := subsets[n];
      ResolvedNames(h, subsets, ranges) == ResolvedNames(h, subsets[..n], ranges)
        + (if sub.RangeSubset? == ranges && h.getAxis(sub.name).Some? then {h.getAxis(sub.name).value.name} else {})
  {
    var n := |subsets| - 1;
    var init := subsets[..n];
    forall x | x in ResolvedNames(h, init, ranges) ensures x in ResolvedNames(h, subsets, ranges) {
      var i :| 0 <= i < |init| && init[i].RangeSubset? == ranges && h.getAxis(init[i].name).Some?
               && x == h.getAxis(init[i].name).value.name;
      assert subsets[i] == init[i];
    }
    forall x | x in ResolvedNames(h, subsets, ranges)
      ensures x in ResolvedNames(h, init, ranges)
           || (subsets[n].RangeSubset? == ranges && h.getAxis(subsets[n].name).Some? && x == h.getAxis(subsets[n].name).value.name)
    {
      var i :| 0 <= i < |subsets| && subsets[i].RangeSubset? == ranges && h.getAxis(subsets[i].name).Some?
               && x == h.getAxis(subsets[i].name).value.name;
      if i < n {
        assert init[i] == subsets[i];
      }
    }
  }

  lemma ResolvesSnoc(h: Helpers, subsets: seq<AxisSubset>)
    requires |subsets| > 0
    ensures Resolves(h, subsets)
        <==> Resolves(h, subsets[..|subsets| - 1]) && h.getAxis(subsets[|subsets| - 1].name).Some?
  {
    var init := subsets[..|subsets| - 1];
    if Resolves(h, init) && h.getAxis(subsets[|subsets| - 1].name).Some? {
      forall i | 0 <= i < |subsets| ensures h.getAxis(subsets[i].name).Some? {
        if i < |init| { assert subsets[i] == init[i]; }
      }
    }
    if Resolves(h, subsets) {
      forall i | 0 <= i < |init| ensures h.getAxis(init[i].name).Some? {
        assert subsets[i] == init[i];
      }
    }
  }

  /** The loop over `vf.axisSubsets`: a range subset adds a reduced axis to
      the document and to `axesWithRange`, a value subset records its value in
      `axesWithSingleLocation`. A subset naming an unknown axis fails. */
  function SplitSubsets(h: Helpers, subsets: seq<AxisSubset>): (r: Result<Split>)
    ensures r.Ok? <==> Resolves(h, subsets)
    ensures r.Ok? ==> Keys(r.value.withRange) == ResolvedNames(h, subsets, true)
    ensures r.Ok? ==> Keys(r.value.single) == ResolvedNames(h, subsets, false)
    ensures r.Err? ==> r.error.NoSuchAxis?
  {
    if |subsets| == 0 then Ok(Split([], [], []))
    else
      var n := |subsets| - 1;
      var sub := subsets[n];
      ResolvesSnoc(h, subsets);
      ResolvedNamesSnoc(h, subsets, true);
      ResolvedNamesSnoc(h, subsets, false);
      var split :- SplitSubsets(h, subsets[..n]);
      match h.getAxis(sub.name)
      case None => Err(NoSuchAxis(sub.name))
      case Some(axis) =>
        if sub.RangeSubset? then
          var v := ReduceAxis(axis, sub);
          Ok(Split(Put(split.withRange, axis.name, v), split.single, split.vfAxes + [v]))
        else
          Ok(Split(split.withRange, Put(split.single, axis.name, sub.userValue), split.vfAxes))
  }

  /** The conversion stops at the first subset naming an unknown axis. */
  lemma {:induction false} SplitSubsetsFailsAtFirstUnknown(h: Helpers, subsets: seq<AxisSubset>)
    requires SplitSubsets(h, subsets).Err?
    ensures exists i :: 0 <= i < |subsets| && h.getAxis(subsets[i].name).None?
                        && SplitSubsets(h, subsets).error == NoSuchAxis(subsets[i].name)
                        && forall j :: 0 <= j < i ==> h.getAxis(subsets[j].name).Some?
  {
    var n := |subsets| - 1;
    var init := subsets[..n];
    ResolvesSnoc(h, subsets);
    if SplitSubsets(h, init).Err? {
      SplitSubsetsFailsAtFirstUnknown(h, init);
      var i :| 0 <= i < |init| && h.getAxis(init[i].name).None?
               && SplitSubsets(h, init).error == NoSuchAxis(init[i].name)
               && forall j :: 0 <= j < i ==> h.getAxis(init[j].name).Some?;
      assert subsets[i] == init[i];
      assert forall j :: 0 <= j < i ==> subsets[j] == init[j];
    } else {
      assert forall j :: 0 <= j < n ==> h.getAxis(subsets[j].name).Some? by {
        forall j | 0 <= j < n ensures h.getAxis(subsets[j].name).Some? {
          assert subsets[j] == init[j];
        }
      }
    }
  }

  /** Each `axesWithRange` entry is keyed by its axis's name and is one of the
      axes added to the document; one axis is added per range subset. */
  lemma {:induction false} SplitSubsetsEntries(h: Helpers, subsets: seq<AxisSubset>)
    requires SplitSubsets(h, subsets).Ok?
    ensures var split := SplitSubsets(h, subsets).value;
      && (forall i :: 0 <= i < |split.withRange| ==>
            split.withRange[i].1.name == split.withRange[i].0 && split.withRange[i].1 in split.vfAxes)
      && |split.vfAxes| == RangeCount(subsets)
  {
    if |subsets| > 0 {
      var n := |subsets| - 1;
      var init := subsets[..n];
      var sub := subsets[n];
      ResolvesSnoc(h, subsets);
      SplitSubsetsEntries(h, init);
      var prev := SplitSubsets(h, init).value;
      var axis := h.getAxis(sub.name).value;
      if sub.RangeSubset? {
        var v := ReduceAxis(axis, sub);
        var withRange := Put(prev.withRange, axis.name, v);
        var vfAxes := prev.vfAxes + [v];
        forall i | 0 <= i < |withRange| ensures withRange[i].1.name == withRange[i].0 && withRange[i].1 in vfAxes {
          GetAt(withRange, i);
          if withRange[i].0 != axis.name {
            var j := IndexOf(prev.withRange, withRange[i].0);
            GetAt(prev.withRange, j);
          }
        }
      }
    }
  }

  /** The subset is of the given kind and resolves to the axis named `k`. */
  predicate ResolvesTo(h: Helpers, sub: AxisSubset, ranges: bool, k: string) {
    sub.RangeSubset? == ranges && h.getAxis(sub.name).Some? && h.getAxis(sub.name).value.name == k
  }

  /** Subset `i` is the last subset of its kind that resolves to the axis `k`. */
  predicate LastOfKind(h: Helpers, subsets: seq<AxisSubset>, ranges: bool, k: string, i: int) {
    && 0 <= i < |subsets|
    && ResolvesTo(h, subsets[i], ranges, k)
    && forall j :: i < j < |subsets| ==> !ResolvesTo(h, subsets[j], ranges, k)
  }

  /** A later subset of a kind leaves the last one of that kind for other axes in place. */
  lemma LastOfKindSnoc(h: Helpers, subsets: seq<AxisSubset>, ranges: bool, k: string, i: int)
    requires |subsets| > 0
    requires LastOfKind(h, subsets[..|subsets| - 1], ranges, k, i)
    requires !ResolvesTo(h, subsets[|subsets| - 1], ranges, k)
    ensures LastOfKind(h, subsets, ranges, k, i)
  {
    var init := subsets[..|subsets| - 1];
    assert forall j :: 0 <= j < |init| ==> init[j] == subsets[j];
  }

  /** The reduced axis of a range subset that resolves; nothing otherwise. */
  function ReducedFn(h: Helpers): AxisSubset -> Option<VfAxis> {
    (sub: AxisSubset) =>
      if sub.RangeSubset? && h.getAxis(sub.name).Some? then Some(ReduceAxis(h.getAxis(sub.name).value, sub)) else None
  }

  /** `axesWithRange[k]` is the reduced axis of the last range subset naming `k`. */
  lemma {:induction false} SplitSubsetsRanges(h: Helpers, subsets: seq<AxisSubset>, k: string) returns (i: int)
    requires SplitSubsets(h, subsets).Ok? && k in Keys(SplitSubsets(h, subsets).value.withRange)
    ensures LastOfKind(h, subsets, true, k, i)
    ensures Get(SplitSubsets(h, subsets).value.withRange, k)
         == Some(ReduceAxis(h.getAxis(subsets[i].name).value, subsets[i]))
  {
    var n := |subsets| - 1;
    var init := subsets[..n];
    var sub := subsets[n];
    ResolvesSnoc(h, subsets);
    var prev := SplitSubsets(h, init).value.withRange;
    var axis := h.getAxis(sub.name).value;
    if sub.RangeSubset? && axis.name == k {
      i := n;
    } else {
      assert k in Keys(prev) && Get(SplitSubsets(h, subsets).value.withRange, k) == Get(prev, k);
      i := SplitSubsetsRanges(h, init, k);
      LastOfKindSnoc(h, subsets, true, k, i);
      assert init[i] == subsets[i];
    }
  }

  /** `axesWithSingleLocation[k]`, before the unmentioned axes are pinned, is
      the value of the last value subset naming `k`. */
  lemma {:induction false} SplitSubsetsPins(h: Helpers, subsets: seq<AxisSubset>, k: string) returns (i: int)
    requires SplitSubsets(h, subsets).Ok? && k in Keys(SplitSubsets(h, subsets).value.single)
    ensures LastOfKind(h, subsets, false, k, i)
    ensures Get(SplitSubsets(h, subsets).value.single, k) == Some(subsets[i].userValue)
  {
    var n := |subsets| - 1;
    var init := subsets[..n];
    var sub := subsets[n];
    ResolvesSnoc(h, subsets);
    var prev := SplitSubsets(h, init).value.single;
    var axis := h.getAxis(sub.name).value;
    if sub.ValueSubset? && axis.name == k {
      i := n;
    } else {
      assert k in Keys(prev) && Get(SplitSubsets(h, subsets).value.single, k) == Get(prev, k);
      i := SplitSubsetsPins(h, init, k);
      LastOfKindSnoc(h, subsets, false, k, i);
      assert init[i] == subsets[i];
    }
  }

  /** The axes added to the new document are the reduced axes of the range
      subsets, one per range subset, in subset order. */
  lemma {:induction false} SplitSubsetsAxes(h: Helpers, subsets: seq<AxisSubset>)
    requires SplitSubsets(h, subsets).Ok?
    ensures SplitSubsets(h, subsets).value.vfAxes == FilterMap(subsets, ReducedFn(h))
  {
    if |subsets| > 0 {
      var n := |subsets| - 1;
      ResolvesSnoc(h, subsets);
      SplitSubsetsAxes(h, subsets[..n]);
    }
  }

  /** How many subsets keep a range. */
  function RangeCount(subsets: seq<AxisSubset>): nat {
    if |subsets| == 0 then 0
    else RangeCount(subsets[..|subsets| - 1]) + (if subsets[|subsets| - 1].RangeSubset? then 1 else 0)
  }

  /** The first axis with this name, in declaration order. */
  function FirstNamed(axes: seq<Axis>, name: string): (r: Option<Axis>)
    ensures r.Some? <==> name in AxisNames(axes)
    ensures r.Some? ==> exists i :: 0 <= i < |axes| && axes[i] == r.value && r.value.name == name
                          && forall j :: 0 <= j < i ==> axes[j].name != name
  {
    if |axes| == 0 then None
    else
      var init := axes[..|axes| - 1];
      var axis := axes[|axes| - 1];
      assert AxisNames(axes) == AxisNames(init) + {axis.name} by {
        MemberDropLast(axes);
      }
      match FirstNamed(init, name)
      case Some(a) =>
        assert exists i :: 0 <= i < |axes| && axes[i] == a && a.name == name
                           && forall j :: 0 <= j < i ==> axes[j].name != name by {
          var i :| 0 <= i < |init| && init[i] == a && a.name == name && forall j :: 0 <= j < i ==> init[j].name != name;
          assert axes[i] == init[i];
        }
        Some(a)
      case None =>
        if axis.name == name then
          assert forall j :: 0 <= j < |init| ==> axes[j].name != name by {
            forall j | 0 <= j < |init| ensures axes[j].name != name {
              assert init[j] == axes[j];
              assert axes[j].name in AxisNames(init);
            }
          }
          Some(axis)
        else None
  }

  /** `axesWithSingleLocation` after the default-pinning loop: each document
      axis that is neither kept nor pinned yet is pinned at its default. */
  function PinUnmentioned(single: Dict<real>, kept: set<string>, axes: seq<Axis>): (r: Dict<real>)
    ensures Keys(r) == Keys(single) + (AxisNames(axes) - kept)
    ensures forall k :: k in Keys(single) ==> Get(r, k) == Get(single, k)
    ensures forall k :: k in Keys(r) && k !in Keys(single) ==> Get(r, k) == Some(FirstNamed(axes, k).value.default)
    ensures |single| <= |r| && r[..|single|] == single
  {
    if |axes| == 0 then single
    else
      var init := axes[..|axes| - 1];
      var axis := axes[|axes| - 1];
      assert AxisNames(axes) == AxisNames(init) + {axis.name} by {
        MemberDropLast(axes);
      }
      var prev := PinUnmentioned(single, kept, init);
      if axis.name !in kept && axis.name !in Keys(prev) then
        var r := Put(prev, axis.name, axis.default);
        assert r[..|single|] == prev[..|single|];
        r
      else
        prev
  }

  // ---------------------------------------------------------------------
  // Region selection

  /** A kept axis's selection: its reduced bounds mapped to design space; a
      missing bound is open. */
  function KeptRange(h: Helpers, v: VfAxis): Range {
    Range(
      if v.minimum.Some? then h.mapForward(v, v.minimum.value) else NegInf,
      if v.maximum.Some? then h.mapForward(v, v.maximum.value) else PosInf)
  }

  /** The first loop of `_regionSelectionFrom`: one Range per kept axis, in order. */
  function KeptEntries(h: Helpers, withRange: Dict<VfAxis>): (r: Dict<Selected>)
    ensures |r| == |withRange|
    ensures forall i :: 0 <= i < |r| ==> r[i] == (withRange[i].0, Kept(KeptRange(h, withRange[i].1)))
  {
    seq(|withRange|, i requires 0 <= i < |withRange| => (withRange[i].0, Kept(KeptRange(h, withRange[i].1))))
  }

  /** The second loop of `_regionSelectionFrom`: each pinned value assigned in
      order, replacing a kept Range of the same name in place. */
  function PinEntries(start: Dict<Selected>, pins: Dict<real>): (r: Dict<Selected>)
    ensures Keys(r) == Keys(start) + Keys(pins)
    ensures |start| <= |r| && forall i :: 0 <= i < |start| ==> r[i].0 == start[i].0
    ensures forall k :: k in Keys(start) && k !in Keys(pins) ==> Get(r, k) == Get(start, k)
    ensures forall k :: k in Keys(pins) ==> Get(r, k) == Some(Point(Get(pins, k).value))
  {
    if |pins| == 0 then start
    else
      PutLast(pins);
      var init: Dict<real> := pins[..|pins| - 1];
      var (k, v) := pins[|pins| - 1];
      Put(PinEntries(start, init), k, Point(v))
  }

  /** `_regionSelectionFrom(axesWithRange, axesWithSingleLocation)`. */
  function RegionSelectionFrom(h: Helpers, withRange: Dict<VfAxis>, single: Dict<real>): (r: Dict<Selected>)
    ensures Keys(r) == Keys(withRange) + Keys(single)
    ensures forall k :: k in Keys(single) ==> Get(r, k) == Some(Point(Get(single, k).value))
    ensures forall k :: k in Keys(withRange) && k !in Keys(single) ==>
      Get(r, k) == Some(Kept(KeptRange(h, Get(withRange, k).value)))
    ensures |withRange| <= |r| && forall i :: 0 <= i < |withRange| ==> r[i].0 == withRange[i].0
  {
    var kept := KeptEntries(h, withRange);
    assert Keys(kept) == Keys(withRange);
    forall k | k in Keys(withRange) ensures Get(kept, k) == Some(Kept(KeptRange(h, Get(withRange, k).value))) {
      var i := IndexOf(withRange, k);
      GetAt(withRange, i);
      GetAt(kept, i);
    }
    PinEntries(kept, single)
  }

  // ---------------------------------------------------------------------
  // Conditions

  /** One condition as `_conditionSetFrom` reads it: a missing or zero bound is open. */
  function ReadCondition(c: Condition): (r: Range)
    ensures r.start != Fin(0.0) && r.end != Fin(0.0)
  {
    Range(OrElse(c.minimum, NegInf), OrElse(c.maximum, PosInf))
  }

  /** `_conditionSetFrom(conditionSet)`: the range each named axis must lie in;
      a later condition on an axis replaces an earlier one. */
  function ConditionSetFrom(cs: ConditionSet): (m: map<string, Range>)
    ensures m.Keys == set c | c in cs :: c.name
    ensures forall name :: name in m ==> m[name].start != Fin(0.0) && m[name].end != Fin(0.0)
    ensures |cs| > 0 ==> m[cs[|cs| - 1].name] == ReadCondition(cs[|cs| - 1])
  {
    if |cs| == 0 then map[]
    else
      var init := cs[..|cs| - 1];
      var c := cs[|cs| - 1];
      assert cs == init + [c];
      assert (set x | x in cs :: x.name) == (set x | x in init :: x.name) + {c.name};
      ConditionSetFrom(init)[c.name := ReadCondition(c)]
  }

  /** Condition `i` is the set's last condition on the axis `name`. */
  predicate LastCondition(cs: ConditionSet, name: string, i: int) {
    0 <= i < |cs| && cs[i].name == name && forall j :: i < j < |cs| ==> cs[j].name != name
  }

  lemma LastConditionSnoc(cs: ConditionSet, name: string, i: int)
    requires |cs| > 0 && cs[|cs| - 1].name != name
    requires LastCondition(cs[..|cs| - 1], name, i)
    ensures LastCondition(cs, name, i) && cs[i] == cs[..|cs| - 1][i]
  {
    var init := cs[..|cs| - 1];
    assert forall j :: 0 <= j < |init| ==> init[j] == cs[j];
  }

  /** Each axis's range is read from the set's last condition on that axis. */
  lemma {:induction false} ConditionSetFromLastWins(cs: ConditionSet)
    ensures var m := ConditionSetFrom(cs);
      forall name :: name in m ==> exists i :: LastCondition(cs, name, i) && m[name] == ReadCondition(cs[i])
  {
    if |cs| > 0 {
      var n := |cs| - 1;
      var init := cs[..n];
      ConditionSetFromLastWins(init);
      var m := ConditionSetFrom(cs);
      assert m == ConditionSetFrom(init)[cs[n].name := ReadCondition(cs[n])];
      forall name | name in m ensures exists i :: LastCondition(cs, name, i) && m[name] == ReadCondition(cs[i]) {
        if name == cs[n].name {
          assert LastCondition(cs, name, n);
        } else {
          var i :| LastCondition(init, name, i) && ConditionSetFrom(init)[name] == ReadCondition(init[i]);
          LastConditionSnoc(cs, name, i);
        }
      }
    }
  }

  /** A location meets a condition set when the value of every axis it has
      lies in the condition's range (`value in Range`, the range as written). */
  predicate Holds(m: map<string, Range>, loc: Location) {
    forall name :: name in m && name in loc ==> RangeContains(m[name], Scalar(Fin(loc[name])))
  }

  /** What one selected axis does to one condition. */
  datatype Verdict =
    | Discard          // the condition can never hold: drop the whole condition set
    | Always           // the condition always holds: drop the condition
    | Narrow(range: Range)  // keep the condition, cut down to the selection

  /** The four cases C-AP-in/out and C-AR-all/inter/none of
      `_subsetRulesBasedOnConditions`. */
  function Judge(s: Selected, cond: Range): (v: Verdict)
    ensures s.Point? ==> (v.Always? <==> RangeContains(cond, Scalar(Fin(s.p)))) && !v.Narrow?
    ensures s.Kept? ==> (v.Always? <==> RangeContains(cond, RangeValue(s.range)))
    ensures s.Kept? && v.Narrow? ==> Intersection(cond, s.range) == Some(v.range)
    ensures s.Kept? && v.Discard? ==> Intersection(cond, s.range).None?
  {
    match s
    case Point(p) => if RangeContains(cond, Scalar(Fin(p))) then Always else Discard
    case Kept(r) =>
      if RangeContains(cond, RangeValue(r)) then Always
      else
        match Intersection(cond, r)
        case Some(i) => Narrow(i)
        case None => Discard
  }

  /** The condition written for a narrowed axis. */
  function NarrowedCondition(name: string, r: Range): Condition {
    Condition(name, Some(r.start), Some(r.end))
  }

  /** For a value inside the selection, the verdict agrees with the condition:
      a discarded condition fails there, a dropped one holds there, and a
      narrowed one, read back as `_conditionSetFrom` reads it, holds there
      exactly when the original does. The condition must be well-ordered. */
  lemma JudgeMeaning(s: Selected, cond: Range, name: string, v: real)
    requires WellOrdered(cond) && cond.start != Fin(0.0) && cond.end != Fin(0.0)
    requires InSelectionAt(v, s)
    ensures Judge(s, cond).Discard? ==> !InRange(cond, Fin(v))
    ensures Judge(s, cond).Always? ==> InRange(cond, Fin(v))
    ensures Judge(s, cond).Narrow? ==>
      (InRange(cond, Fin(v)) <==> InRange(ReadCondition(NarrowedCondition(name, Judge(s, cond).range)), Fin(v)))
  {
    match s
    case Point(p) =>
    case Kept(r) =>
      assert Normalized(cond) == cond;
      assert Normalized(r) == r;
      IntersectionMeaning(cond, r, Fin(v));
      if Judge(s, cond).Always? {
        RangeContainsRangeMeaning(cond, r);
      }
  }

  /** The loop over the region selection for one condition set: `None` when
      the set is discarded, otherwise the narrowed conditions in selection order. */
  function SubsetEntries(entries: seq<(string, Selected)>, m: map<string, Range>): (r: Option<ConditionSet>)
    ensures r.None? <==> exists i :: 0 <= i < |entries| && entries[i].0 in m && Judge(entries[i].1, m[entries[i].0]).Discard?
    ensures r.Some? ==> forall c :: c in r.value ==> c.name in Keys(entries)
  {
    if |entries| == 0 then Some([])
    else
      var n := |entries| - 1;
      var init := entries[..n];
      var (name, s) := entries[n];
      var prev := SubsetEntries(init, m);
      assert (exists i :: 0 <= i < |entries| && entries[i].0 in m && Judge(entries[i].1, m[entries[i].0]).Discard?)
        <==> (exists i :: 0 <= i < |init| && init[i].0 in m && Judge(init[i].1, m[init[i].0]).Discard?)
             || (name in m && Judge(s, m[name]).Discard?) by {
        if exists i :: 0 <= i < |entries| && entries[i].0 in m && Judge(entries[i].1, m[entries[i].0]).Discard? {
          var i :| 0 <= i < |entries| && entries[i].0 in m && Judge(entries[i].1, m[entries[i].0]).Discard?;
          if i < n { assert init[i] == entries[i]; }
        }
        if exists i :: 0 <= i < |init| && init[i].0 in m && Judge(init[i].1, m[init[i].0]).Discard? {
          var i :| 0 <= i < |init| && init[i].0 in m && Judge(init[i].1, m[init[i].0]).Discard?;
          assert init[i] == entries[i];
        }
        if name in m && Judge(s, m[name]).Discard? {
          assert entries[n].0 in m && Judge(entries[n].1, m[entries[n].0]).Discard?;
        }
      }
      assert Keys(entries) == Keys(init) + {name} by {
        KeysSnoc(entries);
      }
      if name !in m then prev
      else
        match Judge(s, m[name])
        case Discard => None
        case Always => prev
        case Narrow(i) => if prev.None? then None else Some(prev.value + [NarrowedCondition(name, i)])
  }

  /** The narrowed condition an entry contributes, if its verdict is `Narrow`. */
  function NarrowFn(m: map<string, Range>): ((string, Selected)) -> Option<Condition> {
    (e: (string, Selected)) =>
      if e.0 in m && Judge(e.1, m[e.0]).Narrow? then Some(NarrowedCondition(e.0, Judge(e.1, m[e.0]).range)) else None
  }

  /** A kept set holds exactly the narrowed conditions of the entries judged
      `Narrow`, in selection order; entries judged `Always` contribute nothing. */
  lemma {:induction false} SubsetEntriesKept(entries: seq<(string, Selected)>, m: map<string, Range>)
    requires SubsetEntries(entries, m).Some?
    ensures SubsetEntries(entries, m).value == FilterMap(entries, NarrowFn(m))
  {
    if |entries| > 0 {
      SubsetEntriesKept(entries[..|entries| - 1], m);
    }
  }

  /** One condition set of a rule, subset to the selection. */
  function SubsetConditionSet(sel: Dict<Selected>, cs: ConditionSet): Option<ConditionSet> {
    SubsetEntries(sel, ConditionSetFrom(cs))
  }

  /** `Holds` restricted to the axes in `names`. */
  predicate HoldsOn(m: map<string, Range>, loc: Location, names: set<string>) {
    forall name :: name in m && name in loc && name in names ==> RangeContains(m[name], Scalar(Fin(loc[name])))
  }

  lemma ConditionSetFromSnoc(cs: ConditionSet, c: Condition)
    ensures ConditionSetFrom(cs + [c]) == ConditionSetFrom(cs)[c.name := ReadCondition(c)]
  {
    assert (cs + [c])[..|cs|] == cs;
  }

  lemma HoldsUpdate(before: map<string, Range>, name: string, r: Range, loc: Location)
    requires name !in before && name in loc
    ensures Holds(before[name := r], loc) <==> Holds(before, loc) && InRange(r, Fin(loc[name]))
  {
    var after := before[name := r];
    if Holds(before, loc) && InRange(r, Fin(loc[name])) {
      forall x | x in after && x in loc ensures RangeContains(after[x], Scalar(Fin(loc[x]))) {
        if x != name { assert after[x] == before[x]; }
      }
    }
    if Holds(after, loc) {
      forall x | x in before && x in loc ensures RangeContains(before[x], Scalar(Fin(loc[x]))) {
        assert after[x] == before[x];
      }
      assert name in after;
    }
  }

  lemma HoldsOnSnoc(m: map<string, Range>, loc: Location, names: set<string>, name: string)
    requires name in loc
    ensures HoldsOn(m, loc, names + {name})
        <==> HoldsOn(m, loc, names) && (name in m ==> InRange(m[name], Fin(loc[name])))
  {
  }

  lemma {:induction false} SubsetEntriesMeaning(entries: seq<(string, Selected)>, m: map<string, Range>, loc: Location)
    requires Distinct(entries)
    requires forall i :: 0 <= i < |entries| ==> entries[i].0 in loc && InSelectionAt(loc[entries[i].0], entries[i].1)
    requires forall name :: name in m ==> WellOrdered(m[name]) && m[name].start != Fin(0.0) && m[name].end != Fin(0.0)
    ensures HoldsOn(m, loc, Keys(entries))
        <==> SubsetEntries(entries, m).Some? && Holds(ConditionSetFrom(SubsetEntries(entries, m).value), loc)
  {
    if |entries| == 0 {
      assert Keys(entries) == {};
    } else {
      var n := |entries| - 1;
      var init := entries[..n];
      var (name, s) := entries[n];
      assert entries[n].0 in loc && InSelectionAt(loc[name], s);
      var v := loc[name];
      assert Distinct(init) && name !in Keys(init) by {
        assert forall i :: 0 <= i < |init| ==> init[i] == entries[i];
      }
      assert forall i :: 0 <= i < |init| ==> init[i].0 in loc && InSelectionAt(loc[init[i].0], init[i].1) by {
        assert forall i :: 0 <= i < |init| ==> init[i] == entries[i];
      }
      SubsetEntriesMeaning(init, m, loc);
      KeysSnoc(entries);
      HoldsOnSnoc(m, loc, Keys(init), name);
      var prev := SubsetEntries(init, m);
      if name in m {
        JudgeMeaning(s, m[name], name, v);
        if Judge(s, m[name]).Narrow? && prev.Some? {
          var c := NarrowedCondition(name, Judge(s, m[name]).range);
          ConditionSetFromSnoc(prev.value, c);
          assert name !in ConditionSetFrom(prev.value) by {
            assert forall x :: x in prev.value ==> x.name in Keys(init);
          }
          HoldsUpdate(ConditionSetFrom(prev.value), name, ReadCondition(c), loc);
        }
      }
    }
  }

  /** Subsetting keeps a condition set's meaning on the selection: a location
      inside the selection meets the original set exactly when the set is kept
      and the location meets its subset, read back as `_conditionSetFrom`
      reads it. Every condition must be well-ordered; `ReversedConditionGainsLocations`
      shows why. */
  lemma SubsetPreservesMeaning(sel: Dict<Selected>, cs: ConditionSet, loc: Location)
    requires LocationInSelection(loc, ToMap(sel))
    requires forall name :: name in ConditionSetFrom(cs) ==> WellOrdered(ConditionSetFrom(cs)[name])
    ensures Holds(ConditionSetFrom(cs), loc)
        <==> SubsetConditionSet(sel, cs).Some? && Holds(ConditionSetFrom(SubsetConditionSet(sel, cs).value), loc)
  {
    var m := ConditionSetFrom(cs);
    forall i | 0 <= i < |sel| ensures sel[i].0 in loc && InSelectionAt(loc[sel[i].0], sel[i].1) {
      GetAt(sel, i);
      KeyAt(sel, i);
    }
    SubsetEntriesMeaning(sel, m, loc);
    assert HoldsOn(m, loc, Keys(sel)) <==> Holds(m, loc);
  }

  /** With the conditions as written, a reversed condition (minimum 700, maximum
      300) admits no weight, but its subset to the selection 400..600 is the
      condition 400..600, which admits 500. */
  lemma ReversedConditionGainsLocations()
    ensures LocationInSelection(map["Weight" := 500.0], ToMap([("Weight", Kept(Range(Fin(400.0), Fin(600.0))))]))
    ensures !Holds(ConditionSetFrom([Condition("Weight", Some(Fin(700.0)), Some(Fin(300.0)))]), map["Weight" := 500.0])
    ensures SubsetConditionSet([("Weight", Kept(Range(Fin(400.0), Fin(600.0))))],
                               [Condition("Weight", Some(Fin(700.0)), Some(Fin(300.0)))])
         == Some([Condition("Weight", Some(Fin(400.0)), Some(Fin(600.0)))])
    ensures Holds(ConditionSetFrom([Condition("Weight", Some(Fin(400.0)), Some(Fin(600.0)))]), map["Weight" := 500.0])
  {
    WeightInSelection();
    ReversedHoldsNowhere();
    ReversedSubset();
    NarrowedHolds();
  }

  /** Weight 500 lies in the selection 400..600. */
  lemma WeightInSelection()
    ensures LocationInSelection(map["Weight" := 500.0], ToMap([("Weight", Kept(Range(Fin(400.0), Fin(600.0))))]))
  {
    var kept := Kept(Range(Fin(400.0), Fin(600.0)));
    SingleSelection("Weight", kept);
    SingleLocationInSelection("Weight", 500.0, kept);
  }

  /** The reversed condition 700..300 does not hold at weight 500. */
  lemma ReversedHoldsNowhere()
    ensures !Holds(ConditionSetFrom([Condition("Weight", Some(Fin(700.0)), Some(Fin(300.0)))]), map["Weight" := 500.0])
  {
    var reversed := Condition("Weight", Some(Fin(700.0)), Some(Fin(300.0)));
    SingleCondition(reversed);
    SingleHolds("Weight", ReadCondition(reversed), map["Weight" := 500.0]);
  }

  /** Subsetting the reversed condition to 400..600 gives the condition 400..600. */
  lemma ReversedSubset()
    ensures SubsetConditionSet([("Weight", Kept(Range(Fin(400.0), Fin(600.0))))],
                               [Condition("Weight", Some(Fin(700.0)), Some(Fin(300.0)))])
         == Some([Condition("Weight", Some(Fin(400.0)), Some(Fin(600.0)))])
  {
    var reversed := Condition("Weight", Some(Fin(700.0)), Some(Fin(300.0)));
    SingleCondition(reversed);
    ReversedJudge();
    SingleEntry("Weight", Kept(Range(Fin(400.0), Fin(600.0))), map["Weight" := ReadCondition(reversed)]);
  }

  /** The condition 400..600 holds at weight 500. */
  lemma NarrowedHolds()
    ensures Holds(ConditionSetFrom([Condition("Weight", Some(Fin(400.0)), Some(Fin(600.0)))]), map["Weight" := 500.0])
  {
    var narrowed := Condition("Weight", Some(Fin(400.0)), Some(Fin(600.0)));
    SingleCondition(narrowed);
    SingleHolds("Weight", ReadCondition(narrowed), map["Weight" := 500.0]);
  }

  /** The reversed condition 700..300, cut down to the selection 400..600. */
  lemma ReversedJudge()
    ensures Judge(Kept(Range(Fin(400.0), Fin(600.0))), Range(Fin(700.0), Fin(300.0)))
         == Narrow(Range(Fin(400.0), Fin(600.0)))
  {
    assert Normalized(Range(Fin(700.0), Fin(300.0))) == Range(Fin(300.0), Fin(700.0));
  }

  lemma SingleSelection(name: string, s: Selected)
    ensures ToMap([(name, s)]) == map[name := s]
  {
    var d: Dict<Selected> := [(name, s)];
    assert Keys(d) == {name} by {
      KeyAt(d, 0);
    }
    GetAt(d, 0);
  }

  lemma SingleLocationInSelection(name: string, v: real, s: Selected)
    ensures LocationInSelection(map[name := v], map[name := s]) <==> InSelectionAt(v, s)
  {
    assert name in map[name := v];
  }

  lemma SingleCondition(c: Condition)
    ensures ConditionSetFrom([c]) == map[c.name := ReadCondition(c)]
  {
    assert [c][..0] == [];
  }

  lemma SingleHolds(name: string, r: Range, loc: Location)
    requires name in loc
    ensures Holds(map[name := r], loc) <==> RangeContains(r, Scalar(Fin(loc[name])))
  {
  }

  lemma SingleEntry(name: string, s: Selected, m: map<string, Range>)
    requires name in m && Judge(s, m[name]).Narrow?
    ensures SubsetEntries([(name, s)], m) == Some([NarrowedCondition(name, Judge(s, m[name]).range)])
  {
    assert [(name, s)][..0] == [];
    assert [] + [NarrowedCondition(name, Judge(s, m[name]).range)] == [NarrowedCondition(name, Judge(s, m[name]).range)];
  }

  // ---------------------------------------------------------------------
  // Rules

  /** A rule applies at a location when one of its condition sets holds there. */
  predicate RuleApplies(rule: Rule, loc: Location) {
    exists i :: 0 <= i < |rule.conditionSets| && Holds(ConditionSetFrom(rule.conditionSets[i]), loc)
  }

  /** Every condition of every condition set of the rule is well-ordered. */
  predicate WellOrderedRule(rule: Rule) {
    forall i, name :: 0 <= i < |rule.conditionSets| && name in ConditionSetFrom(rule.conditionSets[i])
      ==> WellOrdered(ConditionSetFrom(rule.conditionSets[i])[name])
  }

  /** A condition set's subset to the selection, as a filter step. */
  function SubsetSetFn(sel: Dict<Selected>): ConditionSet -> Option<ConditionSet> {
    (cs: ConditionSet) => SubsetConditionSet(sel, cs)
  }

  /** The condition sets that survive the selection, in order; `KeptSetsAppend`
      and `KeptSetsOne` give the order. */
  function KeptSets(sets: seq<ConditionSet>, sel: Dict<Selected>): (r: seq<ConditionSet>)
    ensures |r| <= |sets|
    ensures forall c :: c in r ==> exists i :: 0 <= i < |sets| && SubsetConditionSet(sel, sets[i]) == Some(c)
    ensures forall i :: 0 <= i < |sets| && SubsetConditionSet(sel, sets[i]).Some? ==> SubsetConditionSet(sel, sets[i]).value in r
  {
    FilterMap(sets, SubsetSetFn(sel))
  }

  /** The sets kept from two consecutive runs of condition sets are those kept
      from the first run followed by those kept from the second. */
  lemma KeptSetsAppend(a: seq<ConditionSet>, b: seq<ConditionSet>, sel: Dict<Selected>)
    ensures KeptSets(a + b, sel) == KeptSets(a, sel) + KeptSets(b, sel)
  {
    FilterMapAppend(a, b, SubsetSetFn(sel));
  }

  /** A single condition set is kept, as its subset, exactly when it survives. */
  lemma KeptSetsOne(cs: ConditionSet, sel: Dict<Selected>)
    ensures KeptSets([cs], sel) == match SubsetConditionSet(sel, cs) case None => [] case Some(c) => [c]
  {
    FilterMapOne(cs, SubsetSetFn(sel));
  }

  /** One rule, subset: its surviving condition sets under the same name and
      substitutions, or `None` when none survives. A rule without condition
      sets never survives. */
  function SubsetRule(rule: Rule, sel: Dict<Selected>): (r: Option<Rule>)
    ensures r.None? <==> forall i :: 0 <= i < |rule.conditionSets| ==> SubsetConditionSet(sel, rule.conditionSets[i]).None?
    ensures r.Some? ==> r.value.name == rule.name && r.value.subs == rule.subs
    ensures r.Some? ==> 0 < |r.value.conditionSets| <= |rule.conditionSets|
  {
    var sets := KeptSets(rule.conditionSets, sel);
    assert |sets| > 0 ==> sets[0] in sets;
    if |sets| == 0 then None else Some(Rule(rule.name, sets, rule.subs))
  }

  /** A rule's subset to the selection, as a filter step. */
  function SubsetRuleFn(sel: Dict<Selected>): Rule -> Option<Rule> {
    (rule: Rule) => SubsetRule(rule, sel)
  }

  /** `_subsetRulesBasedOnConditions(rules, regionSelection)`: the surviving
      rules, in order; `SubsetRulesAppend` and `SubsetRulesOne` give the order. */
  function SubsetRules(rules: seq<Rule>, sel: Dict<Selected>): (r: seq<Rule>)
    ensures |r| <= |rules|
    ensures forall x :: x in r <==> exists i :: 0 <= i < |rules| && SubsetRule(rules[i], sel) == Some(x)
  {
    FilterMap(rules, SubsetRuleFn(sel))
  }

  /** The rules kept from two consecutive runs of rules are those kept from the
      first run followed by those kept from the second. */
  lemma SubsetRulesAppend(a: seq<Rule>, b: seq<Rule>, sel: Dict<Selected>)
    ensures SubsetRules(a + b, sel) == SubsetRules(a, sel) + SubsetRules(b, sel)
  {
    FilterMapAppend(a, b, SubsetRuleFn(sel));
  }

  /** A single rule is kept, as its subset, exactly when it survives. */
  lemma SubsetRulesOne(rule: Rule, sel: Dict<Selected>)
    ensures SubsetRules([rule], sel) == match SubsetRule(rule, sel) case None => [] case Some(x) => [x]
  {
    FilterMapOne(rule, SubsetRuleFn(sel));
  }

  /** Subsetting keeps a rule's meaning on the selection: at a location inside
      the selection, a well-ordered rule applies exactly when it survives and
      its subset applies. In particular a dropped rule never applied there. */
  lemma SubsetRulePreservesMeaning(rule: Rule, sel: Dict<Selected>, loc: Location)
    requires LocationInSelection(loc, ToMap(sel))
    requires WellOrderedRule(rule)
    ensures RuleApplies(rule, loc) <==> SubsetRule(rule, sel).Some? && RuleApplies(SubsetRule(rule, sel).value, loc)
  {
    if RuleApplies(rule, loc) {
      SubsetRuleKeepsApplying(rule, sel, loc);
    }
    if SubsetRule(rule, sel).Some? && RuleApplies(SubsetRule(rule, sel).value, loc) {
      SubsetRuleAppliesOnlyIfOriginal(rule, sel, loc);
    }
  }

  /** A rule that applies inside the selection survives, and its subset applies. */
  lemma SubsetRuleKeepsApplying(rule: Rule, sel: Dict<Selected>, loc: Location)
    requires LocationInSelection(loc, ToMap(sel))
    requires WellOrderedRule(rule) && RuleApplies(rule, loc)
    ensures SubsetRule(rule, sel).Some? && RuleApplies(SubsetRule(rule, sel).value, loc)
  {
    var sets := rule.conditionSets;
    var i :| 0 <= i < |sets| && Holds(ConditionSetFrom(sets[i]), loc);
    var j := KeptSetHolds(sets, sel, loc, i);
    SubsetRuleValue(rule, sel);
    AppliesAt(Rule(rule.name, KeptSets(sets, sel), rule.subs), j, loc);
  }

  /** A well-ordered condition set holding inside the selection is kept, at
      some position `j`, and its subset holds there too. */
  lemma KeptSetHolds(sets: seq<ConditionSet>, sel: Dict<Selected>, loc: Location, i: int) returns (j: int)
    requires LocationInSelection(loc, ToMap(sel))
    requires 0 <= i < |sets| && Holds(ConditionSetFrom(sets[i]), loc)
    requires forall name :: name in ConditionSetFrom(sets[i]) ==> WellOrdered(ConditionSetFrom(sets[i])[name])
    ensures 0 <= j < |KeptSets(sets, sel)| && Holds(ConditionSetFrom(KeptSets(sets, sel)[j]), loc)
  {
    SubsetPreservesMeaning(sel, sets[i], loc);
    var kept := KeptSets(sets, sel);
    var c := SubsetConditionSet(sel, sets[i]).value;
    assert c in kept;
    j :| 0 <= j < |kept| && kept[j] == c;
  }

  /** A rule with a surviving condition set is kept with exactly those sets. */
  lemma SubsetRuleValue(rule: Rule, sel: Dict<Selected>)
    requires |KeptSets(rule.conditionSets, sel)| > 0
    ensures SubsetRule(rule, sel) == Some(Rule(rule.name, KeptSets(rule.conditionSets, sel), rule.subs))
  {
  }

  /** A rule applies where one of its condition sets holds. */
  lemma AppliesAt(rule: Rule, j: int, loc: Location)
    requires 0 <= j < |rule.conditionSets| && Holds(ConditionSetFrom(rule.conditionSets[j]), loc)
    ensures RuleApplies(rule, loc)
  {
  }

  /** A surviving rule whose subset applies inside the selection applied before. */
  lemma SubsetRuleAppliesOnlyIfOriginal(rule: Rule, sel: Dict<Selected>, loc: Location)
    requires LocationInSelection(loc, ToMap(sel))
    requires WellOrderedRule(rule)
    requires SubsetRule(rule, sel).Some? && RuleApplies(SubsetRule(rule, sel).value, loc)
    ensures RuleApplies(rule, loc)
  {
    var sets := rule.conditionSets;
    var kept := KeptSets(sets, sel);
    assert SubsetRule(rule, sel).value.conditionSets == kept;
    var j :| 0 <= j < |kept| && Holds(ConditionSetFrom(kept[j]), loc);
    assert kept[j] in kept;
    var i :| 0 <= i < |sets| && SubsetConditionSet(sel, sets[i]) == Some(kept[j]);
    SubsetPreservesMeaning(sel, sets[i], loc);
  }

  // ---------------------------------------------------------------------
  // Sources and instances

  /** `_filter_location(axesWithRange, location)`: the location on the kept axes only. */
  function FilterLocation(kept: set<string>, loc: Location): (r: Location)
    ensures r.Keys == loc.Keys * kept
    ensures forall k :: k in r ==> r[k] == loc[k]
  {
    map k | k in loc && k in kept :: loc[k]
  }

  /** The copy of a source in the new document: the location cut to the kept
      axes; the localised family names are not carried over. */
  function ProjectSource(kept: set<string>, s: Source): (r: Source)
    ensures r.location.Keys == s.location.Keys * kept
    ensures forall k :: k in r.location ==> r.location[k] == s.location[k]
    ensures r.localisedFamilyName == map[]
    ensures r.(location := s.location, localisedFamilyName := s.localisedFamilyName) == s
  {
    s.(location := FilterLocation(kept, s.location), localisedFamilyName := map[])
  }

  /** A source's copy when its location lies in the selection, as a filter step. */
  function KeepSourceFn(sel: map<string, Selected>, kept: set<string>): Source -> Option<Source> {
    (s: Source) => if LocationInSelection(s.location, sel) then Some(ProjectSource(kept, s)) else None
  }

  /** The sources whose location lies in the selection, copied, in order;
      `KeepSourcesAppend` and `KeepSourcesOne` give the order. */
  function KeepSources(sources: seq<Source>, sel: map<string, Selected>, kept: set<string>): (r: seq<Source>)
    ensures |r| <= |sources|
    ensures forall x :: x in r <==> exists s :: s in sources && LocationInSelection(s.location, sel) && x == ProjectSource(kept, s)
  {
    var r := FilterMap(sources, KeepSourceFn(sel, kept));
    assert forall x :: x in r <==> exists s :: s in sources && LocationInSelection(s.location, sel) && x == ProjectSource(kept, s) by {
      forall x ensures x in r <==> exists s :: s in sources && LocationInSelection(s.location, sel) && x == ProjectSource(kept, s) {
        if x in r {
          var i :| 0 <= i < |sources| && KeepSourceFn(sel, kept)(sources[i]) == Some(x);
          assert sources[i] in sources;
        }
        if exists s :: s in sources && LocationInSelection(s.location, sel) && x == ProjectSource(kept, s) {
          var s :| s in sources && LocationInSelection(s.location, sel) && x == ProjectSource(kept, s);
          var i :| 0 <= i < |sources| && sources[i] == s;
          assert KeepSourceFn(sel, kept)(sources[i]) == Some(x);
        }
      }
    }
    r
  }

  /** The sources kept from two consecutive runs of sources are those kept
      from the first run followed by those kept from the second. */
  lemma KeepSourcesAppend(a: seq<Source>, b: seq<Source>, sel: map<string, Selected>, kept: set<string>)
    ensures KeepSources(a + b, sel, kept) == KeepSources(a, sel, kept) + KeepSources(b, sel, kept)
  {
    FilterMapAppend(a, b, KeepSourceFn(sel, kept));
  }

  /** A single source is kept, as its copy, exactly when its location lies in the selection. */
  lemma KeepSourcesOne(s: Source, sel: map<string, Selected>, kept: set<string>)
    ensures KeepSources([s], sel, kept) == if LocationInSelection(s.location, sel) then [ProjectSource(kept, s)] else []
  {
    FilterMapOne(s, KeepSourceFn(sel, kept));
  }

  /** `given or fallback` for an optional name: a non-empty given name is
      kept, anything else gives way to the fallback. */
  predicate FilledIn(given: Option<string>, fallback: Option<string>, result: Option<string>) {
    (given.Some? && given.value != "" ==> result == given)
    && (given.None? || given.value == "" ==> result == fallback)
  }

  /** `given or fallback` for localised names: a non-empty dict is kept, the
      empty dict gives way to the fallback. */
  predicate FilledInNames(given: Names, fallback: Names, result: Names) {
    (|given| > 0 ==> result == given) && (|given| == 0 ==> result == fallback)
  }

  /** The copy of an instance in the new document: the location cut to the
      kept axes, each name the instance leaves empty filled in from its STAT
      names, and the file name, path, name and lib copied. */
  function ProjectInstance(kept: set<string>, inst: Instance, names: StatNames): (r: Instance)
    ensures r.filename == inst.filename && r.path == inst.path && r.name == inst.name && r.lib == inst.lib
    ensures r.location.Keys == inst.location.Keys * kept
    ensures forall k :: k in r.location ==> r.location[k] == inst.location[k]
    ensures FilledIn(inst.familyName, MapGet(names.familyNames, "en"), r.familyName)
    ensures FilledIn(inst.styleName, MapGet(names.styleNames, "en"), r.styleName)
    ensures "en" in names.styleNames ==> r.styleName.Some?
    ensures FilledIn(inst.postScriptFontName, names.postScriptFontName, r.postScriptFontName)
    ensures FilledIn(inst.styleMapFamilyName, MapGet(names.styleMapFamilyNames, "en"), r.styleMapFamilyName)
    ensures FilledIn(inst.styleMapStyleName, Some(names.styleMapStyleName.Name()), r.styleMapStyleName)
    ensures r.styleMapStyleName.Some?
    ensures FilledInNames(inst.localisedFamilyName, names.familyNames, r.localisedFamilyName)
    ensures FilledInNames(inst.localisedStyleName, names.styleNames, r.localisedStyleName)
    ensures FilledInNames(inst.localisedStyleMapFamilyName, names.styleMapFamilyNames, r.localisedStyleMapFamilyName)
    ensures r.localisedStyleMapStyleName == inst.localisedStyleMapStyleName
  {
    Instance(
      inst.filename, inst.path, inst.name,
      FilterLocation(kept, inst.location),
      OrString(inst.familyName, MapGet(names.familyNames, "en")),
      OrString(inst.styleName, MapGet(names.styleNames, "en")),
      OrString(inst.postScriptFontName, names.postScriptFontName),
      OrString(inst.styleMapFamilyName, MapGet(names.styleMapFamilyNames, "en")),
      OrString(inst.styleMapStyleName, Some(names.styleMapStyleName.Name())),
      OrNames(inst.localisedFamilyName, names.familyNames),
      OrNames(inst.localisedStyleName, names.styleNames),
      OrNames(inst.localisedStyleMapFamilyName, names.styleMapFamilyNames),
      OrNames(inst.localisedStyleMapStyleName, map[]),
      inst.lib)
  }

  /** For each instance, the STAT names at its full user location. */
  function NamesOf(doc: Document, h: Helpers, fuel: nat): Instance -> Result<StatNames> {
    inst => GetStatNames(doc, h, h.instanceUserLocation(inst), fuel)
  }

  /** Every instance in the selection has STAT names. */
  predicate InstancesNamed(instances: seq<Instance>, sel: map<string, Selected>, names: Instance -> Result<StatNames>) {
    forall i :: 0 <= i < |instances| && LocationInSelection(instances[i].location, sel) ==> names(instances[i]).Ok?
  }

  /** All instances are named iff all but the last are and the last is, when selected. */
  lemma InstancesNamedDropLast(instances: seq<Instance>, sel: map<string, Selected>, names: Instance -> Result<StatNames>)
    requires |instances| > 0
    ensures var last := instances[|instances| - 1];
      InstancesNamed(instances, sel, names) <==>
        (InstancesNamed(instances[..|instances| - 1], sel, names)
         && (LocationInSelection(last.location, sel) ==> names(last).Ok?))
  {
    var init := instances[..|instances| - 1];
    assert forall i :: 0 <= i < |init| ==> init[i] == instances[i];
  }

  /** The instances whose location lies in the selection, copied with their
      names completed, in order. Fails when the names of one of them cannot be
      derived. */
  function KeepInstances(instances: seq<Instance>, sel: map<string, Selected>, kept: set<string>,
                         names: Instance -> Result<StatNames>): (r: Result<seq<Instance>>)
    ensures r.Ok? ==> |r.value| <= |instances|
  {
    if |instances| == 0 then Ok([])
    else
      var n := |instances| - 1;
      var init := instances[..n];
      var last := instances[n];
      var prev :- KeepInstances(init, sel, kept, names);
      if !LocationInSelection(last.location, sel) then Ok(prev)
      else
        var lastNames :- names(last);
        Ok(prev + [ProjectInstance(kept, last, lastNames)])
  }

  /** Two results of keeping instances, combined as one loop over both runs:
      the first failure, or the kept instances of the first run followed by
      those of the second. */
  function Then(a: Result<seq<Instance>>, b: Result<seq<Instance>>): Result<seq<Instance>> {
    match a
    case Err(e) => Err(e)
    case Ok(x) => match b case Err(e) => Err(e) case Ok(y) => Ok(x + y)
  }

  lemma ThenAssociative(a: Result<seq<Instance>>, b: Result<seq<Instance>>, c: Result<seq<Instance>>)
    ensures Then(Then(a, b), c) == Then(a, Then(b, c))
  {
    if a.Ok? && b.Ok? && c.Ok? {
      assert (a.value + b.value) + c.value == a.value + (b.value + c.value);
    }
  }

  /** Keeping the instances of a run and one more instance. */
  lemma KeepInstancesSnoc(xs: seq<Instance>, x: Instance, sel: map<string, Selected>, kept: set<string>,
                          names: Instance -> Result<StatNames>)
    ensures KeepInstances(xs + [x], sel, kept, names)
         == Then(KeepInstances(xs, sel, kept, names), KeepInstances([x], sel, kept, names))
  {
    assert (xs + [x])[..|xs|] == xs;
    KeepInstancesOne(x, sel, kept, names);
    var k := KeepInstances(xs, sel, kept, names);
    if k.Ok? {
      assert k.value + [] == k.value;
    }
  }

  /** Keeping the instances of two consecutive runs is keeping those of the
      first run, then those of the second: the order is kept, and the first
      failure stops the loop. */
  lemma {:induction false} KeepInstancesAppend(a: seq<Instance>, b: seq<Instance>, sel: map<string, Selected>, kept: set<string>,
                                               names: Instance -> Result<StatNames>)
    ensures KeepInstances(a + b, sel, kept, names)
         == Then(KeepInstances(a, sel, kept, names), KeepInstances(b, sel, kept, names))
    decreases |b|
  {
    var ka := KeepInstances(a, sel, kept, names);
    if |b| == 0 {
      assert a + b == a;
      assert KeepInstances(b, sel, kept, names) == Ok([]);
      if ka.Ok? {
        assert ka.value + [] == ka.value;
      }
    } else {
      var n := |b| - 1;
      var init := b[..n];
      var last := b[n];
      assert a + b == (a + init) + [last] by {
        DropLast(b);
      }
      assert b == init + [last] by {
        DropLast(b);
      }
      KeepInstancesAppend(a, init, sel, kept, names);
      KeepInstancesSnoc(a + init, last, sel, kept, names);
      KeepInstancesSnoc(init, last, sel, kept, names);
      ThenAssociative(ka, KeepInstances(init, sel, kept, names), KeepInstances([last], sel, kept, names));
    }
  }

  /** A single instance: kept with its names completed when it lies in the
      selection, or the error of its STAT names. */
  lemma KeepInstancesOne(inst: Instance, sel: map<string, Selected>, kept: set<string>, names: Instance -> Result<StatNames>)
    ensures KeepInstances([inst], sel, kept, names)
         == if !LocationInSelection(inst.location, sel) then Ok([])
            else if names(inst).Err? then Err(names(inst).error)
            else Ok([ProjectInstance(kept, inst, names(inst).value)])
  {
    assert [inst][..0] == [];
    assert KeepInstances([], sel, kept, names) == Ok([]);
    if LocationInSelection(inst.location, sel) && names(inst).Ok? {
      assert [] + [ProjectInstance(kept, inst, names(inst).value)] == [ProjectInstance(kept, inst, names(inst).value)];
    }
  }

  /** Keeping the instances fails exactly when one in the selection has no STAT names. */
  lemma {:induction false} KeepInstancesOk(instances: seq<Instance>, sel: map<string, Selected>, kept: set<string>,
                                           names: Instance -> Result<StatNames>)
    ensures KeepInstances(instances, sel, kept, names).Ok? <==> InstancesNamed(instances, sel, names)
  {
    if |instances| > 0 {
      var n := |instances| - 1;
      var init := instances[..n];
      KeepInstancesOk(init, sel, kept, names);
      InstancesNamedDropLast(instances, sel, names);
    }
  }

  /** Instance `i` is in the selection, and `x` is its completed copy. */
  predicate KeptInstance(instances: seq<Instance>, sel: map<string, Selected>, kept: set<string>,
                         names: Instance -> Result<StatNames>, i: int, x: Instance)
  {
    && 0 <= i < |instances|
    && LocationInSelection(instances[i].location, sel)
    && names(instances[i]).Ok?
    && x == ProjectInstance(kept, instances[i], names(instances[i]).value)
  }

  /** Every kept instance is the completed copy of an instance in the selection. */
  lemma {:induction false} KeepInstancesContents(instances: seq<Instance>, sel: map<string, Selected>, kept: set<string>,
                                                 names: Instance -> Result<StatNames>)
    requires KeepInstances(instances, sel, kept, names).Ok?
    ensures var r := KeepInstances(instances, sel, kept, names).value;
      |r| <= |instances| && forall x :: x in r ==> exists i :: KeptInstance(instances, sel, kept, names, i, x)
  {
    if |instances| > 0 {
      var n := |instances| - 1;
      var init := instances[..n];
      KeepInstancesContents(init, sel, kept, names);
      var prev := KeepInstances(init, sel, kept, names).value;
      var r := KeepInstances(instances, sel, kept, names).value;
      forall x | x in r ensures exists i :: KeptInstance(instances, sel, kept, names, i, x) {
        if x in prev {
          var i :| KeptInstance(init, sel, kept, names, i, x);
          assert init[i] == instances[i];
          assert KeptInstance(instances, sel, kept, names, i, x);
        } else {
          assert KeptInstance(instances, sel, kept, names, n, x);
        }
      }
    }
  }

  /** Every instance in the selection is kept, as its completed copy. */
  lemma {:induction false} KeepInstancesComplete(instances: seq<Instance>, sel: map<string, Selected>, kept: set<string>,
                                                 names: Instance -> Result<StatNames>, i: int)
    requires KeepInstances(instances, sel, kept, names).Ok?
    requires 0 <= i < |instances| && LocationInSelection(instances[i].location, sel)
    ensures names(instances[i]).Ok?
    ensures ProjectInstance(kept, instances[i], names(instances[i]).value) in KeepInstances(instances, sel, kept, names).value
  {
    var n := |instances| - 1;
    var init := instances[..n];
    if i < n {
      assert init[i] == instances[i];
      KeepInstancesComplete(init, sel, kept, names, i);
    }
  }

  // ---------------------------------------------------------------------
  // One variable font

  /** What the conversion of one variable font decides about its axes. */
  datatype Plan = Plan(split: Split, single: Dict<real>, selection: Dict<Selected>)

  /** The axis split, `axesWithSingleLocation` after pinning the unmentioned
      axes, and the region selection. */
  function PlanFor(doc: Document, h: Helpers, vf: VariableFont): (r: Result<Plan>)
    ensures r.Ok? <==> Resolves(h, vf.axisSubsets)
    ensures r.Ok? ==> SplitSubsets(h, vf.axisSubsets) == Ok(r.value.split)
    ensures r.Ok? ==> Keys(r.value.selection) == Keys(r.value.split.withRange) + Keys(r.value.single)
  {
    var split :- SplitSubsets(h, vf.axisSubsets);
    var single := PinUnmentioned(split.single, Keys(split.withRange), doc.axes);
    Ok(Plan(split, single, RegionSelectionFrom(h, split.withRange, single)))
  }

  /** The body of the loop over `self.variableFonts`. */
  function ConvertVariableFont(doc: Document, h: Helpers, vf: VariableFont, fuel: nat): (r: Result<Document4>)
    ensures r.Ok? ==> PlanFor(doc, h, vf).Ok?
    ensures r.Ok? ==> r.value.formatVersion == "4.1" && r.value.rulesProcessingLast == doc.rulesProcessingLast
    ensures r.Ok? ==> r.value.axes == PlanFor(doc, h, vf).value.split.vfAxes
    ensures r.Ok? ==> r.value.rules == SubsetRules(doc.rules, PlanFor(doc, h, vf).value.selection)
    ensures r.Ok? ==> |r.value.sources| <= |doc.sources| && |r.value.instances| <= |doc.instances|
    ensures r.Ok? ==> r.value.lib.Keys == doc.lib.Keys + vf.lib.Keys
    ensures r.Ok? ==> forall k :: k in vf.lib ==> r.value.lib[k] == vf.lib[k]
    ensures r.Ok? ==> forall k :: k in doc.lib && k !in vf.lib ==> r.value.lib[k] == doc.lib[k]
  {
    var plan :- PlanFor(doc, h, vf);
    var sel := ToMap(plan.selection);
    var kept := Keys(plan.split.withRange);
    var instances :- KeepInstances(doc.instances, sel, kept, NamesOf(doc, h, fuel));
    Ok(Document4(
      "4.1",
      plan.split.vfAxes,
      SubsetRules(doc.rules, plan.selection),
      doc.rulesProcessingLast,
      KeepSources(doc.sources, sel, kept),
      instances,
      doc.lib + vf.lib))
  }

  /** The converted document's sources are the sources in the font's
      selection, and its instances the instances in the selection with their
      names completed, both in document order. */
  lemma ConvertVariableFontContents(doc: Document, h: Helpers, vf: VariableFont, fuel: nat)
    requires ConvertVariableFont(doc, h, vf, fuel).Ok?
    ensures var plan := PlanFor(doc, h, vf).value;
      var r := ConvertVariableFont(doc, h, vf, fuel).value;
      && r.sources == KeepSources(doc.sources, ToMap(plan.selection), Keys(plan.split.withRange))
      && Ok(r.instances) == KeepInstances(doc.instances, ToMap(plan.selection), Keys(plan.split.withRange), NamesOf(doc, h, fuel))
  {
  }

  /** Converting a font fails exactly when a subset names an unknown axis or
      an instance in its selection has no STAT names. */
  lemma ConvertVariableFontOk(doc: Document, h: Helpers, vf: VariableFont, fuel: nat)
    ensures ConvertVariableFont(doc, h, vf, fuel).Ok?
      <==> Resolves(h, vf.axisSubsets)
           && InstancesNamed(doc.instances, ToMap(PlanFor(doc, h, vf).value.selection), NamesOf(doc, h, fuel))
  {
    if Resolves(h, vf.axisSubsets) {
      var plan := PlanFor(doc, h, vf).value;
      KeepInstancesOk(doc.instances, ToMap(plan.selection), Keys(plan.split.withRange), NamesOf(doc, h, fuel));
    }
  }

  /** The converted document's instances are exactly the completed copies of
      the source document's instances in the selection: each output instance
      comes from one of them, and each of them appears. */
  lemma ConvertVariableFontInstances(doc: Document, h: Helpers, vf: VariableFont, fuel: nat)
    requires ConvertVariableFont(doc, h, vf, fuel).Ok?
    ensures var plan := PlanFor(doc, h, vf).value;
      var r := ConvertVariableFont(doc, h, vf, fuel).value;
      && |r.instances| <= |doc.instances|
      && (forall x :: x in r.instances ==>
            exists i :: KeptInstance(doc.instances, ToMap(plan.selection), Keys(plan.split.withRange), NamesOf(doc, h, fuel), i, x))
      && (forall i :: 0 <= i < |doc.instances| && LocationInSelection(doc.instances[i].location, ToMap(plan.selection)) ==>
            NamesOf(doc, h, fuel)(doc.instances[i]).Ok?
            && ProjectInstance(Keys(plan.split.withRange), doc.instances[i], NamesOf(doc, h, fuel)(doc.instances[i]).value) in r.instances)
  {
    var plan := PlanFor(doc, h, vf).value;
    var sel := ToMap(plan.selection);
    var kept := Keys(plan.split.withRange);
    var names := NamesOf(doc, h, fuel);
    KeepInstancesContents(doc.instances, sel, kept, names);
    forall i | 0 <= i < |doc.instances| && LocationInSelection(doc.instances[i].location, sel)
      ensures names(doc.instances[i]).Ok?
      ensures ProjectInstance(kept, doc.instances[i], names(doc.instances[i]).value) in KeepInstances(doc.instances, sel, kept, names).value
    {
      KeepInstancesComplete(doc.instances, sel, kept, names, i);
    }
  }

  /** At a location inside the font's selection, the converted rules that
      apply are exactly the subsets of the original rules that apply: every
      applying rule survives under its name with its substitutions, and
      nothing applies that did not apply before. */
  lemma ConvertedRulesPreserveMeaning(doc: Document, h: Helpers, vf: VariableFont, fuel: nat, loc: Location)
    requires ConvertVariableFont(doc, h, vf, fuel).Ok?
    requires LocationInSelection(loc, ToMap(PlanFor(doc, h, vf).value.selection))
    requires forall i :: 0 <= i < |doc.rules| ==> WellOrderedRule(doc.rules[i])
    ensures var rules := ConvertVariableFont(doc, h, vf, fuel).value.rules;
      && (forall i :: 0 <= i < |doc.rules| && RuleApplies(doc.rules[i], loc) ==>
            exists x :: x in rules && RuleApplies(x, loc) && x.name == doc.rules[i].name && x.subs == doc.rules[i].subs)
      && (forall x :: x in rules && RuleApplies(x, loc) ==>
            exists i :: 0 <= i < |doc.rules| && RuleApplies(doc.rules[i], loc) && x.name == doc.rules[i].name && x.subs == doc.rules[i].subs)
  {
    var sel := PlanFor(doc, h, vf).value.selection;
    var rules := ConvertVariableFont(doc, h, vf, fuel).value.rules;
    forall i | 0 <= i < |doc.rules| && RuleApplies(doc.rules[i], loc)
      ensures exists x :: x in rules && RuleApplies(x, loc) && x.name == doc.rules[i].name && x.subs == doc.rules[i].subs
    {
      SubsetRulePreservesMeaning(doc.rules[i], sel, loc);
      assert SubsetRule(doc.rules[i], sel).value in rules;
    }
    forall x | x in rules && RuleApplies(x, loc)
      ensures exists i :: 0 <= i < |doc.rules| && RuleApplies(doc.rules[i], loc) && x.name == doc.rules[i].name && x.subs == doc.rules[i].subs
    {
      var i :| 0 <= i < |doc.rules| && SubsetRule(doc.rules[i], sel) == Some(x);
      SubsetRulePreservesMeaning(doc.rules[i], sel, loc);
    }
  }

  /** `getAxis(name)` finds the document's axis of that name. */
  ghost predicate GetAxisFinds(doc: Document, h: Helpers) {
    forall name :: h.getAxis(name).Some? ==> h.getAxis(name).value in doc.axes && h.getAxis(name).value.name == name
  }

  /** The selection covers exactly the document's axes. */
  lemma SelectionCoversAxes(doc: Document, h: Helpers, vf: VariableFont)
    requires GetAxisFinds(doc, h)
    requires PlanFor(doc, h, vf).Ok?
    ensures Keys(PlanFor(doc, h, vf).value.selection) == AxisNames(doc.axes)
  {
    var subsets := vf.axisSubsets;
    var plan := PlanFor(doc, h, vf).value;
    var withRange := Keys(plan.split.withRange);
    var pinned := Keys(plan.split.single);
    ResolvedAreAxes(doc, h, subsets, true);
    ResolvedAreAxes(doc, h, subsets, false);
    assert withRange <= AxisNames(doc.axes) && pinned <= AxisNames(doc.axes);
    assert Keys(plan.single) == pinned + (AxisNames(doc.axes) - withRange);
  }

  /** When `getAxis` finds document axes, every resolved name is a document axis name. */
  lemma ResolvedAreAxes(doc: Document, h: Helpers, subsets: seq<AxisSubset>, ranges: bool)
    requires GetAxisFinds(doc, h)
    ensures ResolvedNames(h, subsets, ranges) <= AxisNames(doc.axes)
  {
    forall x | x in ResolvedNames(h, subsets, ranges) ensures x in AxisNames(doc.axes) {
      var i :| 0 <= i < |subsets| && subsets[i].RangeSubset? == ranges && h.getAxis(subsets[i].name).Some?
               && x == h.getAxis(subsets[i].name).value.name;
      assert h.getAxis(subsets[i].name).value in doc.axes;
    }
  }

  /** An axis no subset mentions is pinned at the default of its first
      declaration; a pinned subset's axis at the value of the last value
      subset naming it. */
  lemma SelectionOfPinnedAxes(doc: Document, h: Helpers, vf: VariableFont, name: string)
    requires PlanFor(doc, h, vf).Ok?
    ensures var plan := PlanFor(doc, h, vf).value;
      && (name in AxisNames(doc.axes) && name !in ResolvedNames(h, vf.axisSubsets, true)
            && name !in ResolvedNames(h, vf.axisSubsets, false)
          ==> Get(plan.selection, name) == Some(Point(FirstNamed(doc.axes, name).value.default)))
      && (name in ResolvedNames(h, vf.axisSubsets, false)
          ==> exists i :: LastOfKind(h, vf.axisSubsets, false, name, i)
                && Get(plan.selection, name) == Some(Point(vf.axisSubsets[i].userValue)))
  {
    if name in ResolvedNames(h, vf.axisSubsets, false) {
      var i := SplitSubsetsPins(h, vf.axisSubsets, name);
    }
  }

  /** An axis only range subsets name is selected by the range of the reduced
      axis of the last of them. */
  lemma SelectionOfKeptAxes(doc: Document, h: Helpers, vf: VariableFont, name: string)
    requires PlanFor(doc, h, vf).Ok?
    requires name in ResolvedNames(h, vf.axisSubsets, true) && name !in ResolvedNames(h, vf.axisSubsets, false)
    ensures var plan := PlanFor(doc, h, vf).value;
      exists i :: LastOfKind(h, vf.axisSubsets, true, name, i)
        && Get(plan.selection, name)
           == Some(Kept(KeptRange(h, ReduceAxis(h.getAxis(vf.axisSubsets[i].name).value, vf.axisSubsets[i]))))
  {
    var i := SplitSubsetsRanges(h, vf.axisSubsets, name);
  }

  /** A kept source's location has exactly the kept axes. */
  lemma KeptSourcesUseKeptAxes(doc: Document, h: Helpers, vf: VariableFont, fuel: nat)
    requires ConvertVariableFont(doc, h, vf, fuel).Ok?
    ensures var plan := PlanFor(doc, h, vf).value;
      forall s :: s in ConvertVariableFont(doc, h, vf, fuel).value.sources ==> s.location.Keys == Keys(plan.split.withRange)
  {
    var plan := PlanFor(doc, h, vf).value;
    var sel := ToMap(plan.selection);
    var kept := Keys(plan.split.withRange);
    assert ConvertVariableFont(doc, h, vf, fuel).value.sources == KeepSources(doc.sources, sel, kept);
    KeepSourcesKeys(doc.sources, sel, kept);
  }

  /** Each kept source's location is cut down to exactly the kept axes, since
      a source in the selection mentions every selected axis. */
  lemma KeepSourcesKeys(sources: seq<Source>, sel: map<string, Selected>, kept: set<string>)
    requires kept <= sel.Keys
    ensures forall x :: x in KeepSources(sources, sel, kept) ==> x.location.Keys == kept
  {
    forall x | x in KeepSources(sources, sel, kept) ensures x.location.Keys == kept {
      var s :| s in sources && LocationInSelection(s.location, sel) && x == ProjectSource(kept, s);
      assert x.location.Keys == s.location.Keys * kept;
    }
  }

  // ---------------------------------------------------------------------
  // The whole document

  /** For each variable font, its converted document. */
  function ConverterOf(doc: Document, h: Helpers, fuel: nat): VariableFont -> Result<Document4> {
    vf => ConvertVariableFont(doc, h, vf, fuel)
  }

  /** Every font of `vfs` converts. */
  predicate AllConvert<T>(vfs: seq<VariableFont>, convert: VariableFont -> Result<T>) {
    forall i :: 0 <= i < |vfs| ==> convert(vfs[i]).Ok?
  }

  function FileNames(vfs: seq<VariableFont>): set<string> {
    set vf | vf in vfs :: vf.filename
  }

  /** The loop over `self.variableFonts`: each converted document stored under
      its font's file name, a later font replacing an earlier one of the same
      name; the first font that fails to convert stops the loop. */
  function ConvertFonts<T>(vfs: seq<VariableFont>, convert: VariableFont -> Result<T>): (r: Result<Dict<T>>)
    ensures r.Ok? ==> |r.value| <= |vfs|
  {
    if |vfs| == 0 then Ok([])
    else
      var n := |vfs| - 1;
      var prev :- ConvertFonts(vfs[..n], convert);
      var converted :- convert(vfs[n]);
      Ok(Put(prev, vfs[n].filename, converted))
  }

  /** The loop succeeds exactly when every font converts, and then holds one
      document per distinct file name. */
  lemma {:induction false} ConvertFontsOk<T>(vfs: seq<VariableFont>, convert: VariableFont -> Result<T>)
    ensures ConvertFonts(vfs, convert).Ok? <==> AllConvert(vfs, convert)
    ensures ConvertFonts(vfs, convert).Ok? ==> Keys(ConvertFonts(vfs, convert).value) == FileNames(vfs)
  {
    if |vfs| > 0 {
      var n := |vfs| - 1;
      var init := vfs[..n];
      ConvertFontsOk(init, convert);
      assert AllConvert(vfs, convert) <==> AllConvert(init, convert) && convert(vfs[n]).Ok? by {
        assert forall i :: 0 <= i < n ==> init[i] == vfs[i];
      }
      assert FileNames(vfs) == FileNames(init) + {vfs[n].filename} by {
        MemberDropLast(vfs);
      }
    }
  }

  /** A failed loop carries the error of the first font that fails to convert. */
  lemma {:induction false} ConvertFontsFirstError<T>(vfs: seq<VariableFont>, convert: VariableFont -> Result<T>)
    requires ConvertFonts(vfs, convert).Err?
    ensures exists i :: 0 <= i < |vfs| && convert(vfs[i]).Err? && (forall j :: 0 <= j < i ==> convert(vfs[j]).Ok?)
                        && ConvertFonts(vfs, convert).error == convert(vfs[i]).error
  {
    var n := |vfs| - 1;
    var init := vfs[..n];
    ConvertFontsOk(init, convert);
    if ConvertFonts(init, convert).Err? {
      ConvertFontsFirstError(init, convert);
      var i :| 0 <= i < |init| && convert(init[i]).Err? && (forall j :: 0 <= j < i ==> convert(init[j]).Ok?)
               && ConvertFonts(init, convert).error == convert(init[i]).error;
      assert init[i] == vfs[i];
      assert forall j :: 0 <= j < i ==> init[j] == vfs[j];
    } else {
      assert forall j :: 0 <= j < n ==> init[j] == vfs[j];
    }
  }

  /** No later font has the same file name as font `i`. */
  predicate LastWithName(vfs: seq<VariableFont>, i: int)
    requires 0 <= i < |vfs|
  {
    forall j :: i < j < |vfs| ==> vfs[j].filename != vfs[i].filename
  }

  /** The document stored under a file name is the conversion of the last font
      with that name. */
  lemma {:induction false} ConvertFontsLastWins<T>(vfs: seq<VariableFont>, convert: VariableFont -> Result<T>, i: int)
    requires ConvertFonts(vfs, convert).Ok?
    requires 0 <= i < |vfs| && LastWithName(vfs, i)
    ensures convert(vfs[i]).Ok?
    ensures Get(ConvertFonts(vfs, convert).value, vfs[i].filename) == Some(convert(vfs[i]).value)
  {
    var n := |vfs| - 1;
    var init := vfs[..n];
    if i < n {
      assert init[i] == vfs[i];
      assert LastWithName(init, i);
      ConvertFontsLastWins(init, convert, i);
      assert vfs[n].filename != vfs[i].filename;
    }
  }

  /** What the loop over the fonts gives, for any conversion of one font:
      success exactly when every font converts, else the first failure's
      error; one document per file name, the last font of a name winning. */
  lemma {:induction false} ConvertFontsMeaning<T>(vfs: seq<VariableFont>, convert: VariableFont -> Result<T>)
    ensures var r := ConvertFonts(vfs, convert);
      && (r.Ok? <==> forall i :: 0 <= i < |vfs| ==> convert(vfs[i]).Ok?)
      && (r.Err? ==> exists i ::
            && 0 <= i < |vfs| && convert(vfs[i]).Err?
            && (forall j :: 0 <= j < i ==> convert(vfs[j]).Ok?)
            && r.error == convert(vfs[i]).error)
      && (r.Ok? ==> Keys(r.value) == FileNames(vfs))
      && (r.Ok? ==> forall i :: 0 <= i < |vfs| && LastWithName(vfs, i) ==>
            Get(r.value, vfs[i].filename) == Some(convert(vfs[i]).value))
  {
    var r := ConvertFonts(vfs, convert);
    ConvertFontsOk(vfs, convert);
    if r.Err? {
      ConvertFontsFirstError(vfs, convert);
    } else {
      forall i | 0 <= i < |vfs| && LastWithName(vfs, i)
        ensures Get(r.value, vfs[i].filename) == Some(convert(vfs[i]).value)
      {
        ConvertFontsLastWins(vfs, convert, i);
      }
    }
  }

  /** `convert5to4(doc)`. */
  function Convert5To4(doc: Document, h: Helpers, fuel: nat): (r: Result<Dict<Document4>>)
    ensures r.Ok? <==> forall i :: 0 <= i < |doc.variableFonts| ==> ConvertVariableFont(doc, h, doc.variableFonts[i], fuel).Ok?
    ensures r.Err? ==> exists i ::
      && 0 <= i < |doc.variableFonts| && ConvertVariableFont(doc, h, doc.variableFonts[i], fuel).Err?
      && (forall j :: 0 <= j < i ==> ConvertVariableFont(doc, h, doc.variableFonts[j], fuel).Ok?)
      && r.error == ConvertVariableFont(doc, h, doc.variableFonts[i], fuel).error
    ensures r.Ok? ==> Keys(r.value) == FileNames(doc.variableFonts)
    ensures r.Ok? ==> forall i :: 0 <= i < |doc.variableFonts| && LastWithName(doc.variableFonts, i) ==>
      Get(r.value, doc.variableFonts[i].filename) == Some(ConvertVariableFont(doc, h, doc.variableFonts[i], fuel).value)
  {
    ConvertFontsMeaning(doc.variableFonts, ConverterOf(doc, h, fuel));
    ConvertFonts(doc.variableFonts, ConverterOf(doc, h, fuel))
  }
}
