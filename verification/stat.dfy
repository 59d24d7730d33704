/** The records handed to the STAT table builder: one per axis with its
    ordering and axis-value records, and one per location label.

    The flag bits and the three axis-value record shapes follow the OpenType
    specification, STAT table, "Axis value tables" (formats 1, 2 and 3 and
    the axis value table flags). */
module StatRecords {

  import opened Basics
  import opened PyDict
  import opened DesignSpace
  import StatNaming
  import opened Seqs

  /** OLDER_SIBLING_FONT_ATTRIBUTE. */
  const OlderSiblingFontAttribute: bv16 := 0x0001

  /** ELIDABLE_AXIS_VALUE_NAME. */
  const ElidableAxisValueName: bv16 := 0x0002

  // ---------------------------------------------------------------------
  // Flags

  /** `_labelToFlags`: each attribute sets its own bit and no other. */
  function LabelFlags(olderSibling: bool, elidable: bool): (f: bv16)
    ensures (f & OlderSiblingFontAttribute != 0) <==> olderSibling
    ensures (f & ElidableAxisValueName != 0) <==> elidable
    ensures f & !(OlderSiblingFontAttribute | ElidableAxisValueName) == 0
    ensures f as int == (if olderSibling then 1 else 0) + (if elidable then 2 else 0)
  {
    var f: bv16 := 0;
    var f := if olderSibling then f | OlderSiblingFontAttribute else f;
    if elidable then f | ElidableAxisValueName else f
  }

  /** The flags determine both attributes, and never exceed 3. */
  lemma LabelFlagsInjective(a: bool, b: bool, c: bool, d: bool)
    ensures LabelFlags(a, b) == LabelFlags(c, d) <==> a == c && b == d
    ensures LabelFlags(a, b) as int <= 3
  {
  }

  // ---------------------------------------------------------------------
  // Axis records

  /** An axis value record, by format. */
  datatype AxisValue =
    | Format1(name: Names, value: real, flags: bv16)
    | Format2(name: Names, nominalValue: real, rangeMinValue: Option<real>, rangeMaxValue: Option<real>, flags: bv16)
    | Format3(name: Names, value: real, linkedValue: Option<real>, flags: bv16)
  {
    /** The label's own user value, whatever the format. */
    function UserValue(): real {
      match this
      case Format1(_, v, _) => v
      case Format2(_, v, _, _, _) => v
      case Format3(_, v, _, _) => v
    }

    function Format(): int {
      match this
      case Format1(_, _, _) => 1
      case Format2(_, _, _, _, _) => 2
      case Format3(_, _, _, _) => 3
    }
  }

  /** `_axisLabelToStatLocation(label)`, given `label.getFormat()`. Any format
      other than 1, 2 or 3 is an error. */
  function AxisValueOf(lbl: AxisLabel, format: int): (r: Result<AxisValue>)
    ensures r.Ok? <==> 1 <= format <= 3
    ensures r.Err? ==> r.error == UnreachableFormat(format)
    ensures r.Ok? ==> r.value.Format() == format
    ensures r.Ok? ==> r.value.name == LocalizedName(lbl.name, lbl.labelNames)
    ensures r.Ok? ==> r.value.flags == LabelFlags(lbl.olderSibling, lbl.elidable)
    ensures r.Ok? ==> r.value.UserValue() == lbl.userValue
    ensures r.Ok? && r.value.Format2? ==> r.value.rangeMinValue == lbl.userMinimum && r.value.rangeMaxValue == lbl.userMaximum
    ensures r.Ok? && r.value.Format3? ==> r.value.linkedValue == lbl.linkedUserValue
  {
    var name := LocalizedName(lbl.name, lbl.labelNames);
    var flags := LabelFlags(lbl.olderSibling, lbl.elidable);
    if format == 1 then Ok(Format1(name, lbl.userValue, flags))
    else if format == 3 then Ok(Format3(name, lbl.userValue, lbl.linkedUserValue, flags))
    else if format == 2 then Ok(Format2(name, lbl.userValue, lbl.userMinimum, lbl.userMaximum, flags))
    else Err(UnreachableFormat(format))
  }

  /** A record keeps everything the label states for its format: reading the
      label back from the record gives the label's name, translations, value,
      bounds or linked value, and attributes. */
  lemma AxisValueRecoversLabel(lbl: AxisLabel, format: int)
    requires AxisValueOf(lbl, format).Ok?
    requires "en" !in lbl.labelNames
    ensures var rec := AxisValueOf(lbl, format).value;
      && rec.name["en"] == lbl.name
      && (forall lang :: lang in rec.name && lang != "en" ==> lang in lbl.labelNames && rec.name[lang] == lbl.labelNames[lang])
      && rec.UserValue() == lbl.userValue
      && (rec.flags & OlderSiblingFontAttribute != 0 <==> lbl.olderSibling)
      && (rec.flags & ElidableAxisValueName != 0 <==> lbl.elidable)
  {
  }

  /** Label `i` is the first whose format is not 1, 2 or 3. */
  predicate FirstBadFormat(labels: seq<AxisLabel>, format: AxisLabel -> int, i: int) {
    && 0 <= i < |labels|
    && !(1 <= format(labels[i]) <= 3)
    && forall j :: 0 <= j < i ==> 1 <= format(labels[j]) <= 3
  }

  /** The labels of one axis, in order; the first label of an unknown format
      stops the list. */
  function AxisValues(labels: seq<AxisLabel>, format: AxisLabel -> int): (r: Result<seq<AxisValue>>)
    ensures r.Ok? <==> forall i :: 0 <= i < |labels| ==> 1 <= format(labels[i]) <= 3
    ensures r.Ok? ==> |r.value| == |labels|
    ensures r.Ok? ==> forall i :: 0 <= i < |labels| ==> AxisValueOf(labels[i], format(labels[i])) == Ok(r.value[i])
    ensures r.Err? ==> exists i :: FirstBadFormat(labels, format, i) && r.error == UnreachableFormat(format(labels[i]))
  {
    MapAll(labels, (lbl: AxisLabel) => AxisValueOf(lbl, format(lbl)))
  }

  /** The `ordering` of each axis: all absent means declaration order, all
      present means as declared, and a mix is an error. */
  function StatOrderings(axes: seq<Axis>): (r: Result<seq<int>>)
    ensures r.Ok? <==> (forall i :: 0 <= i < |axes| ==> axes[i].axisOrdering.None?)
                       || (forall i :: 0 <= i < |axes| ==> axes[i].axisOrdering.Some?)
    ensures r.Err? ==> r.error == InconsistentOrdering
    ensures r.Ok? ==> |r.value| == |axes|
    ensures r.Ok? ==> forall i :: 0 <= i < |axes| ==>
      r.value[i] == (if axes[i].axisOrdering.Some? then axes[i].axisOrdering.value else i)
  {
    if forall i :: 0 <= i < |axes| ==> axes[i].axisOrdering.None? then
      Ok(seq(|axes|, i => i))
    else if exists i :: 0 <= i < |axes| && axes[i].axisOrdering.None? then
      Err(InconsistentOrdering)
    else
      Ok(seq(|axes|, i requires 0 <= i < |axes| => axes[i].axisOrdering.value))
  }

  datatype StatAxis = StatAxis(tag: string, name: Names, ordering: int, locations: seq<AxisValue>)

  /** Every label of every axis has a format the record writer knows. */
  predicate FormatsKnown(axes: seq<Axis>, format: AxisLabel -> int) {
    forall i, j :: 0 <= i < |axes| && 0 <= j < |axes[i].axisLabels| ==> 1 <= format(axes[i].axisLabels[j]) <= 3
  }

  /** The record of one axis. */
  predicate RecordOf(a: Axis, ordering: int, format: AxisLabel -> int, rec: StatAxis) {
    && rec.tag == a.tag
    && rec.name == LocalizedName(a.name, a.labelNames)
    && rec.ordering == ordering
    && AxisValues(a.axisLabels, format) == Ok(rec.locations)
  }

  /** The axis record of each axis, its labels' records in order. */
  function StatAxesFrom(axes: seq<Axis>, orderings: seq<int>, format: AxisLabel -> int): (r: Result<seq<StatAxis>>)
    requires |orderings| == |axes|
    ensures r.Ok? <==> FormatsKnown(axes, format)
    ensures r.Ok? ==> |r.value| == |axes|
    ensures r.Ok? ==> forall i :: 0 <= i < |axes| ==> RecordOf(axes[i], orderings[i], format, r.value[i])
  {
    if |axes| == 0 then Ok([])
    else
      FormatsKnownCons(axes, format);
      var locations :- AxisValues(axes[0].axisLabels, format);
      var rest :- StatAxesFrom(axes[1..], orderings[1..], format);
      var r := [StatAxis(axes[0].tag, LocalizedName(axes[0].name, axes[0].labelNames), orderings[0], locations)] + rest;
      assert forall i :: 0 <= i < |axes| ==> RecordOf(axes[i], orderings[i], format, r[i]) by {
        forall i | 0 <= i < |axes| ensures RecordOf(axes[i], orderings[i], format, r[i]) {
          if i > 0 {
            assert axes[1..][i - 1] == axes[i] && orderings[1..][i - 1] == orderings[i] && rest[i - 1] == r[i];
          }
        }
      }
      Ok(r)
  }

  lemma FormatsKnownCons(axes: seq<Axis>, format: AxisLabel -> int)
    requires |axes| > 0
    ensures FormatsKnown(axes, format) <==>
      (forall j :: 0 <= j < |axes[0].axisLabels| ==> 1 <= format(axes[0].axisLabels[j]) <= 3)
      && FormatsKnown(axes[1..], format)
  {
    if FormatsKnown(axes[1..], format) {
      forall i, j | 1 <= i < |axes| && 0 <= j < |axes[i].axisLabels| ensures 1 <= format(axes[i].axisLabels[j]) <= 3 {
        assert axes[1..][i - 1] == axes[i];
      }
    }
  }

  /** `getStatAxes(doc)`. The ordering check comes before any label is read. */
  function GetStatAxes(axes: seq<Axis>, format: AxisLabel -> int): (r: Result<seq<StatAxis>>)
    ensures StatOrderings(axes).Err? ==> r == Err(InconsistentOrdering)
    ensures StatOrderings(axes).Ok? ==> (r.Ok? <==> FormatsKnown(axes, format))
    ensures r.Ok? ==> |r.value| == |axes|
    ensures r.Ok? ==> forall i :: 0 <= i < |axes| ==> RecordOf(axes[i], StatOrderings(axes).value[i], format, r.value[i])
    ensures r.Ok? ==> forall i :: 0 <= i < |axes| ==>
      && r.value[i].tag == axes[i].tag
      && r.value[i].ordering == StatOrderings(axes).value[i]
      && |r.value[i].locations| == |axes[i].axisLabels|
  {
    var orderings :- StatOrderings(axes);
    StatAxesFrom(axes, orderings, format)
  }

  // ---------------------------------------------------------------------
  // Location records

  /** `axesByName[name]`: of several axes with one name, the last one. */
  function AxisNamed(axes: seq<Axis>, name: string): (r: Option<Axis>)
    ensures r.None? <==> name !in StatNaming.AxisNames(axes)
    ensures r.Some? ==> exists i :: 0 <= i < |axes| && axes[i] == r.value && r.value.name == name
                          && forall j :: i < j < |axes| ==> axes[j].name != name
  {
    if |axes| == 0 then None
    else
      var init := axes[..|axes| - 1];
      assert StatNaming.AxisNames(axes) == StatNaming.AxisNames(init) + {axes[|axes| - 1].name} by {
        MemberDropLast(axes);
      }
      if axes[|axes| - 1].name == name then Some(axes[|axes| - 1])
      else
        var r := AxisNamed(init, name);
        assert r.Some? ==> exists i ::
          && 0 <= i < |axes| && axes[i] == r.value && r.value.name == name
          && forall j :: i < j < |axes| ==> axes[j].name != name by {
          if r.Some? {
            var i :| 0 <= i < |init| && init[i] == r.value && r.value.name == name
                     && forall j :: i < j < |init| ==> init[j].name != name;
            assert axes[i] == init[i];
            forall j | i < j < |axes| ensures axes[j].name != name {
              if j < |init| {
                assert axes[j] == init[j];
              }
            }
          }
        }
        r
  }

  /** Every entry of the location names an axis. */
  predicate AllNamed(axes: seq<Axis>, loc: seq<(string, real)>) {
    forall i :: 0 <= i < |loc| ==> loc[i].0 in StatNaming.AxisNames(axes)
  }

  /** Entry `i` is the first whose name is no axis's. */
  predicate FirstUnnamed(axes: seq<Axis>, loc: seq<(string, real)>, i: int) {
    && 0 <= i < |loc|
    && loc[i].0 !in StatNaming.AxisNames(axes)
    && forall j :: 0 <= j < i ==> loc[j].0 in StatNaming.AxisNames(axes)
  }

  /** The tag of the axis `axesByName[name]`; only asked for names that have an
      axis, so the empty string for the others is never observed. */
  function TagOf(axes: seq<Axis>, name: string): string {
    match AxisNamed(axes, name)
    case Some(axis) => axis.tag
    case None => ""
  }

  /** The tag of a location entry's axis name, as a function value. */
  function TagFn(axes: seq<Axis>): ((string, real)) -> string {
    (e: (string, real)) => TagOf(axes, e.0)
  }

  /** The location re-keyed from axis names to axis tags; a name with no
      axis fails at the first such entry. Entries whose axes share a tag
      collapse onto that tag, the later value winning. */
  function TagLocation(axes: seq<Axis>, loc: seq<(string, real)>): (r: Result<Dict<real>>)
    ensures r.Ok? <==> AllNamed(axes, loc)
    ensures r.Err? ==> exists i :: FirstUnnamed(axes, loc, i) && r.error == MissingKey(loc[i].0)
  {
    if |loc| == 0 then Ok([])
    else
      var n := |loc| - 1;
      var init := loc[..n];
      NamedPrefix(axes, loc);
      var prev :- TagLocation(axes, init);
      var axis :- if AxisNamed(axes, loc[n].0).Some? then Ok(AxisNamed(axes, loc[n].0).value)
                  else Err(MissingKey(loc[n].0));
      Ok(Put(prev, axis.tag, loc[n].1))
  }

  /** How naming the entries of a location relates to naming those of its prefix. */
  lemma NamedPrefix(axes: seq<Axis>, loc: seq<(string, real)>)
    requires |loc| > 0
    ensures var n := |loc| - 1;
      && (AllNamed(axes, loc) <==> AllNamed(axes, loc[..n]) && loc[n].0 in StatNaming.AxisNames(axes))
      && (forall i :: FirstUnnamed(axes, loc[..n], i) ==> FirstUnnamed(axes, loc, i))
      && (AllNamed(axes, loc[..n]) && loc[n].0 !in StatNaming.AxisNames(axes) ==> FirstUnnamed(axes, loc, n))
  {
    var n := |loc| - 1;
    assert forall i :: 0 <= i < n ==> loc[..n][i] == loc[i];
  }

  /** The re-keyed location has exactly the tags of the named axes. */
  lemma {:induction false} TagLocationKeys(axes: seq<Axis>, loc: seq<(string, real)>)
    requires AllNamed(axes, loc)
    ensures TagLocation(axes, loc).Ok?
    ensures Keys(TagLocation(axes, loc).value) == Image(loc, TagFn(axes))
  {
    if |loc| > 0 {
      var n := |loc| - 1;
      var init := loc[..n];
      assert AllNamed(axes, init) by {
        assert forall i :: 0 <= i < n ==> init[i] == loc[i];
      }
      TagLocationKeys(axes, init);
      ImageDropLast(loc, TagFn(axes));
    }
  }

  /** Entry `i`'s axis tag is not reused by a later entry. */
  predicate LastForTag(axes: seq<Axis>, loc: seq<(string, real)>, i: int)
    requires 0 <= i < |loc| && AllNamed(axes, loc)
  {
    forall j :: i < j < |loc| ==> TagOf(axes, loc[j].0) != TagOf(axes, loc[i].0)
  }

  /** Each axis value lands under its axis's tag unless a later entry reuses the tag. */
  lemma {:induction false} TagLocationValues(axes: seq<Axis>, loc: seq<(string, real)>, i: int)
    requires AllNamed(axes, loc)
    requires 0 <= i < |loc| && LastForTag(axes, loc, i)
    ensures TagLocation(axes, loc).Ok?
    ensures Get(TagLocation(axes, loc).value, TagOf(axes, loc[i].0)) == Some(loc[i].1)
  {
    var n := |loc| - 1;
    var init := loc[..n];
    assert AllNamed(axes, init) by {
      assert forall k :: 0 <= k < n ==> init[k] == loc[k];
    }
    if i < n {
      assert init[i] == loc[i];
      assert LastForTag(axes, init, i) by {
        assert forall k :: 0 <= k < n ==> init[k] == loc[k];
      }
      TagLocationValues(axes, init, i);
      assert TagOf(axes, loc[n].0) != TagOf(axes, loc[i].0);
    }
  }

  datatype StatLocation = StatLocation(name: Names, location: Dict<real>, flags: bv16)

  /** The record of one location label. */
  function StatLocationOf(axes: seq<Axis>, h: Helpers, lbl: LocationLabel): (r: Result<StatLocation>)
    ensures r.Ok? <==> TagLocation(axes, h.labelUserLocation(lbl)).Ok?
    ensures r.Ok? ==> r.value.name == LocalizedName(lbl.name, lbl.labelNames)
    ensures r.Ok? ==> r.value.flags == LabelFlags(lbl.olderSibling, lbl.elidable)
    ensures r.Ok? ==> r.value.location == TagLocation(axes, h.labelUserLocation(lbl)).value
  {
    var location :- TagLocation(axes, h.labelUserLocation(lbl));
    Ok(StatLocation(LocalizedName(lbl.name, lbl.labelNames), location, LabelFlags(lbl.olderSibling, lbl.elidable)))
  }

  /** `getStatLocations(doc)`: one record per location label, in order. */
  function GetStatLocations(axes: seq<Axis>, h: Helpers, labels: seq<LocationLabel>): (r: Result<seq<StatLocation>>)
    ensures r.Ok? <==> forall i :: 0 <= i < |labels| ==> StatLocationOf(axes, h, labels[i]).Ok?
    ensures r.Ok? ==> |r.value| == |labels|
    ensures r.Ok? ==> forall i :: 0 <= i < |labels| ==> StatLocationOf(axes, h, labels[i]) == Ok(r.value[i])
  {
    if |labels| == 0 then Ok([])
    else
      var head :- StatLocationOf(axes, h, labels[0]);
      var rest :- GetStatLocations(axes, h, labels[1..]);
      assert forall i :: 1 <= i < |labels| ==> labels[1..][i - 1] == labels[i];
      Ok([head] + rest)
  }
}
