/** Name derivation from the document's STAT data: family, style and
    PostScript names of a user location, and its RIBBI (regular, italic, bold,
    bold italic) style-map classification. */
module StatNaming {

  import opened Basics
  import opened PyDict
  import opened Text
  import opened DesignSpace
  import opened Seqs

  datatype RibbiStyle = Regular | Italic | Bold | BoldItalic {
    function Name(): string {
      match this
      case Regular => "regular"
      case Italic => "italic"
      case Bold => "bold"
      case BoldItalic => "bold italic"
    }
  }

  /** `BOLD_ITALIC_TO_RIBBI_STYLE[bold, italic]`. */
  function RibbiStyleFor(bold: bool, italic: bool): (s: RibbiStyle)
    ensures (s == Bold || s == BoldItalic) <==> bold
    ensures (s == Italic || s == BoldItalic) <==> italic
  {
    if bold then (if italic then BoldItalic else Bold)
    else (if italic then Italic else Regular)
  }

  datatype StatNames = StatNames(
    familyNames: Names,
    styleNames: Names,
    postScriptFontName: Option<string>,
    styleMapFamilyNames: Names,
    styleMapStyleName: RibbiStyle)

  // ---------------------------------------------------------------------
  // Family names

  /** The default source's family name, overlaid by its localised names; empty
      when there is no default source or it has no family name. */
  function FamilyNames(defaultSource: Option<Source>): (r: Names)
    ensures defaultSource.None? || defaultSource.value.familyName.None? ==> r == map[]
    ensures defaultSource.Some? && defaultSource.value.familyName.Some? ==>
      var src := defaultSource.value;
      && r.Keys == {"en"} + src.localisedFamilyName.Keys
      && (forall lang :: lang in src.localisedFamilyName ==> r[lang] == src.localisedFamilyName[lang])
      && ("en" !in src.localisedFamilyName ==> r["en"] == src.familyName.value)
  {
    match defaultSource
    case None => map[]
    case Some(src) =>
      match src.familyName
      case None => map[]
      case Some(family) => LocalizedName(family, src.localisedFamilyName)
  }

  // ---------------------------------------------------------------------
  // Axis order for style names

  function OrderKey(a: Axis): int {
    a.axisOrdering.GetOr(0)
  }

  predicate SortedByOrdering(s: seq<Axis>) {
    forall i, j :: 0 <= i < j < |s| ==> OrderKey(s[i]) <= OrderKey(s[j])
  }

  /** The axes whose ordering key is `k`, in sequence order. */
  function WithKey(s: seq<Axis>, k: int): seq<Axis> {
    if |s| == 0 then []
    else WithKey(s[..|s| - 1], k) + (if OrderKey(s[|s| - 1]) == k then [s[|s| - 1]] else [])
  }

  lemma WithKeyAppend(s: seq<Axis>, x: Axis, k: int)
    ensures WithKey(s + [x], k) == WithKey(s, k) + (if OrderKey(x) == k then [x] else [])
  {
    assert (s + [x])[..|s|] == s;
  }

  /** No two axes share a name. */
  predicate DistinctNames(s: seq<Axis>) {
    forall i, j :: 0 <= i < j < |s| ==> s[i].name != s[j].name
  }

  /** Inserts `x` after every element whose key is at most its own. */
  function Insert(t: seq<Axis>, x: Axis): (r: seq<Axis>)
    requires SortedByOrdering(t)
    ensures |r| == |t| + 1
    ensures forall y :: y in r <==> y in t || y == x
    ensures SortedByOrdering(r)
  {
    if |t| == 0 then [x]
    else
      var last := t[|t| - 1];
      var init := t[..|t| - 1];
      MemberDropLast(t);
      if OrderKey(last) <= OrderKey(x) then t + [x]
      else
        var r' := Insert(init, x);
        assert forall i :: 0 <= i < |r'| ==> OrderKey(r'[i]) <= OrderKey(last) by {
          forall i | 0 <= i < |r'| ensures OrderKey(r'[i]) <= OrderKey(last) {
            assert r'[i] in r';
          }
        }
        r' + [last]
  }

  lemma {:induction false} InsertPermutes(t: seq<Axis>, x: Axis)
    requires SortedByOrdering(t)
    ensures multiset(Insert(t, x)) == multiset(t) + multiset{x}
  {
    if |t| > 0 {
      var init := t[..|t| - 1];
      MultisetDropLast(t);
      if OrderKey(t[|t| - 1]) > OrderKey(x) {
        InsertPermutes(init, x);
        MultisetSnoc(Insert(init, x), t[|t| - 1]);
      } else {
        MultisetSnoc(t, x);
      }
    }
  }

  /** Among the axes of any one key, `x` lands after those already there. */
  lemma {:induction false} InsertStable(t: seq<Axis>, x: Axis, k: int)
    requires SortedByOrdering(t)
    ensures WithKey(Insert(t, x), k) == WithKey(t, k) + (if OrderKey(x) == k then [x] else [])
  {
    if |t| == 0 {
      WithKeyAppend([], x, k);
    } else {
      var last := t[|t| - 1];
      var init := t[..|t| - 1];
      if OrderKey(last) <= OrderKey(x) {
        WithKeyAppend(t, x, k);
      } else {
        var r' := Insert(init, x);
        assert Insert(t, x) == r' + [last];
        InsertStable(init, x, k);
        WithKeyAppend(r', last, k);
        assert WithKey(t, k) == WithKey(init, k) + (if OrderKey(last) == k then [last] else []);
        if OrderKey(x) == k {
          assert WithKey(Insert(t, x), k) == WithKey(init, k) + [x];
        } else if OrderKey(last) == k {
          assert WithKey(Insert(t, x), k) == WithKey(init, k) + [last];
        }
      }
    }
  }

  lemma {:induction false} InsertDistinct(t: seq<Axis>, x: Axis)
    requires SortedByOrdering(t) && DistinctNames(t)
    requires forall y :: y in t ==> y.name != x.name
    ensures DistinctNames(Insert(t, x))
  {
    if |t| > 0 {
      var last := t[|t| - 1];
      var init := t[..|t| - 1];
      if OrderKey(last) > OrderKey(x) {
        InsertDistinct(init, x);
        var r' := Insert(init, x);
        forall i | 0 <= i < |r'| ensures r'[i].name != last.name {
          assert r'[i] in r';
          if r'[i] != x {
            var p :| 0 <= p < |init| && init[p] == r'[i];
            assert t[p] == init[p];
          }
        }
      }
    }
  }

  /** Python's stable `sorted(axes, key=lambda a: a.axisOrdering)`. */
  function SortByOrdering(s: seq<Axis>): (r: seq<Axis>)
    ensures |r| == |s|
    ensures forall y :: y in r <==> y in s
    ensures SortedByOrdering(r)
  {
    if |s| == 0 then []
    else
      var init := s[..|s| - 1];
      MemberDropLast(s);
      Insert(SortByOrdering(init), s[|s| - 1])
  }

  lemma {:induction false} SortPermutes(s: seq<Axis>)
    ensures multiset(SortByOrdering(s)) == multiset(s)
  {
    if |s| > 0 {
      var init := s[..|s| - 1];
      MultisetDropLast(s);
      SortPermutes(init);
      InsertPermutes(SortByOrdering(init), s[|s| - 1]);
    }
  }

  /** The sort is stable: the axes of each key keep their relative order. */
  lemma {:induction false} SortStable(s: seq<Axis>, k: int)
    ensures WithKey(SortByOrdering(s), k) == WithKey(s, k)
  {
    if |s| > 0 {
      var init := s[..|s| - 1];
      SortStable(init, k);
      InsertStable(SortByOrdering(init), s[|s| - 1], k);
    }
  }

  lemma {:induction false} SortDistinct(s: seq<Axis>)
    requires DistinctNames(s)
    ensures DistinctNames(SortByOrdering(s))
  {
    if |s| > 0 {
      var init := s[..|s| - 1];
      var last := s[|s| - 1];
      SortDistinct(init);
      forall y | y in SortByOrdering(init) ensures y.name != last.name {
        var p :| 0 <= p < |init| && init[p] == y;
        assert s[p] == y;
      }
      InsertDistinct(SortByOrdering(init), last);
    }
  }

  /** The axes that declare an ordering, in declaration order. */
  function Ordered(axes: seq<Axis>): (r: seq<Axis>)
    ensures forall a :: a in r <==> a in axes && a.axisOrdering.Some?
  {
    FilterMap(axes, (a: Axis) => if a.axisOrdering.Some? then Some(a) else None)
  }

  /** The axes that declare no ordering, in declaration order. */
  function Unordered(axes: seq<Axis>): (r: seq<Axis>)
    ensures forall a :: a in r <==> a in axes && a.axisOrdering.None?
  {
    FilterMap(axes, (a: Axis) => if a.axisOrdering.None? then Some(a) else None)
  }

  /** The last axis joins exactly one of the two parts. */
  lemma OrderedUnorderedSnoc(axes: seq<Axis>)
    requires |axes| > 0
    ensures var last := axes[|axes| - 1];
      Ordered(axes) == Ordered(axes[..|axes| - 1]) + (if last.axisOrdering.Some? then [last] else [])
    ensures var last := axes[|axes| - 1];
      Unordered(axes) == Unordered(axes[..|axes| - 1]) + (if last.axisOrdering.None? then [last] else [])
  {
  }

  lemma {:induction false} OrderedUnorderedSplit(axes: seq<Axis>)
    ensures multiset(Ordered(axes)) + multiset(Unordered(axes)) == multiset(axes)
  {
    if |axes| > 0 {
      var init := axes[..|axes| - 1];
      var last := axes[|axes| - 1];
      OrderedUnorderedSplit(init);
      var o, u := Ordered(init), Unordered(init);
      MultisetDropLast(axes);
      if last.axisOrdering.Some? {
        assert Ordered(axes) == o + [last];
        MultisetSnoc(o, last);
        AddToOnePart(multiset(o), multiset(u), multiset(init), last);
      } else {
        assert Unordered(axes) == u + [last];
        MultisetSnoc(u, last);
        AddToOnePart(multiset(u), multiset(o), multiset(init), last);
      }
    }
  }

  lemma {:induction false} OrderedUnorderedLength(axes: seq<Axis>)
    ensures |Ordered(axes)| + |Unordered(axes)| == |axes|
  {
    if |axes| > 0 {
      OrderedUnorderedLength(axes[..|axes| - 1]);
    }
  }

  /** Keeping a subsequence keeps the names distinct. */
  lemma {:induction false} SplitDistinct(axes: seq<Axis>)
    requires DistinctNames(axes)
    ensures DistinctNames(Ordered(axes)) && DistinctNames(Unordered(axes))
  {
    if |axes| > 0 {
      var init := axes[..|axes| - 1];
      var last := axes[|axes| - 1];
      assert DistinctNames(init) by {
        assert forall i :: 0 <= i < |init| ==> init[i] == axes[i];
      }
      SplitDistinct(init);
      forall y | y in init ensures y.name != last.name {
        var p :| 0 <= p < |init| && init[p] == y;
        assert axes[p] == y;
      }
      OrderedUnorderedSnoc(axes);
      if last.axisOrdering.Some? {
        DistinctSnoc(Ordered(init), last);
      } else {
        DistinctSnoc(Unordered(init), last);
      }
    }
  }

  /** Appending an axis with a fresh name keeps the names distinct. */
  lemma DistinctSnoc(s: seq<Axis>, x: Axis)
    requires DistinctNames(s)
    requires forall y :: y in s ==> y.name != x.name
    ensures DistinctNames(s + [x])
  {
    var t := s + [x];
    forall i, j | 0 <= i < j < |t| ensures t[i].name != t[j].name {
      if j == |s| {
        assert t[i] in s;
      } else {
        assert t[i] == s[i] && t[j] == s[j];
      }
    }
  }

  /** The axes in `_getSortedAxisLabels` order: those with an ordering,
      ascending and stable, then the others as declared. */
  function SortedAxes(axes: seq<Axis>): (r: seq<Axis>)
    ensures |r| == |axes|
    ensures forall a :: a in r <==> a in axes
    ensures |Ordered(axes)| <= |r|
    ensures forall i :: 0 <= i < |Ordered(axes)| ==> r[i].axisOrdering.Some?
    ensures SortedByOrdering(r[..|Ordered(axes)|])
    ensures r[|Ordered(axes)|..] == Unordered(axes)
  {
    var sorted := SortByOrdering(Ordered(axes));
    OrderedUnorderedLength(axes);
    assert forall i :: 0 <= i < |sorted| ==> sorted[i].axisOrdering.Some? by {
      forall i | 0 <= i < |sorted| ensures sorted[i].axisOrdering.Some? {
        assert sorted[i] in sorted;
      }
    }
    var r := sorted + Unordered(axes);
    assert r[..|sorted|] == sorted;
    r
  }

  /** The sorted axes are a permutation of the axes, and the ordered ones keep
      their declaration order among equal orderings. */
  lemma SortedAxesPermutesStably(axes: seq<Axis>, k: int)
    ensures multiset(SortedAxes(axes)) == multiset(axes)
    ensures WithKey(SortedAxes(axes)[..|Ordered(axes)|], k) == WithKey(Ordered(axes), k)
  {
    var sorted := SortByOrdering(Ordered(axes));
    OrderedUnorderedSplit(axes);
    SortPermutes(Ordered(axes));
    SortStable(Ordered(axes), k);
    assert SortedAxes(axes) == sorted + Unordered(axes);
    assert SortedAxes(axes)[..|Ordered(axes)|] == sorted;
  }

  lemma SortedAxesDistinct(axes: seq<Axis>)
    requires DistinctNames(axes)
    ensures DistinctNames(SortedAxes(axes))
  {
    var ordered, unordered := Ordered(axes), Unordered(axes);
    var sorted := SortByOrdering(ordered);
    SplitDistinct(axes);
    SortDistinct(ordered);
    assert SortedAxes(axes) == sorted + unordered;
    forall i, j | 0 <= i < |sorted| && 0 <= j < |unordered| ensures sorted[i].name != unordered[j].name {
      assert sorted[i] in sorted && unordered[j] in unordered;
      var p :| 0 <= p < |axes| && axes[p] == sorted[i];
      var q :| 0 <= q < |axes| && axes[q] == unordered[j];
      assert p != q;
    }
  }

  function AxisNames(axes: seq<Axis>): set<string> {
    set a | a in axes :: a.name
  }

  /** Assigns `labels[axis.name] = axis.axisLabels` for each axis in turn. */
  function CollectLabels(axes: seq<Axis>): (d: Dict<seq<AxisLabel>>)
    ensures Keys(d) == AxisNames(axes)
  {
    if |axes| == 0 then []
    else
      var init := axes[..|axes| - 1];
      var last := axes[|axes| - 1];
      assert AxisNames(axes) == AxisNames(init) + {last.name} by {
        MemberDropLast(axes);
      }
      Put(CollectLabels(init), last.name, last.axisLabels)
  }

  /** When the axis names are distinct, each axis gives one entry, in order. */
  lemma {:induction false} CollectLabelsDistinct(axes: seq<Axis>)
    requires DistinctNames(axes)
    ensures |CollectLabels(axes)| == |axes|
    ensures forall i :: 0 <= i < |axes| ==> CollectLabels(axes)[i] == (axes[i].name, axes[i].axisLabels)
  {
    if |axes| > 0 {
      var init := axes[..|axes| - 1];
      var last := axes[|axes| - 1];
      CollectLabelsDistinct(init);
      var prev := CollectLabels(init);
      assert last.name !in Keys(prev) by {
        forall y | y in init ensures y.name != last.name {
          var p :| 0 <= p < |init| && init[p] == y;
          assert axes[p] == y;
        }
      }
      var d := CollectLabels(axes);
      assert d == prev + [(last.name, last.axisLabels)];
      forall i | 0 <= i < |axes| ensures d[i] == (axes[i].name, axes[i].axisLabels) {
        if i < |init| {
          assert d[i] == prev[i] && axes[i] == init[i];
        }
      }
    }
  }

  /** The index of the first axis named `name`; `|axes|` when there is none. */
  function FirstIndex(axes: seq<Axis>, name: string): (i: nat)
    ensures i <= |axes|
    ensures i < |axes| ==> axes[i].name == name
    ensures forall j :: 0 <= j < i ==> axes[j].name != name
  {
    if |axes| == 0 then 0
    else if axes[0].name == name then 0
    else
      var i := 1 + FirstIndex(axes[1..], name);
      assert forall j :: 1 <= j < i ==> axes[j] == axes[1..][j - 1];
      i
  }

  /** A name of the prefix has its first index in the prefix. */
  lemma FirstIndexPrefix(axes: seq<Axis>, name: string)
    requires |axes| > 0 && name in AxisNames(axes[..|axes| - 1])
    ensures FirstIndex(axes, name) == FirstIndex(axes[..|axes| - 1], name) < |axes| - 1
  {
    var init := axes[..|axes| - 1];
    var a :| a in init && a.name == name;
    var k :| 0 <= k < |init| && init[k] == a;
    var i := FirstIndex(init, name);
    assert i <= k;
    assert axes[i] == init[i];
    forall j | 0 <= j < i ensures axes[j].name != name {
      assert axes[j] == init[j];
    }
    var i' := FirstIndex(axes, name);
    assert i' <= i by {
      assert axes[i].name == name;
    }
  }

  /** Axis `i` is the last axis named `name`. */
  predicate LastNamed(axes: seq<Axis>, name: string, i: int) {
    0 <= i < |axes| && axes[i].name == name && forall j :: i < j < |axes| ==> axes[j].name != name
  }

  lemma LastNamedSnoc(axes: seq<Axis>, name: string, i: int)
    requires |axes| > 0 && axes[|axes| - 1].name != name
    requires LastNamed(axes[..|axes| - 1], name, i)
    ensures LastNamed(axes, name, i) && axes[i] == axes[..|axes| - 1][i]
  {
    var init := axes[..|axes| - 1];
    assert forall j :: 0 <= j < |init| ==> init[j] == axes[j];
  }

  /** Axes sharing a name collapse into one entry, holding the labels of
      the last of them (`i`). */
  lemma {:induction false} CollectLabelsLastWins(axes: seq<Axis>, k: string) returns (i: int)
    requires k in Keys(CollectLabels(axes))
    ensures LastNamed(axes, k, i) && Get(CollectLabels(axes), k) == Some(axes[i].axisLabels)
  {
    var n := |axes| - 1;
    var init := axes[..n];
    var prev := CollectLabels(init);
    var d := CollectLabels(axes);
    assert d == Put(prev, axes[n].name, axes[n].axisLabels);
    if k == axes[n].name {
      i := n;
    } else {
      assert k in Keys(prev) && Get(d, k) == Get(prev, k);
      i := CollectLabelsLastWins(init, k);
      LastNamedSnoc(axes, k, i);
    }
  }

  /** The entry of a name sits where the first axis of that name put it: the
      entries are in the order of each name's first axis. */
  lemma {:induction false} CollectLabelsFirstPosition(axes: seq<Axis>, p: int, q: int)
    requires 0 <= p < q < |CollectLabels(axes)|
    ensures FirstIndex(axes, CollectLabels(axes)[p].0) < FirstIndex(axes, CollectLabels(axes)[q].0)
  {
    var n := |axes| - 1;
    var init := axes[..n];
    var prev := CollectLabels(init);
    var name := axes[n].name;
    assert CollectLabels(axes) == Put(prev, name, axes[n].axisLabels);
    PutKeyOrder(prev, name, axes[n].axisLabels, p, q);
    KeyAt(prev, p);
    FirstIndexPrefix(axes, prev[p].0);
    if q < |prev| {
      KeyAt(prev, q);
      FirstIndexPrefix(axes, prev[q].0);
      CollectLabelsFirstPosition(init, p, q);
    } else {
      FirstIndexOfNewName(axes);
    }
  }

  /** A name that only the last axis carries has that axis's index. */
  lemma FirstIndexOfNewName(axes: seq<Axis>)
    requires |axes| > 0 && axes[|axes| - 1].name !in AxisNames(axes[..|axes| - 1])
    ensures FirstIndex(axes, axes[|axes| - 1].name) == |axes| - 1
  {
    var n := |axes| - 1;
    var init := axes[..n];
    forall j | 0 <= j < n ensures axes[j].name != axes[n].name {
      assert axes[j] == init[j];
    }
  }

  /** `_getSortedAxisLabels(axes)`: axis name to its labels, in sorted-axes order. */
  function SortedAxisLabels(axes: seq<Axis>): (d: Dict<seq<AxisLabel>>)
    ensures Keys(d) == AxisNames(axes)
  {
    var sorted := SortedAxes(axes);
    SameMembersSameNames(sorted, axes);
    CollectLabels(sorted)
  }

  /** With duplicate names, a name's labels are those of the last axis of that
      name in sorted-axes order. */
  lemma SortedAxisLabelsLastWins(axes: seq<Axis>, k: string) returns (i: int)
    requires k in AxisNames(axes)
    ensures LastNamed(SortedAxes(axes), k, i) && Get(SortedAxisLabels(axes), k) == Some(SortedAxes(axes)[i].axisLabels)
  {
    i := CollectLabelsLastWins(SortedAxes(axes), k);
  }

  /** With duplicate names, a name keeps the place where its first axis in
      sorted-axes order put it. */
  lemma SortedAxisLabelsFirstPosition(axes: seq<Axis>, p: int, q: int)
    requires 0 <= p < q < |SortedAxisLabels(axes)|
    ensures FirstIndex(SortedAxes(axes), SortedAxisLabels(axes)[p].0) < FirstIndex(SortedAxes(axes), SortedAxisLabels(axes)[q].0)
  {
    CollectLabelsFirstPosition(SortedAxes(axes), p, q);
  }

  /** Two axis sequences with the same members have the same names. */
  lemma SameMembersSameNames(xs: seq<Axis>, ys: seq<Axis>)
    requires forall a :: a in xs <==> a in ys
    ensures AxisNames(xs) == AxisNames(ys)
  {
    forall n | n in AxisNames(xs) ensures n in AxisNames(ys) {
      var a :| a in xs && a.name == n;
    }
    forall n | n in AxisNames(ys) ensures n in AxisNames(xs) {
      var a :| a in ys && a.name == n;
    }
  }

  /** With distinct axis names, the sorted axis labels hold one entry per axis,
      in sorted-axes order. */
  lemma SortedAxisLabelsFollowSortedAxes(axes: seq<Axis>)
    requires DistinctNames(axes)
    ensures |SortedAxisLabels(axes)| == |axes|
    ensures forall i :: 0 <= i < |axes| ==>
      SortedAxisLabels(axes)[i] == (SortedAxes(axes)[i].name, SortedAxes(axes)[i].axisLabels)
  {
    SortedAxesDistinct(axes);
    CollectLabelsDistinct(SortedAxes(axes));
  }

  // ---------------------------------------------------------------------
  // Axis labels for a user location

  /** A label names value `v` when its anchor equals `v`, or when both range
      bounds are set and `v` lies between them. */
  predicate LabelMatches(l: AxisLabel, v: real) {
    || l.userValue == v
    || (l.userMinimum.Some? && l.userMaximum.Some? && l.userMinimum.value <= v <= l.userMaximum.value)
  }

  /** The first label in list order that names `v`. */
  function FirstMatch(labels: seq<AxisLabel>, v: real): (r: Option<AxisLabel>)
    ensures r.None? <==> forall i :: 0 <= i < |labels| ==> !LabelMatches(labels[i], v)
    ensures r.Some? ==> exists i :: 0 <= i < |labels| && labels[i] == r.value && LabelMatches(r.value, v)
                          && forall j :: 0 <= j < i ==> !LabelMatches(labels[j], v)
  {
    if |labels| == 0 then None
    else if LabelMatches(labels[0], v) then Some(labels[0])
    else
      var r := FirstMatch(labels[1..], v);
      assert r.Some? ==> exists i :: 0 <= i < |labels| && labels[i] == r.value && LabelMatches(r.value, v)
                          && forall j :: 0 <= j < i ==> !LabelMatches(labels[j], v) by {
        if r.Some? {
          var i :| 0 <= i < |labels[1..]| && labels[1..][i] == r.value && LabelMatches(r.value, v)
                   && forall j :: 0 <= j < i ==> !LabelMatches(labels[1..][j], v);
          assert labels[i + 1] == r.value;
          assert forall j :: 0 <= j < i + 1 ==> !LabelMatches(labels[j], v) by {
            forall j | 0 <= j < i + 1 ensures !LabelMatches(labels[j], v) {
              if j > 0 { assert labels[j] == labels[1..][j - 1]; }
            }
          }
        }
      }
      r
  }

  /** Every entry's axis is in the location and one of its labels names the value there. */
  predicate AllLabelled(entries: seq<(string, seq<AxisLabel>)>, loc: Location) {
    forall i :: 0 <= i < |entries| ==> entries[i].0 in loc && FirstMatch(entries[i].1, loc[entries[i].0]).Some?
  }

  /** `labels` holds, for each entry in turn, one of its labels naming the location's value. */
  predicate LabelsFit(entries: seq<(string, seq<AxisLabel>)>, loc: Location, labels: seq<AxisLabel>) {
    && |labels| == |entries|
    && forall i :: 0 <= i < |entries| ==>
         entries[i].0 in loc && labels[i] in entries[i].1 && LabelMatches(labels[i], loc[entries[i].0])
  }

  /** The first label of each entry, in entry order. The first entry without
      a label fails. */
  function LabelsForEntries(entries: seq<(string, seq<AxisLabel>)>, loc: Location): (r: Result<seq<AxisLabel>>)
    requires forall i :: 0 <= i < |entries| ==> entries[i].0 in loc
    ensures r.Ok? <==> AllLabelled(entries, loc)
    ensures r.Ok? ==> LabelsFit(entries, loc, r.value)
    ensures r.Ok? ==> forall i :: 0 <= i < |entries| ==> Some(r.value[i]) == FirstMatch(entries[i].1, loc[entries[i].0])
    ensures r.Err? ==> exists i :: 0 <= i < |entries| && r.error == MissingLabel(entries[i].0, loc[entries[i].0])
                         && FirstMatch(entries[i].1, loc[entries[i].0]).None?
                         && forall j :: 0 <= j < i ==> FirstMatch(entries[j].1, loc[entries[j].0]).Some?
  {
    if |entries| == 0 then Ok([])
    else
      var n := |entries| - 1;
      var init := entries[..n];
      var (name, labels) := entries[n];
      LabelledPrefix(entries, loc);
      var prefix :- LabelsForEntries(init, loc);
      match FirstMatch(labels, loc[name])
      case None => Err(MissingLabel(name, loc[name]))
      case Some(lbl) =>
        var r := prefix + [lbl];
        assert forall i :: 0 <= i < |entries| ==> Some(r[i]) == FirstMatch(entries[i].1, loc[entries[i].0]) by {
          forall i | 0 <= i < |entries| ensures Some(r[i]) == FirstMatch(entries[i].1, loc[entries[i].0]) {
            if i < n {
              assert entries[i] == init[i] && r[i] == prefix[i];
            }
          }
        }
        FirstMatchesFit(entries, loc, r);
        Ok(r)
  }

  /** First matches are matches. */
  lemma FirstMatchesFit(entries: seq<(string, seq<AxisLabel>)>, loc: Location, labels: seq<AxisLabel>)
    requires |labels| == |entries|
    requires forall i :: 0 <= i < |entries| ==> entries[i].0 in loc
    requires forall i :: 0 <= i < |entries| ==> Some(labels[i]) == FirstMatch(entries[i].1, loc[entries[i].0])
    ensures LabelsFit(entries, loc, labels)
  {
    forall i | 0 <= i < |entries| ensures labels[i] in entries[i].1 && LabelMatches(labels[i], loc[entries[i].0]) {
      var m := FirstMatch(entries[i].1, loc[entries[i].0]);
      assert m == Some(labels[i]);
    }
  }

  /** How labelling the entries relates to labelling their prefix. */
  lemma LabelledPrefix(entries: seq<(string, seq<AxisLabel>)>, loc: Location)
    requires |entries| > 0
    requires forall i :: 0 <= i < |entries| ==> entries[i].0 in loc
    ensures var n := |entries| - 1;
      && (forall i :: 0 <= i < n ==> entries[..n][i] == entries[i])
      && (AllLabelled(entries, loc) <==> AllLabelled(entries[..n], loc) && FirstMatch(entries[n].1, loc[entries[n].0]).Some?)
  {
  }

  /** `_getAxisLabelsForUserLocation(axes, userLocation)`. */
  function AxisLabelsForUserLocation(axes: seq<Axis>, loc: Location): (r: Result<seq<AxisLabel>>)
    ensures AxisNames(axes) != loc.Keys ==> r == Err(LocationMismatch)
    ensures AxisNames(axes) == loc.Keys ==> (r.Ok? <==> AllLabelled(SortedAxisLabels(axes), loc))
    ensures r.Ok? ==> LabelsFit(SortedAxisLabels(axes), loc, r.value)
    ensures r.Ok? ==> forall i :: 0 <= i < |r.value| ==>
      SortedAxisLabels(axes)[i].0 in loc
      && Some(r.value[i]) == FirstMatch(SortedAxisLabels(axes)[i].1, loc[SortedAxisLabels(axes)[i].0])
    ensures r.Err? && AxisNames(axes) == loc.Keys ==> r.error.MissingLabel?
  {
    var entries := SortedAxisLabels(axes);
    if Keys(entries) != loc.Keys then Err(LocationMismatch)
    else
      assert forall i :: 0 <= i < |entries| ==> entries[i].0 in loc by {
        forall i | 0 <= i < |entries| ensures entries[i].0 in loc {
          KeyAt(entries, i);
        }
      }
      LabelsForEntries(entries, loc)
  }

  // ---------------------------------------------------------------------
  // Style names

  /** Every language any of the labels is translated to. */
  function Languages(labels: seq<AxisLabel>): (langs: set<string>)
    ensures forall i, lang :: 0 <= i < |labels| && lang in labels[i].labelNames ==> lang in langs
    ensures forall lang :: lang in langs ==> exists i :: 0 <= i < |labels| && lang in labels[i].labelNames
  {
    if |labels| == 0 then {}
    else
      var rest := Languages(labels[1..]);
      assert forall lang :: lang in rest ==> exists i :: 0 <= i < |labels| && lang in labels[i].labelNames by {
        forall lang | lang in rest ensures exists i :: 0 <= i < |labels| && lang in labels[i].labelNames {
          var i :| 0 <= i < |labels[1..]| && lang in labels[1..][i].labelNames;
          assert labels[i + 1] == labels[1..][i];
        }
      }
      labels[0].labelNames.Keys + rest
  }

  /** A label's name in `lang`, or its default name; nothing for an elidable label. */
  function LabelNameFn(lang: string, defaultName: AxisLabel -> string): AxisLabel -> Option<string> {
    (l: AxisLabel) =>
      if l.elidable then None
      else Some(if lang in l.labelNames then l.labelNames[lang] else defaultName(l))
  }

  /** The names of the non-elidable labels in `lang`, falling back to each
      label's default name, in label order; `LocalisedNamesAppend` and
      `LocalisedNamesOne` give the items. */
  function LocalisedNames(labels: seq<AxisLabel>, lang: string, defaultName: AxisLabel -> string): (names: seq<string>)
    ensures |names| <= |labels|
    ensures (forall i :: 0 <= i < |labels| ==> labels[i].elidable) <==> names == []
  {
    var names := FilterMap(labels, LabelNameFn(lang, defaultName));
    assert (forall i :: 0 <= i < |labels| ==> labels[i].elidable) <==> names == [] by {
      if names != [] {
        assert names[0] in names;
      }
      if exists i :: 0 <= i < |labels| && !labels[i].elidable {
        var i :| 0 <= i < |labels| && !labels[i].elidable;
        assert LabelNameFn(lang, defaultName)(labels[i]).Some?;
        assert LabelNameFn(lang, defaultName)(labels[i]).value in names;
      }
    }
    names
  }

  /** The names of two consecutive runs of labels are those of the first run
      followed by those of the second. */
  lemma LocalisedNamesAppend(a: seq<AxisLabel>, b: seq<AxisLabel>, lang: string, defaultName: AxisLabel -> string)
    ensures LocalisedNames(a + b, lang, defaultName) == LocalisedNames(a, lang, defaultName) + LocalisedNames(b, lang, defaultName)
  {
    FilterMapAppend(a, b, LabelNameFn(lang, defaultName));
  }

  /** An elidable label gives no name; any other label its translation into
      `lang`, or its default name when it has none. */
  lemma LocalisedNamesOne(l: AxisLabel, lang: string, defaultName: AxisLabel -> string)
    ensures LocalisedNames([l], lang, defaultName)
         == if l.elidable then []
            else if lang in l.labelNames then [l.labelNames[lang]]
            else [defaultName(l)]
  {
    FilterMapOne(l, LabelNameFn(lang, defaultName));
  }

  /** The style name in one language: the space-joined non-elidable label
      names, or the document's elided fallback name when that join is empty. */
  function StyleNameIn(labels: seq<AxisLabel>, lang: string, defaultName: AxisLabel -> string,
                       elidedFallbackName: Option<string>): (name: string)
    ensures Join(LocalisedNames(labels, lang, defaultName), " ") != ""
      ==> name == Join(LocalisedNames(labels, lang, defaultName), " ")
    ensures Join(LocalisedNames(labels, lang, defaultName), " ") == "" ==> name == elidedFallbackName.GetOr("")
  {
    var joined := Join(LocalisedNames(labels, lang, defaultName), " ");
    if joined == "" && elidedFallbackName.Some? then elidedFallbackName.value else joined
  }

  /** When every label is elidable, the style name is the fallback, or "" without one. */
  lemma AllElidableStyleName(labels: seq<AxisLabel>, lang: string, defaultName: AxisLabel -> string,
                             elidedFallbackName: Option<string>)
    requires forall i :: 0 <= i < |labels| ==> labels[i].elidable
    ensures StyleNameIn(labels, lang, defaultName, elidedFallbackName) == elidedFallbackName.GetOr("")
  {
  }

  /** One non-elidable label names the style on its own. */
  lemma SingleNonElidableStyleName(lbl: AxisLabel, lang: string, defaultName: AxisLabel -> string,
                                   elidedFallbackName: Option<string>)
    requires !lbl.elidable && lang in lbl.labelNames && lbl.labelNames[lang] != ""
    ensures StyleNameIn([lbl], lang, defaultName, elidedFallbackName) == lbl.labelNames[lang]
  {
    LocalisedNamesOne(lbl, lang, defaultName);
  }

  /** The style names of a user location, per language. */
  function StyleNames(doc: Document, h: Helpers, loc: Location): (r: Result<Names>)
    ensures r.Ok? ==> "en" in r.value
    ensures h.labelForUserLocation(loc).Some? ==>
      var lbl := h.labelForUserLocation(loc).value;
      && r.Ok?
      && r.value.Keys == {"en"} + lbl.labelNames.Keys
      && (forall lang :: lang in lbl.labelNames ==> r.value[lang] == lbl.labelNames[lang])
      && ("en" !in lbl.labelNames ==> r.value["en"] == lbl.name)
    ensures h.labelForUserLocation(loc).None? ==>
      var labels := AxisLabelsForUserLocation(doc.axes, loc);
      && (r.Ok? <==> labels.Ok?)
      && (r.Err? ==> r.error == labels.error)
      && (r.Ok? ==>
           && r.value.Keys == {"en"} + Languages(labels.value)
           && forall lang :: lang in r.value ==>
                r.value[lang] == StyleNameIn(labels.value, lang, h.defaultName, doc.elidedFallbackName))
  {
    match h.labelForUserLocation(loc)
    case Some(lbl) =>
      var names := LocalizedName(lbl.name, lbl.labelNames);
      Ok(names)
    case None =>
      var labels :- AxisLabelsForUserLocation(doc.axes, loc);
      var languages := {"en"} + Languages(labels);
      var names := map lang | lang in languages :: StyleNameIn(labels, lang, h.defaultName, doc.elidedFallbackName);
      assert names.Keys == languages;
      Ok(names)
  }

  // ---------------------------------------------------------------------
  // PostScript and style-map names

  /** `f"{family}-{style}"` with every space removed, when both have English names. */
  function PostScriptName(familyNames: Names, styleNames: Names): (r: Option<string>)
    ensures r.Some? <==> "en" in familyNames && "en" in styleNames
    ensures r.Some? ==> ' ' !in r.value
    ensures r.Some? ==> forall c :: c != ' ' ==>
      multiset(r.value)[c] == multiset(familyNames["en"] + "-" + styleNames["en"])[c]
    ensures r.Some? ==> r.value == RemoveSpaces(familyNames["en"]) + "-" + RemoveSpaces(styleNames["en"])
  {
    if "en" in familyNames && "en" in styleNames then
      var family, style := familyNames["en"], styleNames["en"];
      RemoveSpacesAppend(family + "-", style);
      RemoveSpacesAppend(family, "-");
      RemoveSpacesOne('-');
      Some(RemoveSpaces(family + "-" + style))
    else None
  }

  /** Each family name followed by the matching style-map style name, stripped;
      a language without a style-map style name uses the English style name. */
  function StyleMapFamilyNames(familyNames: Names, styleNamesForStyleMap: Names, styleNames: Names): (r: Names)
    requires "en" in styleNames
    ensures r.Keys == familyNames.Keys
    ensures forall lang :: lang in r ==> TrimmedFrom(StyleMapJoin(familyNames, styleNamesForStyleMap, styleNames, lang), r[lang])
    ensures forall lang :: lang in r ==> NoEdgeSpace(r[lang])
  {
    map lang | lang in familyNames :: Strip(StyleMapJoin(familyNames, styleNamesForStyleMap, styleNames, lang))
  }

  function StyleMapJoin(familyNames: Names, styleNamesForStyleMap: Names, styleNames: Names, lang: string): string
    requires "en" in styleNames && lang in familyNames
  {
    familyNames[lang] + " " + (if lang in styleNamesForStyleMap then styleNamesForStyleMap[lang] else styleNames["en"])
  }

  // ---------------------------------------------------------------------
  // RIBBI style

  /** `{axis.tag: axis for axis in axes}.get(tag)`: the last axis with that tag. */
  function AxisByTag(axes: seq<Axis>, tag: string): (r: Option<Axis>)
    ensures r.None? <==> forall i :: 0 <= i < |axes| ==> axes[i].tag != tag
    ensures r.Some? ==> exists i :: 0 <= i < |axes| && axes[i] == r.value && r.value.tag == tag
                          && forall j :: i < j < |axes| ==> axes[j].tag != tag
  {
    if |axes| == 0 then None
    else if axes[|axes| - 1].tag == tag then Some(axes[|axes| - 1])
    else AxisByTag(axes[..|axes| - 1], tag)
  }

  /** `axes_by_tag.get("ital") or axes_by_tag.get("slnt")`. */
  function ItalicAxis(axes: seq<Axis>): (r: Option<Axis>)
    ensures r.None? <==> forall i :: 0 <= i < |axes| ==> axes[i].tag != "ital" && axes[i].tag != "slnt"
    ensures r.Some? ==> r.value in axes && (r.value.tag == "ital" || r.value.tag == "slnt")
    ensures r.Some? && r.value.tag == "slnt" ==> forall i :: 0 <= i < |axes| ==> axes[i].tag != "ital"
    ensures r.Some? ==> exists i :: 0 <= i < |axes| && axes[i] == r.value && forall j :: i < j < |axes| ==> axes[j].tag != r.value.tag
  {
    match AxisByTag(axes, "ital")
    case Some(a) => Some(a)
    case None => AxisByTag(axes, "slnt")
  }

  /** The first label whose linked value is `v`. */
  function FirstLinked(labels: seq<AxisLabel>, v: real): (r: Option<AxisLabel>)
    ensures r.None? <==> forall i :: 0 <= i < |labels| ==> labels[i].linkedUserValue != Some(v)
    ensures r.Some? ==> exists i :: 0 <= i < |labels| && labels[i] == r.value && r.value.linkedUserValue == Some(v)
                          && forall j :: 0 <= j < i ==> labels[j].linkedUserValue != Some(v)
  {
    if |labels| == 0 then None
    else if labels[0].linkedUserValue == Some(v) then Some(labels[0])
    else
      var r := FirstLinked(labels[1..], v);
      assert (forall i :: 0 <= i < |labels| ==> labels[i].linkedUserValue != Some(v))
        <==> forall i :: 0 <= i < |labels[1..]| ==> labels[1..][i].linkedUserValue != Some(v);
      assert r.Some? ==> exists i :: 0 <= i < |labels| && labels[i] == r.value && r.value.linkedUserValue == Some(v)
                          && forall j :: 0 <= j < i ==> labels[j].linkedUserValue != Some(v) by {
        if r.Some? {
          var i :| 0 <= i < |labels[1..]| && labels[1..][i] == r.value && r.value.linkedUserValue == Some(v)
                   && forall j :: 0 <= j < i ==> labels[1..][j].linkedUserValue != Some(v);
          assert labels[i + 1] == r.value;
          forall j | 0 <= j < i + 1 ensures labels[j].linkedUserValue != Some(v) {
            if j > 0 { assert labels[j] == labels[1..][j - 1]; }
          }
        }
      }
      r
  }

  /** The location is the linked ("bold" or "italic") side of a label pair on this axis. */
  predicate IsLinkedTarget(axis: Option<Axis>, loc: Location) {
    && axis.Some?
    && axis.value.name in loc
    && exists i :: 0 <= i < |axis.value.axisLabels| && axis.value.axisLabels[i].linkedUserValue == Some(loc[axis.value.name])
  }

  /** The anchor of the first label linked to the location's value on this axis. */
  function LinkedValue(axis: Axis, loc: Location): real
    requires IsLinkedTarget(Some(axis), loc)
  {
    FirstLinked(axis.axisLabels, loc[axis.name]).value.userValue
  }

  /** Reading the location's value fails (a KeyError) only when there is a label to compare it with. */
  predicate LooksUpMissingAxis(axis: Option<Axis>, loc: Location) {
    axis.Some? && |axis.value.axisLabels| > 0 && axis.value.name !in loc
  }

  /** One axis's scan in `_getRibbiStyle`: the anchor of the first label linked
      to the location's value, if any. */
  function RegularValue(axis: Axis, loc: Location): (r: Result<Option<real>>)
    ensures r.Err? <==> LooksUpMissingAxis(Some(axis), loc)
    ensures r.Ok? ==> (r.value.Some? <==> IsLinkedTarget(Some(axis), loc))
    ensures r.Ok? && r.value.Some? ==>
      exists i :: 0 <= i < |axis.axisLabels| && axis.axisLabels[i].linkedUserValue == Some(loc[axis.name])
                  && axis.axisLabels[i].userValue == r.value.value
    ensures r.Ok? && r.value.Some? ==> r.value.value == LinkedValue(axis, loc)
  {
    if |axis.axisLabels| == 0 then Ok(None)
    else if axis.name !in loc then Err(MissingKey(axis.name))
    else
      match FirstLinked(axis.axisLabels, loc[axis.name])
      case Some(l) => Ok(Some(l.userValue))
      case None => Ok(None)
  }

  /** `_getRibbiStyle(doc, userLocation)`: the RIBBI style of the location and
      the "regular" location it is linked from. */
  function RibbiOf(axes: seq<Axis>, loc: Location): (r: Result<(RibbiStyle, Location)>)
    ensures r.Err? <==> LooksUpMissingAxis(AxisByTag(axes, "wght"), loc) || LooksUpMissingAxis(ItalicAxis(axes), loc)
    ensures r.Ok? ==>
      var (style, regular) := r.value;
      && ((style == Bold || style == BoldItalic) <==> IsLinkedTarget(AxisByTag(axes, "wght"), loc))
      && ((style == Italic || style == BoldItalic) <==> IsLinkedTarget(ItalicAxis(axes), loc))
      && regular.Keys == loc.Keys
      && (forall name :: name in loc
            && !(IsLinkedTarget(AxisByTag(axes, "wght"), loc) && name == AxisByTag(axes, "wght").value.name)
            && !(IsLinkedTarget(ItalicAxis(axes), loc) && name == ItalicAxis(axes).value.name)
            ==> regular[name] == loc[name])
    ensures r.Ok? && IsLinkedTarget(ItalicAxis(axes), loc) ==>
      r.value.1[ItalicAxis(axes).value.name] == LinkedValue(ItalicAxis(axes).value, loc)
    ensures (r.Ok? && IsLinkedTarget(AxisByTag(axes, "wght"), loc)
      && !(IsLinkedTarget(ItalicAxis(axes), loc) && ItalicAxis(axes).value.name == AxisByTag(axes, "wght").value.name)) ==>
      r.value.1[AxisByTag(axes, "wght").value.name] == LinkedValue(AxisByTag(axes, "wght").value, loc)
    ensures r.Ok? && !IsLinkedTarget(AxisByTag(axes, "wght"), loc) && !IsLinkedTarget(ItalicAxis(axes), loc)
      ==> r.value == (Regular, loc)
  {
    var wght := AxisByTag(axes, "wght");
    var boldValue :- if wght.None? then Ok(None) else RegularValue(wght.value, loc);
    var ital := ItalicAxis(axes);
    var italicValue :- if ital.None? then Ok(None) else RegularValue(ital.value, loc);
    Ok((RibbiStyleFor(boldValue.Some?, italicValue.Some?), Relinked(Relinked(loc, wght, boldValue), ital, italicValue)))
  }

  /** `{**loc, axis.name: v}` when a regular value was found on the axis, else `loc`. */
  function Relinked(loc: Location, axis: Option<Axis>, v: Option<real>): (r: Location)
    requires v.Some? ==> axis.Some? && axis.value.name in loc
    ensures r.Keys == loc.Keys
    ensures forall name :: name in loc && !(v.Some? && name == axis.value.name) ==> r[name] == loc[name]
    ensures v.Some? ==> r[axis.value.name] == v.value
    ensures v.None? ==> r == loc
  {
    if v.Some? then loc[axis.value.name := v.value] else loc
  }

  // ---------------------------------------------------------------------
  // getStatNames

  /** `getStatNames(doc, userLocation)`. The recursion into the regular
      location is bounded by `fuel`; running out stands for Python's
      RecursionError. */
  function GetStatNames(doc: Document, h: Helpers, loc: Location, fuel: nat): (r: Result<StatNames>)
    ensures fuel == 0 ==> r == Err(RecursionLimit)
    ensures fuel > 0 && StyleNames(doc, h, loc).Err? ==> r == Err(StyleNames(doc, h, loc).error)
    ensures fuel > 0 && StyleNames(doc, h, loc).Ok? && RibbiOf(doc.axes, loc).Err? ==> r == Err(RibbiOf(doc.axes, loc).error)
    ensures (fuel > 0 && StyleNames(doc, h, loc).Ok? && RibbiOf(doc.axes, loc).Ok?
      && (RibbiOf(doc.axes, loc).value.1 == loc || GetStatNames(doc, h, RibbiOf(doc.axes, loc).value.1, fuel - 1).Ok?)) ==> r.Ok?
    ensures r.Ok? ==>
      && r.value.familyNames == FamilyNames(h.defaultSource)
      && StyleNames(doc, h, loc) == Ok(r.value.styleNames)
      && "en" in r.value.styleNames
      && r.value.postScriptFontName == PostScriptName(r.value.familyNames, r.value.styleNames)
      && RibbiOf(doc.axes, loc).Ok?
      && r.value.styleMapStyleName == RibbiOf(doc.axes, loc).value.0
      && r.value.styleMapFamilyNames.Keys == r.value.familyNames.Keys
    ensures r.Ok? && RibbiOf(doc.axes, loc).value.1 == loc ==>
      r.value.styleMapFamilyNames == StyleMapFamilyNames(r.value.familyNames, r.value.styleNames, r.value.styleNames)
    ensures r.Ok? && RibbiOf(doc.axes, loc).value.1 != loc ==>
      && fuel > 1
      && GetStatNames(doc, h, RibbiOf(doc.axes, loc).value.1, fuel - 1).Ok?
      && r.value.styleMapFamilyNames == StyleMapFamilyNames(
           r.value.familyNames, GetStatNames(doc, h, RibbiOf(doc.axes, loc).value.1, fuel - 1).value.styleNames, r.value.styleNames)
    ensures (fuel > 0 && StyleNames(doc, h, loc).Ok? && RibbiOf(doc.axes, loc).Ok? && RibbiOf(doc.axes, loc).value.1 != loc
      && GetStatNames(doc, h, RibbiOf(doc.axes, loc).value.1, fuel - 1).Err?) ==>
      r == Err(GetStatNames(doc, h, RibbiOf(doc.axes, loc).value.1, fuel - 1).error)
    decreases fuel
  {
    if fuel == 0 then Err(RecursionLimit)
    else
      var familyNames := FamilyNames(h.defaultSource);
      var styleNames :- StyleNames(doc, h, loc);
      var ribbi :- RibbiOf(doc.axes, loc);
      var (style, regularLoc) := ribbi;
      var forStyleMap :- if regularLoc != loc then
          var regular :- GetStatNames(doc, h, regularLoc, fuel - 1);
          Ok(regular.styleNames)
        else Ok(styleNames);
      Ok(StatNames(familyNames, styleNames, PostScriptName(familyNames, styleNames),
                   StyleMapFamilyNames(familyNames, forStyleMap, styleNames), style))
  }

  // ---------------------------------------------------------------------
  // Name shapes

  /** With space-free English names the PostScript name is family, hyphen, style:
      "SourceSerif4" and "CaptionExtraLight" give "SourceSerif4-CaptionExtraLight". */
  lemma PostScriptNameOfSpaceFreeNames(familyNames: Names, styleNames: Names)
    requires "en" in familyNames && "en" in styleNames
    requires ' ' !in familyNames["en"] && ' ' !in styleNames["en"]
    ensures PostScriptName(familyNames, styleNames) == Some(familyNames["en"] + "-" + styleNames["en"])
  {
    var joined := familyNames["en"] + "-" + styleNames["en"];
    assert ' ' !in joined;
    assert multiset(joined)[' '] == 0;
  }

  /** A family name and a style name that do not start or end in whitespace
      are joined by exactly one space: "Source Serif 4" and "Caption
      ExtraLight" give "Source Serif 4 Caption ExtraLight". */
  lemma StyleMapFamilyNameJoinsWithOneSpace(family: string, style: string)
    requires |family| > 0 && !IsPySpace(family[0])
    requires |style| > 0 && !IsPySpace(style[|style| - 1])
    ensures StyleMapFamilyNames(map["en" := family], map["en" := style], map["en" := style])
      == map["en" := family + " " + style]
  {
    var joined := family + " " + style;
    assert joined[0] == family[0];
    assert joined[|joined| - 1] == style[|style| - 1];
    StripUnchanged(joined);
  }

  /** An empty style-map style name leaves the family name alone, as long as
      it does not start or end in whitespace. */
  lemma StyleMapFamilyNameOfEmptyStyle(family: string)
    requires |family| > 0 && !IsPySpace(family[0]) && !IsPySpace(family[|family| - 1])
    ensures StyleMapFamilyNames(map["en" := family], map["en" := ""], map["en" := ""])
      == map["en" := family]
  {
    var joined := family + " " + "";
    assert joined == family + " ";
    StripTrailingSpace(family);
  }
}
