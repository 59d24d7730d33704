/** The parts of a designspace document that the v5-to-v4 conversion, the STAT
    naming and the STAT record building read, as immutable values.

    Descriptor methods defined outside the modelled files are not given any
    behaviour here: they are the function-valued fields of `Helpers`, supplied
    by the caller. */
module DesignSpace {

  import opened Basics
  import opened ExtReal
  import opened Regions
  import opened PyDict

  /** Axis name to value. Whether user or design space depends on the caller. */
  type Location = map<string, real>

  /** Language code to localised name. */
  type Names = map<string, string>

  /** `{"en": name, **translations}`: the translations win, English included. */
  function LocalizedName(name: string, translations: Names): (r: Names)
    ensures r.Keys == translations.Keys + {"en"}
    ensures forall lang :: lang in translations ==> r[lang] == translations[lang]
    ensures "en" !in translations ==> r["en"] == name
  {
    map["en" := name] + translations
  }

  /** A custom-data dictionary; its values are passed through unread. */
  type Lib = map<string, string>

  datatype AxisLabel = AxisLabel(
    name: string,
    userValue: real,
    userMinimum: Option<real>,
    userMaximum: Option<real>,
    linkedUserValue: Option<real>,
    elidable: bool,
    olderSibling: bool,
    labelNames: Names)

  datatype LocationLabel = LocationLabel(
    name: string,
    userLocation: Location,
    elidable: bool,
    olderSibling: bool,
    labelNames: Names)

  /** An axis of the v5 document. A discrete axis appears through its
      minimum, default and maximum values. */
  datatype Axis = Axis(
    tag: string,
    name: string,
    labelNames: Names,
    hidden: bool,
    minimum: real,
    default: real,
    maximum: real,
    mapping: seq<(real, real)>,          // (user, design) control points
    axisOrdering: Option<int>,
    axisLabels: seq<AxisLabel>)

  /** An `<axis-subset>` of a variable font: a kept range or a pinned value.
      The range bounds are whatever the descriptor holds, infinities included. */
  datatype AxisSubset =
    | RangeSubset(name: string, userMinimum: XReal, userDefault: Option<real>, userMaximum: XReal)
    | ValueSubset(name: string, userValue: real)

  datatype VariableFont = VariableFont(
    name: string,
    filename: string,
    axisSubsets: seq<AxisSubset>,
    lib: Lib)

  /** One rule condition; a missing bound is `None`. */
  datatype Condition = Condition(name: string, minimum: Option<XReal>, maximum: Option<XReal>)

  type ConditionSet = seq<Condition>

  datatype Rule = Rule(name: string, conditionSets: seq<ConditionSet>, subs: seq<(string, string)>)

  datatype Source = Source(
    filename: Option<string>,
    path: Option<string>,
    name: Option<string>,
    location: Location,
    layerName: Option<string>,
    familyName: Option<string>,
    styleName: Option<string>,
    localisedFamilyName: Names,
    muteKerning: bool,
    muteInfo: bool,
    mutedGlyphNames: seq<string>)

  datatype Instance = Instance(
    filename: Option<string>,
    path: Option<string>,
    name: Option<string>,
    location: Location,
    familyName: Option<string>,
    styleName: Option<string>,
    postScriptFontName: Option<string>,
    styleMapFamilyName: Option<string>,
    styleMapStyleName: Option<string>,
    localisedFamilyName: Names,
    localisedStyleName: Names,
    localisedStyleMapFamilyName: Names,
    localisedStyleMapStyleName: Names,
    lib: Lib)

  /** A version 5 document. */
  datatype Document = Document(
    axes: seq<Axis>,
    rules: seq<Rule>,
    rulesProcessingLast: bool,
    sources: seq<Source>,
    instances: seq<Instance>,
    variableFonts: seq<VariableFont>,
    locationLabels: seq<LocationLabel>,
    elidedFallbackName: Option<string>,
    lib: Lib)

  /** An axis of a derived version 4 document: no ordering, no labels. */
  datatype VfAxis = VfAxis(
    tag: string,
    name: string,
    labelNames: Names,
    hidden: bool,
    minimum: Option<XReal>,
    default: real,
    maximum: Option<XReal>,
    mapping: seq<(real, real)>)

  /** A derived version 4 document, one per variable font. */
  datatype Document4 = Document4(
    formatVersion: string,
    axes: seq<VfAxis>,
    rules: seq<Rule>,
    rulesProcessingLast: bool,
    sources: seq<Source>,
    instances: seq<Instance>,
    lib: Lib)

  /** The descriptor methods the modelled code calls but does not define. */
  datatype Helpers = Helpers(
    getAxis: string -> Option<Axis>,                    // DesignSpaceDocument.getAxis
    mapForward: (VfAxis, XReal) -> XReal,               // AxisDescriptor.map_forward
    defaultSource: Option<Source>,                      // DesignSpaceDocument.findDefault()
    labelForUserLocation: Location -> Option<LocationLabel>,
    defaultName: AxisLabel -> string,                   // AxisLabelDescriptor.defaultName
    instanceUserLocation: Instance -> Location,         // InstanceDescriptor.getFullUserLocation
    labelUserLocation: LocationLabel -> Dict<real>,      // LocationLabelDescriptor.getFullUserLocation
    labelFormat: AxisLabel -> int)                      // AxisLabelDescriptor.getFormat

  /** `d.get(k)` on a plain dict. */
  function MapGet(m: map<string, string>, k: string): (r: Option<string>)
    ensures r.Some? <==> k in m
    ensures r.Some? ==> r.value == m[k]
  {
    if k in m then Some(m[k]) else None
  }

  /** Python's `a or b` for an optional string: `None` and `""` are falsy. */
  function OrString(a: Option<string>, b: Option<string>): (r: Option<string>)
    ensures a.Some? && a.value != "" ==> r == a
    ensures a.None? || a.value == "" ==> r == b
  {
    if a.Some? && a.value != "" then a else b
  }

  /** Python's `a or b` for a dict: the empty dict is falsy. */
  function OrNames(a: Names, b: Names): (r: Names)
    ensures |a| > 0 ==> r == a
    ensures |a| == 0 ==> r == b
  {
    if |a| > 0 then a else b
  }
}
