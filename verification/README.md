# fontTools designspaceLib v5 → v4 conversion, STAT naming and config, in Dafny

This project is a functional model of five pieces of fontTools:

- **The axis-region algebra** of `designspaceLib`. `Range` is a closed interval whose ends may come in either order. `Stops` is a set of points. The algebra covers their containment tests and `Range.intersection`, and the membership tests `in_region` and `location_in_selection` / `_locationInSelection`. `types.py` and `convert5to4.py` carry identical copies. Module `Regions` models both once, and the README rows cite each copy.
- **The designspace 5 → 4 downgrade `convert5to4`** (module `Convert`). For every variable font it:
  - reduces the axes of its range subsets;
  - pins every unmentioned axis at its default;
  - builds the region selection;
  - subsets the rules through the four cases "point in range", "range contained", "range intersects" and "disjoint";
  - keeps the sources and instances that lie in the selection, with their locations cut to the kept axes;
  - fills missing instance names from `getStatNames`;
  - merges the libs.
- **STAT name derivation `getStatNames`** (module `StatNaming`):
  - family names from the default source;
  - style names from a location label, or from the axis labels matched in STAT order;
  - the PostScript name;
  - the RIBBI classification `_getRibbiStyle` and its "regular" location;
  - the style-map family names.
- **STAT record building** (module `StatRecords`):
  - the all-or-none axis-ordering rule;
  - the axis value flags `OlderSiblingFontAttribute` (0x0001) and `ElidableAxisValueName` (0x0002) of the OpenType STAT table;
  - the three axis value table formats;
  - location records keyed by axis tag.
- **The option registry `fontTools.config`** (module `Configuration`):
  - `Config.__init__` looks each value up, parses it and validates it;
  - `Config.get` has three levels of precedence.

Supporting modules:
- `Basics`: `Option`, `Result` and the error kinds.
- `ExtReal`: reals extended with ±∞, standing in for Python floats and `math.inf`.
- `PyDict`: Python's insertion-ordered `dict`.
- `Text`: `str.join`, `str.strip` and space removal.
- `Seqs`: facts about a sequence and its prefix without the last item, the image of a sequence, and mapping over a sequence with filtering or with failure.
- `DesignSpace`: the document's descriptors.

Every operation is a pure function over immutable datatypes. A Python exception is an `Err` of `Result`. Document methods defined outside the modelled files are record fields of `DesignSpace.Helpers`, passed in as parameters: `getAxis`, `map_forward`, `findDefault`, `labelForUserLocation`, `defaultName`, `getFullUserLocation` and the label format. Their behaviour is not invented. `InstanceDescriptor.getStatNames(doc)` (convert5to4.py:114) is a method defined outside the modelled files. It is taken as `getStatNames(doc, instance.getFullUserLocation(doc))`, as the docstring at statNames.py:4-5 describes (`Convert.NamesOf`, where the `instanceUserLocation` helper stands for `getFullUserLocation`).

## Behaviour reproduced as written

The model keeps these behaviours of the code:

- A rule condition with `minimum` or `maximum` equal to 0 is read as unbounded, because of `or` (`Convert.ReadCondition`).
- A range subset whose `userDefault` is 0 takes the axis default instead (`Convert.ReduceAxis`).
- `Range.__contains__` sorts its argument but never `self`. A reversed range therefore contains nothing (`Regions.ReversedRangeContainsNothing`).
  - The rule subsetter does sort both ranges when it intersects them. So a reversed condition, which admits no location, can be narrowed into one that admits some (`Convert.ReversedConditionGainsLocations`).
  - The meaning-preservation lemmas therefore require well-ordered conditions.
- The style name may stay the empty string.
- `_getSortedAxisLabels` with duplicate axis names keeps one entry per name, placed where the name's first axis put it and holding the last axis's labels (`StatNaming.SortedAxisLabelsLastWins`, `StatNaming.SortedAxisLabelsFirstPosition`).
- Duplicate names resolve as the dict-building code resolves them:
  - `axes_by_tag` and `axesByName` keep the last axis with a given tag or name.
  - The default-pinning loop pins an axis name at the default of its first declaration.
  - The result dict of `convert5to4` keeps the last variable font with a given file name.
- A test in `Tests/designspaceLib/designspace_v5_test.py` unpacks a pair from `convert5to4`. The code returns only the dict of documents, and the model follows the code.

## Model

| member | source | states |
|---|---|---|
| Regions.Normalized | Lib/fontTools/designspaceLib/types.py:19 | `sorted((start, end))` yields the same two ends in ascending order |
| Regions.RangeContains | Lib/fontTools/designspaceLib/types.py:18-24 | `value in Range`: both sorted ends of a Range, every stop of a Stops, or the scalar lie between `start` and `end` of the unsorted `self` |
| Regions.StopsContains | Lib/fontTools/designspaceLib/types.py:41-46 | `value in Stops`: a Range only when it is one point that is a stop, a Stops when all its stops are stops, a scalar when it is a stop |
| Regions.Intersection | Lib/fontTools/designspaceLib/types.py:26-32 | a non-None intersection is well-ordered and lies inside both sorted operands |
| Regions.IntersectionMeaning | Lib/fontTools/designspaceLib/types.py:26-32 | a value is in both sorted operands iff the intersection exists and holds it |
| Regions.IntersectionNoneIffDisjoint | Lib/fontTools/designspaceLib/convert5to4.py:277-283 | the intersection is None iff the sorted operands share no value |
| Regions.IntersectionSymmetric | Lib/fontTools/designspaceLib/convert5to4.py:277-283 | the intersection does not depend on operand order |
| Regions.IntersectionWithinOperands | Lib/fontTools/designspaceLib/convert5to4.py:269-283 | for well-ordered operands a non-None intersection is contained in both |
| Regions.RangeContainsRangeMeaning | Lib/fontTools/designspaceLib/types.py:18-21 | a Range contains a Range argument iff it holds every value between the argument's sorted ends |
| Regions.RangeContainsItself | Lib/fontTools/designspaceLib/convert5to4.py:269-272 | a well-ordered Range contains itself |
| Regions.RangeContainsTransitive | Lib/fontTools/designspaceLib/types.py:18-21 | Range-in-Range containment is transitive through a well-ordered middle range |
| Regions.ReversedRangeContainsNothing | Lib/fontTools/designspaceLib/convert5to4.py:269-275 | with `start > end`, `self` holds no scalar, no Range and no non-empty Stops, because `self` is not sorted |
| Regions.RangeContainsEmptyStops | Lib/fontTools/designspaceLib/types.py:22-23 | an empty Stops is contained in every Range |
| Regions.StopsContainsIsSubset | Lib/fontTools/designspaceLib/types.py:41-46 | Stops-in-Stops is the subset relation, reflexive and transitive |
| Regions.StopsContainsRangeOnlyPoints | Lib/fontTools/designspaceLib/convert5to4.py:292-297 | Stops contains a Range iff the Range is one point that is a stop |
| Regions.CheckLocationInSelection | Lib/fontTools/designspaceLib/convert5to4.py:316-329 | the per-axis loop with early returns computes the membership predicate, and is false on a key-set mismatch |
| Regions.InRegion | Lib/fontTools/designspaceLib/types.py:66-69 | `in_region`: same keys, and each value contained in its axis's bound |
| Regions.LocationInSelection | Lib/fontTools/designspaceLib/types.py:72-83 | `location_in_selection`: same keys, a pinned axis equal to its value, a kept axis inside its range |
| Regions.LocationInSelectionIsInRegion | Lib/fontTools/designspaceLib/types.py:66-83 | `location_in_selection` agrees with `in_region` once each pinned value is read as a one-stop Stops |
| ExtReal.OrElse | Lib/fontTools/designspaceLib/convert5to4.py:183-184 | Python's `x or fallback` on a number: a missing or zero value gives the fallback |
| Convert.FilterMapping | Lib/fontTools/designspaceLib/convert5to4.py:56-60 | a pair is kept iff it is in the axis map and its user value lies in the subset's range; never more pairs than the map |
| Convert.FilterMappingAppend | Lib/fontTools/designspaceLib/convert5to4.py:56-60 | filtering a concatenation filters each part and concatenates, so kept pairs keep their order and multiplicity |
| Convert.FilterMappingOne | Lib/fontTools/designspaceLib/convert5to4.py:56-60 | a single pair is kept iff its user value lies in the range |
| Convert.FilterMappingKeepsInside | Lib/fontTools/designspaceLib/convert5to4.py:56-60 | a map already inside the range is kept whole and in order |
| Convert.ReduceAxis | Lib/fontTools/designspaceLib/convert5to4.py:46-64 | identity fields are copied; min is the larger and max the smaller of subset and axis bounds; a zero or missing `userDefault` falls back to the axis default; the map is the axis map filtered to the range, in order |
| Convert.SplitSubsets | Lib/fontTools/designspaceLib/convert5to4.py:43-68 | succeeds iff every subset names a known axis; range and pinned dicts are keyed by the resolved names |
| Convert.SplitSubsetsFailsAtFirstUnknown | Lib/fontTools/designspaceLib/convert5to4.py:43-44 | a failed split names an axis that `getAxis` does not find |
| Convert.SplitSubsetsEntries | Lib/fontTools/designspaceLib/convert5to4.py:43-68 | each range-kept name holds a reduced axis of that name which is also among the new document's axes, and there is one new axis per range subset |
| Convert.SplitSubsetsRanges | Lib/fontTools/designspaceLib/convert5to4.py:43-66 | `axesWithRange[k]` is the reduced axis of the last range subset resolving to `k` |
| Convert.SplitSubsetsPins | Lib/fontTools/designspaceLib/convert5to4.py:43-68 | `axesWithSingleLocation[k]` is the `userValue` of the last value subset resolving to `k` |
| Convert.SplitSubsetsAxes | Lib/fontTools/designspaceLib/convert5to4.py:43-66 | the axes added to the new document are the reduced axes of the resolving range subsets, one each, in subset order |
| Convert.FirstNamed | Lib/fontTools/designspaceLib/convert5to4.py:70-71 | finds a declared axis of the name iff one exists, the first one |
| Convert.PinUnmentioned | Lib/fontTools/designspaceLib/convert5to4.py:69-75 | adds exactly the unmentioned document axes at their defaults, after the existing pins, leaving those unchanged |
| Convert.RegionSelectionFrom | Lib/fontTools/designspaceLib/convert5to4.py:158-177 | keys are kept plus pinned axes; a pinned value is a raw point and overrides a kept range; kept axes map to their design-space range in their original order |
| Convert.PinEntries | Lib/fontTools/designspaceLib/convert5to4.py:173-174 | pinned values overwrite in place or append, and every other entry is unchanged |
| Convert.ConditionSetFrom | Lib/fontTools/designspaceLib/convert5to4.py:180-186 | one range per named axis, the final condition's range on its axis, and no bound is ever zero |
| Convert.ReadCondition | Lib/fontTools/designspaceLib/convert5to4.py:183-184 | a condition's range never has a zero end, since `or` replaces 0 by the infinite default |
| Convert.ConditionSetFromLastWins | Lib/fontTools/designspaceLib/convert5to4.py:180-186 | every axis maps to the range of the last condition naming it |
| Convert.Judge | Lib/fontTools/designspaceLib/convert5to4.py:216-244 | the C-AP-in/out and C-AR-all/inter/none case split: Always iff contained, Narrow to the intersection, Discard iff disjoint |
| Convert.JudgeMeaning | Lib/fontTools/designspaceLib/convert5to4.py:216-244 | inside the selection a Discard verdict means the condition fails, Always means it holds, and a narrowed condition holds iff the original does |
| Convert.SubsetEntries | Lib/fontTools/designspaceLib/convert5to4.py:212-246 | a condition set is discarded iff some selected axis it constrains gets a Discard verdict; kept conditions name selected axes |
| Convert.SubsetEntriesKept | Lib/fontTools/designspaceLib/convert5to4.py:216-246 | a kept set is exactly the narrowed conditions of the entries judged Narrow, in selection order; contained ranges contribute nothing |
| Convert.SubsetEntriesMeaning | Lib/fontTools/designspaceLib/convert5to4.py:212-246 | over the selection's axes, the original conditions hold iff the set is kept and its narrowed conditions hold |
| Convert.SubsetPreservesMeaning | Lib/fontTools/designspaceLib/convert5to4.py:212-246 | at a location inside the selection, a well-ordered condition set holds iff it is kept and its subset holds |
| Convert.ReversedConditionGainsLocations | Lib/fontTools/designspaceLib/convert5to4.py:228-236 | a reversed condition admits no location, yet its subset to 400..600 admits weight 500 |
| Convert.KeptSets | Lib/fontTools/designspaceLib/convert5to4.py:212-246 | exactly the surviving condition sets are kept, each as its subset |
| Convert.KeptSetsAppend | Lib/fontTools/designspaceLib/convert5to4.py:212-246 | condition sets keep their order: the subsets of a concatenation are the concatenated subsets |
| Convert.KeptSetsOne | Lib/fontTools/designspaceLib/convert5to4.py:212-246 | one condition set gives its subset, or nothing when it is discarded |
| Convert.SubsetRule | Lib/fontTools/designspaceLib/convert5to4.py:207-248 | a rule is dropped iff no condition set survives; a kept rule keeps name and `subs` |
| Convert.SubsetRules | Lib/fontTools/designspaceLib/convert5to4.py:189-250 | the result holds exactly the subsets of the surviving rules |
| Convert.SubsetRulesAppend | Lib/fontTools/designspaceLib/convert5to4.py:189-250 | rules keep document order: the subsets of a concatenation are the concatenated subsets |
| Convert.SubsetRulesOne | Lib/fontTools/designspaceLib/convert5to4.py:189-250 | one rule gives its subset, or nothing when it is dropped |
| Convert.SubsetRulePreservesMeaning | Lib/fontTools/designspaceLib/convert5to4.py:189-250 | inside the selection a well-ordered rule applies iff it survives and its subset applies |
| Convert.SubsetRuleKeepsApplying | Lib/fontTools/designspaceLib/convert5to4.py:207-249 | a rule applying inside the selection survives and its subset applies |
| Convert.SubsetRuleAppliesOnlyIfOriginal | Lib/fontTools/designspaceLib/convert5to4.py:207-249 | a surviving rule whose subset applies inside the selection applied before |
| Convert.FilterLocation | Lib/fontTools/designspaceLib/convert5to4.py:253-257 | the location restricted to the range-kept axes, values unchanged |
| Convert.KeepSources | Lib/fontTools/designspaceLib/convert5to4.py:84-107 | a source is kept, projected, iff its location lies in the selection; never more sources than before |
| Convert.ProjectSource | Lib/fontTools/designspaceLib/convert5to4.py:89-106 | the copy keeps exactly the kept axes of the location with their values, has no localised family name, and copies every other field |
| Convert.KeepSourcesAppend | Lib/fontTools/designspaceLib/convert5to4.py:84-107 | sources keep document order: the sources kept from a concatenation are the concatenated kept sources |
| Convert.KeepSourcesOne | Lib/fontTools/designspaceLib/convert5to4.py:84-107 | one source is kept, projected, iff its location lies in the selection |
| Convert.KeptSourcesUseKeptAxes | Lib/fontTools/designspaceLib/convert5to4.py:84-95 | every kept source's location has exactly the range-kept axes |
| Convert.KeepSourcesKeys | Lib/fontTools/designspaceLib/convert5to4.py:84-95 | when the range-kept axes are selected, every kept source's location has exactly those axes |
| Convert.ProjectInstance | Lib/fontTools/designspaceLib/convert5to4.py:114-141 | filename, path, name and lib copied; the location cut to the kept axes; `familyName`, `styleName`, `postScriptFontName`, `styleMapFamilyName`, `styleMapStyleName` and the three localised names each kept when non-empty, else the STAT value; `localisedStyleMapStyleName` copied |
| Convert.KeepInstancesOk | Lib/fontTools/designspaceLib/convert5to4.py:109-114 | the instance loop succeeds iff every instance in the selection gets its STAT names |
| Convert.KeepInstancesContents | Lib/fontTools/designspaceLib/convert5to4.py:109-146 | every output instance is the projection of an instance lying in the selection |
| Convert.KeepInstances | Lib/fontTools/designspaceLib/convert5to4.py:109-146 | the instance loop never yields more instances than it is given |
| Convert.KeepInstancesAppend | Lib/fontTools/designspaceLib/convert5to4.py:109-146 | over a concatenation, the loop is the loop over the first part followed by the loop over the second, failing at the first failure |
| Convert.KeepInstancesOne | Lib/fontTools/designspaceLib/convert5to4.py:109-146 | one instance: skipped outside the selection, else its STAT-name error or its projection |
| Convert.KeepInstancesComplete | Lib/fontTools/designspaceLib/convert5to4.py:109-146 | every instance in the selection is named and its projection is in the output |
| Convert.ThenAssociative | Lib/fontTools/designspaceLib/convert5to4.py:109-146 | chaining two loop results is associative |
| Convert.NamesOf | Lib/fontTools/designspaceLib/convert5to4.py:114 | an instance's names are `getStatNames` at its user location |
| Convert.PlanFor | Lib/fontTools/designspaceLib/convert5to4.py:43-79 | the per-font plan exists iff every subset resolves; its selection covers the kept and pinned axes |
| Convert.ConvertVariableFont | Lib/fontTools/designspaceLib/convert5to4.py:35-151 | version 4.1; axes are the reduced axes; rules are the subset rules; `rulesProcessingLast` copied; no more sources and no more instances than the document; lib is the document lib overridden by the font lib |
| Convert.ConvertVariableFontContents | Lib/fontTools/designspaceLib/convert5to4.py:84-146 | the new sources are the kept sources and the new instances the kept instances of the document, over the font's selection |
| Convert.ConvertVariableFontOk | Lib/fontTools/designspaceLib/convert5to4.py:43-114 | a font converts iff its subsets resolve and every instance in its selection gets STAT names |
| Convert.ConvertVariableFontInstances | Lib/fontTools/designspaceLib/convert5to4.py:109-146 | the converted instances are projections of the document's instances in the selection, and every selected instance's projection is among them |
| Convert.ConvertedRulesPreserveMeaning | Lib/fontTools/designspaceLib/convert5to4.py:77-82 | inside the selection the converted rules that apply are the original applying rules, with the same names and substitutions |
| Convert.SelectionCoversAxes | Lib/fontTools/designspaceLib/convert5to4.py:69-79 | when `getAxis` finds document axes, the selection's keys are exactly the document's axis names |
| Convert.SelectionOfPinnedAxes | Lib/fontTools/designspaceLib/convert5to4.py:43-75 | an unmentioned axis is selected at its default as a point; a pinned axis at the value of its last value subset |
| Convert.SelectionOfKeptAxes | Lib/fontTools/designspaceLib/convert5to4.py:43-79 | an axis only range subsets name is selected by the range of the reduced axis of its last range subset |
| Convert.ConvertFontsOk | Lib/fontTools/designspaceLib/convert5to4.py:33-34 | the font loop succeeds iff every font converts; keys are the fonts' file names |
| Convert.ConvertFontsLastWins | Lib/fontTools/designspaceLib/convert5to4.py:153 | a file name maps to the conversion of the last font with that name |
| Convert.ConvertFonts | Lib/fontTools/designspaceLib/convert5to4.py:33-153 | the result dict has at most one entry per variable font |
| Convert.ConvertFontsFirstError | Lib/fontTools/designspaceLib/convert5to4.py:34-153 | a failed loop carries the error of the first font that fails, all earlier ones converting |
| Convert.ConvertFontsMeaning | Lib/fontTools/designspaceLib/convert5to4.py:33-155 | success iff every font converts, else the first failure's error; keys are the file names, each holding the last such font's document |
| Convert.Convert5To4 | Lib/fontTools/designspaceLib/convert5to4.py:29-155 | succeeds iff every variable font converts, else fails with the first failing font's error; one document per file name, from the last font with that name |
| StatNaming.RibbiStyleFor | Lib/fontTools/designspaceLib/statNames.py:28-33 | the table gives a bold style iff bold and an italic style iff italic |
| StatNaming.FamilyNames | Lib/fontTools/designspaceLib/statNames.py:56-68 | empty without a default source or family name, else `{"en": familyName}` overlaid by its translations |
| StatNaming.SortByOrdering | Lib/fontTools/designspaceLib/statNames.py:125-128 | `sorted` by `axisOrdering`: same length and members, ascending |
| StatNaming.SortPermutes | Lib/fontTools/designspaceLib/statNames.py:125-128 | the sort is a permutation |
| StatNaming.SortStable | Lib/fontTools/designspaceLib/statNames.py:125-128 | the sort is stable: axes with equal ordering keep their relative order |
| StatNaming.OrderedUnorderedSplit | Lib/fontTools/designspaceLib/statNames.py:126-136 | ordered and unordered axes partition the axes |
| StatNaming.SortedAxes | Lib/fontTools/designspaceLib/statNames.py:118-139 | the ordered axes ascending by ordering come first, then the unordered ones as declared |
| StatNaming.CollectLabels | Lib/fontTools/designspaceLib/statNames.py:129-137 | the dict of axis labels built name by name has exactly the axes' names as keys |
| StatNaming.CollectLabelsLastWins | Lib/fontTools/designspaceLib/statNames.py:129-137 | a name holds the labels of the last axis with that name |
| StatNaming.CollectLabelsFirstPosition | Lib/fontTools/designspaceLib/statNames.py:129-137 | names appear in the order of their first axis |
| StatNaming.SortedAxisLabels | Lib/fontTools/designspaceLib/statNames.py:118-139 | `_getSortedAxisLabels`: keyed by exactly the axis names |
| StatNaming.SortedAxisLabelsLastWins | Lib/fontTools/designspaceLib/statNames.py:118-139 | with duplicate names, a name holds the labels of its last axis in sorted order |
| StatNaming.SortedAxisLabelsFirstPosition | Lib/fontTools/designspaceLib/statNames.py:118-139 | with duplicate names, each name sits where its first axis in sorted order put it |
| StatNaming.SortedAxesPermutesStably | Lib/fontTools/designspaceLib/statNames.py:118-139 | the sorted axes are a permutation, stable among equal orderings |
| StatNaming.SortedAxisLabelsFollowSortedAxes | Lib/fontTools/designspaceLib/statNames.py:129-139 | for distinct axis names, entry i is the i-th sorted axis with its labels |
| StatNaming.FirstMatch | Lib/fontTools/designspaceLib/statNames.py:157-169 | None iff no label matches by value or by both bounds; otherwise a matching label from the list, the first |
| StatNaming.LabelsForEntries | Lib/fontTools/designspaceLib/statNames.py:155-176 | succeeds iff every axis has a matching label, one first match per axis in order; else the error names an axis and value |
| StatNaming.AxisLabelsForUserLocation | Lib/fontTools/designspaceLib/statNames.py:142-176 | a key-set mismatch is an error; otherwise succeeds iff every axis has a label; entry i is the first matching label of the i-th axis in STAT order |
| StatNaming.Languages | Lib/fontTools/designspaceLib/statNames.py:81 | exactly the languages some label translates into |
| StatNaming.LocalisedNames | Lib/fontTools/designspaceLib/statNames.py:84-88 | at most one name per label, and no name iff every label is elidable |
| StatNaming.LocalisedNamesAppend | Lib/fontTools/designspaceLib/statNames.py:84-88 | the names of a concatenation of labels are the concatenated names, so names follow label order |
| StatNaming.LocalisedNamesOne | Lib/fontTools/designspaceLib/statNames.py:84-88 | an elidable label gives no name, another its translation, or its default name when the language is missing |
| StatNaming.StyleNameIn | Lib/fontTools/designspaceLib/statNames.py:84-91 | the space-joined localised names when that join is non-empty, else `elidedFallbackName`, or "" when it is unset |
| StatNaming.AllElidableStyleName | Lib/fontTools/designspaceLib/statNames.py:84-91 | all-elidable labels give `elidedFallbackName`, or "" when it is unset |
| StatNaming.SingleNonElidableStyleName | Lib/fontTools/designspaceLib/statNames.py:84-88 | one non-elidable label gives its translation |
| StatNaming.StyleNames | Lib/fontTools/designspaceLib/statNames.py:70-91 | a matching location label gives its names over "en"; otherwise one joined name per language plus "en", failing as the label lookup fails |
| StatNaming.PostScriptName | Lib/fontTools/designspaceLib/statNames.py:93-95 | present iff both have "en"; then exactly `family-style` with every space removed |
| StatNaming.PostScriptNameOfSpaceFreeNames | Lib/fontTools/designspaceLib/statNames.py:93-95 | without spaces the PostScript name is exactly `family-style` |
| StatNaming.StyleMapFamilyNames | Lib/fontTools/designspaceLib/statNames.py:104-107 | the family's languages, each the stripped join of family and style name |
| StatNaming.StyleMapFamilyNameJoinsWithOneSpace | Lib/fontTools/designspaceLib/statNames.py:104-107 | family and style are joined with one space |
| StatNaming.StyleMapFamilyNameOfEmptyStyle | Lib/fontTools/designspaceLib/statNames.py:104-107 | an empty style leaves the family name alone |
| StatNaming.AxisByTag | Lib/fontTools/designspaceLib/statNames.py:187 | None iff no axis has the tag, else an axis with it |
| StatNaming.ItalicAxis | Lib/fontTools/designspaceLib/statNames.py:200 | `ital`, or `slnt` when no axis is tagged `ital`; of several axes with that tag, the last one (later entries overwrite earlier ones in `axes_by_tag`); None iff neither tag is present |
| StatNaming.FirstLinked | Lib/fontTools/designspaceLib/statNames.py:194-198 | None iff no label links to the value, else the first linked label |
| StatNaming.RegularValue | Lib/fontTools/designspaceLib/statNames.py:192-206 | fails iff the axis is missing from the location; finds a value iff a label links to the location's value, and then it is the first linked label's `userValue` |
| StatNaming.RibbiOf | Lib/fontTools/designspaceLib/statNames.py:179-211 | bold iff a wght label links to the value, italic likewise on ital, else slnt; the regular location puts the first linked label's value on each linked axis and keeps every other axis |
| StatNaming.Relinked | Lib/fontTools/designspaceLib/statNames.py:208-211 | `{**loc, axis: v}`: same keys, the axis set to v when given, every other value kept |
| StatNaming.GetStatNames | Lib/fontTools/designspaceLib/statNames.py:48-115 | a style-name error is reported first and a RIBBI error second. It succeeds when both parts succeed and, away from the regular location, the regular location's own names succeed. It assembles family, style, PostScript, RIBBI and style-map names as the parts say; at the regular location the style map uses its own style names, elsewhere those of the regular location's `getStatNames`, whose failure is propagated |
| DesignSpace.LocalizedName | Lib/fontTools/designspaceLib/stat.py:75 | `{"en": name, **labelNames}`: translations win and "en" defaults to the name |
| StatRecords.LabelFlags | Lib/fontTools/designspaceLib/stat.py:62-68 | bit 0 iff older sibling, bit 1 iff elidable, no other bits, value `1·o + 2·e` |
| StatRecords.LabelFlagsInjective | Lib/fontTools/designspaceLib/stat.py:62-68 | distinct attribute pairs give distinct flags, all in 0..3 |
| StatRecords.AxisValueOf | Lib/fontTools/designspaceLib/stat.py:71-94 | formats 1 to 3 give the matching record shape and fields; any other format is unreachable |
| StatRecords.AxisValueRecoversLabel | Lib/fontTools/designspaceLib/stat.py:71-94 | the record gives back the label's value, flags and name |
| StatRecords.AxisValues | Lib/fontTools/designspaceLib/stat.py:33-36 | one record per label, failing at the first label with an unreachable format |
| StatRecords.StatOrderings | Lib/fontTools/designspaceLib/stat.py:22-28 | fails iff only some axes declare an ordering; else the declared orderings or the indices |
| StatRecords.StatAxesFrom | Lib/fontTools/designspaceLib/stat.py:29-37 | one record per axis with its tag, name and ordering, and one location per axis label |
| StatRecords.GetStatAxes | Lib/fontTools/designspaceLib/stat.py:16-37 | an ordering error comes first. When the orderings are consistent, it succeeds iff every label's format is known. Each record is then `RecordOf` its axis: its tag, its localized name, its ordering, and its labels' axis-value records in order |
| StatRecords.AxisNamed | Lib/fontTools/designspaceLib/stat.py:46 | `axesByName`: None iff no axis has the name, else an axis with that name |
| StatRecords.TagLocation | Lib/fontTools/designspaceLib/stat.py:52-55 | succeeds iff every name is an axis; otherwise fails at the first unknown name |
| StatRecords.TagLocationKeys | Lib/fontTools/designspaceLib/stat.py:52-55 | the keys are the tags of the location's axis names |
| StatRecords.TagLocationValues | Lib/fontTools/designspaceLib/stat.py:52-55 | each tag holds the value of the last name mapped to it |
| StatRecords.StatLocationOf | Lib/fontTools/designspaceLib/stat.py:48-57 | a record with localised name, flags and tag-keyed location |
| StatRecords.GetStatLocations | Lib/fontTools/designspaceLib/stat.py:40-59 | one record per location label, in order, succeeding iff each does |
| Configuration.LookupOption | Lib/fontTools/config.py:51 | `OPTIONS[name]` exists iff the name is registered and holds the option of that name |
| Configuration.OptionsHoldGposMode | Lib/fontTools/config.py:25-51 | the registry holds exactly `otlLib.optimize.gpos.mode` |
| Configuration.GposModeRange | Lib/fontTools/config.py:45-47 | the gpos mode is valid iff in 0..9, and its default 0 is valid |
| Configuration.ParseDecimal | Lib/fontTools/config.py:46 | `int` on a string fails only with a ValueError |
| Configuration.ParseSigned | Lib/fontTools/config.py:46 | `int` on stripped text fails only with a ValueError |
| Configuration.ParseSignedWithSign | Lib/fontTools/config.py:46 | after a sign, accepted iff one or more digits follow, with their value, negated for `-` |
| Configuration.ParseSignedUnsigned | Lib/fontTools/config.py:46 | without a sign, accepted iff the text is one or more digits, with their value; the empty text is refused |
| Configuration.ParseDecimalSurrounded | Lib/fontTools/config.py:46 | surrounding whitespace is ignored and the text between is what is parsed |
| Configuration.ParseUnsigned | Lib/fontTools/config.py:46 | a bare run of digits parses as its decimal value |
| Configuration.ParseNegative | Lib/fontTools/config.py:46 | a minus sign followed by digits parses as the negated decimal value |
| Configuration.ParseShowInt | Lib/fontTools/config.py:46 | `int(str(n)) == n` for every integer |
| Configuration.DigitsOfShowNat | Lib/fontTools/config.py:46 | the digits of a natural read back as that natural |
| Configuration.Truncate | Lib/fontTools/config.py:46 | `int` on a float truncates toward zero |
| Configuration.ParseValue | Lib/fontTools/config.py:46 | an int parses as itself, a float truncates toward zero, a string is read as a decimal; failures are ValueError |
| Configuration.EntryValue | Lib/fontTools/config.py:61-65 | one entry: succeeds iff registered, parsed and validated, with the parsed value; otherwise the entry's KeyError or ValueError |
| Configuration.StoreEach | Lib/fontTools/config.py:59-66 | the storing loop completes iff every entry's step succeeds |
| Configuration.StoreEachKeys | Lib/fontTools/config.py:59-66 | a completed loop stores exactly the entries' names |
| Configuration.StoreEachFirstError | Lib/fontTools/config.py:60-66 | a failed loop fails with the error of the first failing entry, all earlier ones having succeeded |
| Configuration.StoreEachStored | Lib/fontTools/config.py:59-66 | every stored pair is some entry's name with that entry's result |
| Configuration.StoreEachGet | Lib/fontTools/config.py:60-66 | each name holds the result of its last entry |
| Configuration.StoreValues | Lib/fontTools/config.py:59-66 | succeeds iff every entry is registered, parses and validates; keys are the given keys |
| Configuration.StoreValuesFirstError | Lib/fontTools/config.py:61-65 | a failure is the error of the first rejected entry: KeyError if unregistered, else ValueError |
| Configuration.StoreValuesValid | Lib/fontTools/config.py:59-66 | every stored key is registered and its value passes that option's validator |
| Configuration.StoreValuesGet | Lib/fontTools/config.py:61-66 | each key holds the parsed value of its last entry |
| Configuration.NewConfig | Lib/fontTools/config.py:59-66 | construction succeeds iff every entry is accepted, and fails with the first entry's error |
| Configuration.NewConfigValid | Lib/fontTools/config.py:59-66 | a constructed config is valid and holds each given key's parsed value |
| Configuration.GetValue | Lib/fontTools/config.py:68-103 | the user value first, then the caller's default, then the option's default, else KeyError. The default is the `_USE_GLOBAL_DEFAULT` sentinel (`GlobalDefault`) or a value the caller passed; an explicit `None` for an unset option yields `None` |
| Configuration.GetByOptionOrName | Lib/fontTools/config.py:98 | looking up by option or by its name gives the same result |
| Configuration.GetValueIsValid | Lib/fontTools/config.py:98-103 | without a caller default, `get` returns a value (never `None`) that its option validates |
| Configuration.ConfigSetToEight | Tests/config_test.py:5-13 | a gpos mode set to 8 reads back as 8, even with a caller default |
| Configuration.ConfigUnsetUsesDefaults | Tests/config_test.py:15-18 | unset, the gpos mode reads 0, or the caller's default 3, or `None` when the caller passes `None` |
| Configuration.ConfigRejectsUnknownName | Tests/config_test.py:20-22 | an unregistered name is a KeyError |
| Configuration.ConfigParsesString | Tests/config_test.py:24-27 | the string "8" is parsed to 8 |
| Configuration.ConfigRejectsTwelve | Tests/config_test.py:29-32 | 12 fails validation with a ValueError |
| Seqs.FilterMap | Lib/fontTools/designspaceLib/convert5to4.py:207-249 | the append-if-kept loops over rules and condition sets: the output holds exactly the kept transforms of the inputs, never more items than inputs |
| Seqs.FilterMapAppend | Lib/fontTools/designspaceLib/convert5to4.py:207-249 | filtering a concatenation is the concatenation of the filtered parts |
| Seqs.FilterMapOne | Lib/fontTools/designspaceLib/convert5to4.py:207-249 | a single item gives its transform when kept, nothing otherwise |
| Seqs.FilterMapKeepsAll | Lib/fontTools/designspaceLib/convert5to4.py:56-60 | when every item is kept unchanged, the filtered sequence is the input |
| Seqs.MapAll | Lib/fontTools/designspaceLib/stat.py:33-36 | a list comprehension whose item may raise: all results in order, or the error of the first failing item |
| PyDict.Put | Lib/fontTools/designspaceLib/convert5to4.py:172-174 | `d[k] = v`: k maps to v, other keys unchanged, an existing key keeps its place and a new key is appended |
| PyDict.PutKeyOrder | Lib/fontTools/designspaceLib/convert5to4.py:172-174 | a put keeps every existing key at its place and appends a new key last |
| Text.Strip | Lib/fontTools/designspaceLib/statNames.py:107 | `str.strip`: a slice with only whitespace cut at both ends, and no whitespace at its ends |
| Text.StripSurrounded | Lib/fontTools/designspaceLib/statNames.py:107 | whitespace-only ends are cut exactly, leaving the text between |
| Text.RemoveSpaces | Lib/fontTools/designspaceLib/statNames.py:95 | `replace(" ", "")`: no spaces are left and every other character is kept |
| Text.RemoveSpacesAppend | Lib/fontTools/designspaceLib/statNames.py:95 | removing spaces distributes over concatenation, so the other characters keep their order |
| Text.RemoveSpacesOne | Lib/fontTools/designspaceLib/statNames.py:95 | one character survives unless it is a space |

## Left out

- Document I/O (`fromfile`, `write`) and the descriptors' `font` field: no decision depends on them. Also not represented: the descriptor fields that the conversion leaves at their defaults (convert5to4.py:99-102, 138-144). For sources these are `copyLib`, `copyInfo`, `copyGroups` and `copyFeatures`. For instances they are `glyphs`, `kerning`, `info` and `label`.
- Logging: `LOGGER.warning` calls do not affect results. A missing default source or family name yields empty family names, as the code does.
- Document methods defined elsewhere are parameters in `DesignSpace.Helpers`, with no behaviour assumed: `getAxis`, `map_forward`, `findDefault`, `labelForUserLocation`, `defaultName`, `getFullUserLocation` and `AxisLabelDescriptor.getFormat`.
- `StatNaming.GetStatNames`: the recursion into the regular location has no evident bound. A `fuel` argument bounds it, and running out is the error `RecursionLimit`.
- `StatNaming.GetStatNames`: when the regular location differs, its style-map names are stated through the recursive call's style names, not in closed form.
- Floats are Dafny reals, with `ExtReal` for `math.inf`. Rounding and NaN are not modelled.
- Anisotropic (x, y) locations: the modelled code does not handle them.
- `Configuration.ParseDecimal`: `int()` on strings accepts ASCII digits with an optional sign and surrounding whitespace. Underscores and non-ASCII digits are not modelled.
- Configuration values are integers, strings or floats. Other Python types are not modelled.
- Configuration.GetValue: a caller's `default` is an integer or `None`. Other Python objects passed as the default are not modelled, because the gpos mode option holds integers.
- The option's help text is kept as a field without its content.
- The four-entry RIBBI mapping helpers and the `buildStatTable`/TTFont consumers of the STAT records are outside the modelled files. So are binary STAT table emission, `otlLib/optimize/__init__.py` and `fontTools/__init__.py`.
- Convert.ConvertFonts: a variable font's `filename` is a string here. In the code it may be None, and None then becomes a key of the result dict. The model does not represent that key.
