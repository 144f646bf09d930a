# TimberTrek sunburst text placement and trie transforms, in Dafny

This project models three parts of TimberTrek, a tool for browsing many decision trees at once as a sunburst (nested-ring) chart:

- **Label placement** for the chart (`src/components/sunburst/SunburstText.ts`):
  - `textArc` builds the two paths a label can follow: the sector's mid arc, or its radial mid line.
  - `doesTextFitArc` estimates whether a label fits an arc.
  - `getTextColor` picks a light or inherited text colour from the sector's background.
  - `drawText` lays out and fills the labels of the innermost ring. Pass 1 picks each label's path and drops a feature name already drawn. Pass 2 fills in the text, blanks sectors that are too thin, and shortens labels that are too wide with a `'...'` loop.
- **Colour and SVG helpers** (`src/utils/utils.ts`): `getContrastRatio`, `haveContrast`, `setsAreEqual` and `preProcessSVG`.
- **The Python script** that turns the model trie into the chart's input (`src/scripts/transform.py`):
  - `transform_trie` makes a rounded deep copy.
  - `get_flat_metrics` and `get_tree_depths` list the terminals and their depths.
  - `get_hierarchy_dict` builds the strict `{'f', 'c'}` / `{'f': '_', 'd', 's'}` hierarchy. It parses the split keys into directions and features, and merges siblings that share a feature.

## How the model is organised

| file | what it holds |
|---|---|
| `wrappers.dfy` | `Option` |
| `strings.dfy` | the string built-ins the sources rely on: JavaScript `replace`/`replaceAll`/`slice`, Python `split`/`join` |
| `utils.dfy` | `utils.ts` |
| `sunburst_text.dfy` | `SunburstText.ts`: geometry, fitting, colour, and `drawText` as imperative passes proved against specification functions |
| `sunburst_text_properties.dfy` | properties of `drawText`: the shrink loop, de-duplication, what each sector shows, when the loop never ends |
| `transform.dfy` | trie values, `transform_trie`, `get_flat_metrics`, `get_tree_depths` |
| `hierarchy.dfy` | `get_hierarchy_dict` |

### How the source is represented

- **Collaborators.** Some calls reach code that is not part of this model: the d3 scales, the feature registry, the colour lookup, the text-width measure, `getLuminance`, `d3.color(...).rgb()`, and Python's `round(x, 5)`. Each one is a function-typed parameter (fields of the `Sunburst` datatype for the chart). The proofs therefore hold for every such function.
- **π and trigonometry.** π is a parameter. Trigonometry enters only as the sign facts a lemma needs about `sin` or `cos`.
- **The `drawText` callbacks.** d3 calls the callbacks of the two passes in document order over the sectors. They share one `drawnFeatureNames` set and one `textLayoutMap`. So the model is a pair of `for` loops: `LayoutPass` and `TextFillPass`.
  - The per-sector callback bodies are `LayoutSector` and `TextSector`.
  - The `while` loop that shortens a label is `ShrinkText`.
  - Each is proved equal to a specification function (`Layout`, `TextPass`, `Shrink`), and the properties are lemmas about those functions.
- **A loop that never ends.** On some inputs the shrink loop turns `'...'` into `'...'` forever. The model does not assume this away: `Shrink` returns `LoopsForever`, and `drawText` returns `Hangs(i)` for the first sector where this happens. `HangCause` and `ShrinkLoopsForeverIff` say exactly when it happens.
- **Tries.** A trie is a JSON value: `Num` or `Dict` over an ordered list of entries, as Python dicts keep insertion order.
  - `get_flat_metrics` extends a caller's list in place, so it is a method that extends the `MetricList` it is given (`modifies list`).
  - `transform_trie`, `get_tree_depths`, `get_sub_trie` and `get_hierarchy_dict` build fresh values with loops. Each is a method with loops, proved equal to a specification function.
  - The `KeyError` that the sibling merge raises is the `KeyError` case of `Result`.

## Model

| member | source | states |
|---|---|---|
| SunburstText.TextArc | src/components/sunburst/SunburstText.ts:25-76 | the sector mode gives an arc of the clamped mean radius; it is swept anticlockwise with swapped angles exactly when the mid angle lies in (0, π). The line mode gives a segment along the mid angle, drawn from outer to inner radius on the left half [π/2, 3π/2] and from inner to outer elsewhere |
| SunburstText.ArcSweepsOwnSector | src/components/sunburst/SunburstText.ts:31-47 | for a sector with ordered bounds, the arc's sweep direction matches the order of its end angles, its mid angle is the sector's, and it sweeps exactly the sector's angular span, never the long way round |
| SunburstText.ArcTextUpright | src/components/sunburst/SunburstText.ts:36-45 | given only the sign of sin on the two halves, the arc's tangent at the mid angle never points right to left: flipping on (0, π) keeps arc labels upright |
| SunburstText.LineTextUpright | src/components/sunburst/SunburstText.ts:49-74 | given only the sign of cos on the two halves, the swapped drawing order on the left half makes every line label run left to right |
| SunburstText.QuarterSectorArc | src/components/sunburst/SunburstText.ts:31-47 | worked example: a quarter sector gives the arc from -π/2 to 0 with radius 150, swept clockwise |
| SunburstText.DoesTextFitArc | src/components/sunburst/SunburstText.ts:81-100 | fits exactly when the text's width is at most the arc length less the padding; the arc length is the angular span times the clamped mean radius; a missing text stands for the feature's nameValue |
| SunburstText.FitMeasuresDrawnArc | src/components/sunburst/SunburstText.ts:81-100 | the length the fit test uses is the swept angle times the radius of the arc path that textArc draws for the same sector |
| SunburstText.FitMonotoneInPadding | src/components/sunburst/SunburstText.ts:81-100 | a text that fits with some padding fits with any smaller padding |
| SunburstText.GetTextColor | src/components/sunburst/SunburstText.ts:102-125 | the result is the light colour or 'currentcolor'; an unparsable background keeps 'currentcolor'; the light colour is chosen exactly when white gives the lower getContrastRatio against the parsed background |
| SunburstText.TextColorPicksHigherContrast | src/components/sunburst/SunburstText.ts:116-121 | the light colour is chosen exactly when white has the strictly higher WCAG 2.1 contrast with the background than the dark reference |
| SunburstText.DarkBackgroundGetsLightText | src/components/sunburst/SunburstText.ts:110-121 | a background no lighter than the dark reference gets the light text |
| SunburstText.LightBackgroundKeepsCurrentColor | src/components/sunburst/SunburstText.ts:110-124 | a background no darker than the light reference keeps 'currentcolor' |
| SunburstText.ShrinkStepShape | src/components/sunburst/SunburstText.ts:298-303 | one turn of the shrink loop leaves a text ending in '...'; if the text held '...' it loses exactly one character; '...' is the only text a turn leaves unchanged; every other turn lowers the loop's measure |
| SunburstText.ShrinkText | src/components/sunburst/SunburstText.ts:297-303 | the while loop returns what `Shrink` describes: the first text along the loop whose width is at most the sector radius, or `LoopsForever` once it cycles on '...' |
| SunburstText.LayoutSector | src/components/sunburst/SunburstText.ts:223-256 | pass 1 on one sector: the full label unless the name was drawn; the line when the label is narrower than the sector radius; otherwise the arc only for a first occurrence whose label fits the arc with padding 10, else the line; the sector's name is always recorded |
| SunburstText.TextSector | src/components/sunburst/SunburstText.ts:260-310 | pass 2 on one sector: a thin line sector returns '' before recording its name; a too-wide full line label becomes the short value and is shrunk; a bare value is never shortened; arc labels are not checked |
| SunburstText.LayoutPass | src/components/sunburst/SunburstText.ts:201-256 | pass 1 over all sectors: the layout map holds every index with its chosen mode, and the drawn set ends as every sector's name |
| SunburstText.TextFillPass | src/components/sunburst/SunburstText.ts:259-310 | pass 2 over all sectors, from a cleared drawn set: the texts of `TextPass`, or `Hangs` at the first sector whose loop never ends |
| SunburstText.DrawText | src/components/sunburst/SunburstText.ts:157-311 | no sectors: nothing drawn; otherwise the layout is `Layout` and the texts are `TextPass`, both with the sector radius taken from the first sector's radial extent less 15 |
| SunburstText.TextPass | src/components/sunburst/SunburstText.ts:260-310 | a completed pass 2 has one text per sector; a hang is at a sector index |
| SunburstTextProperties.ShrinkLoopsForeverIff | src/components/sunburst/SunburstText.ts:297-303 | the shrink loop never ends exactly when every text it visits is wider than the sector radius |
| SunburstTextProperties.LoopsForeverEllipsisTooWide | src/components/sunburst/SunburstText.ts:298-303 | a loop that never ends has reached '...' and found it wider than the sector radius |
| SunburstTextProperties.ShrunkTextIsFirstFit | src/components/sunburst/SunburstText.ts:297-303 | when the loop ends, the text it leaves fits the sector radius, and it is the first text along the loop that does, within length+4 turns |
| SunburstTextProperties.ShrunkIsFirstFitIterate | src/components/sunburst/SunburstText.ts:297-303 | the left text is the loop body applied k times, k no more than the loop measure, and no earlier turn fits |
| SunburstTextProperties.ShrinkEndsWhenEllipsisFits | src/components/sunburst/SunburstText.ts:297-303 | if '...' alone fits, the loop always ends |
| SunburstTextProperties.ShrinkLoopsWhenEllipsisTooWide | src/components/sunburst/SunburstText.ts:297-303 | if '...' alone is too wide and no text ending in '...' is narrower than '...', a text that starts too wide makes the loop run forever |
| SunburstTextProperties.LayoutLabelIsFirstOccurrence | src/components/sunburst/SunburstText.ts:224-233 | pass 1 measures the full label exactly when no earlier sector has the same name, and the bare value otherwise |
| SunburstTextProperties.ArcLayoutOnlyForFirstOccurrence | src/components/sunburst/SunburstText.ts:243-255 | a sector is laid on its arc only if it is the first with its name, its label is at least the sector radius wide, and the label fits the arc with padding 10 |
| SunburstTextProperties.AtMostOneArcPerName | src/components/sunburst/SunburstText.ts:224-255 | of the sectors that share a name, at most the first is laid on its arc |
| SunburstTextProperties.ShownNamesWithinNames | src/components/sunburst/SunburstText.ts:259-308 | the names pass 2 has recorded are among those pass 1 recorded up to the same sector |
| SunburstTextProperties.TextPassFromShape | src/components/sunburst/SunburstText.ts:260-310 | pass 2 completes exactly when no sector's loop runs forever; then text k is the sector text of sector k given the names shown before it; a hang is at the first such sector |
| SunburstTextProperties.RenderedText | src/components/sunburst/SunburstText.ts:260-310 | in a completed pass 2, each sector's text is its sector text given the names shown before it |
| SunburstTextProperties.ArcLabelIsFullAndFits | src/components/sunburst/SunburstText.ts:243-251 | a sector laid on its arc gets its full label unshortened, and that label fits the arc with padding 10 |
| SunburstTextProperties.NarrowLineIsBlank | src/components/sunburst/SunburstText.ts:279-285 | a line sector whose outer arc is shorter than 18.5 gets the empty text |
| SunburstTextProperties.WideLineLabelIsValueOnly | src/components/sunburst/SunburstText.ts:287-305 | a legible line label still wider than the sector radius is a bare value: every label that shows the name is shrunk until it fits |
| SunburstTextProperties.TextLabelIsFirstShown | src/components/sunburst/SunburstText.ts:261-269 | pass 2 starts from the full label exactly when no earlier sector with this name was given text; suppressed sectors do not count |
| SunburstTextProperties.NoHangWhenEllipsisFits | src/components/sunburst/SunburstText.ts:297-303 | if '...' fits the sector radius, drawText always completes |
| SunburstTextProperties.HangCause | src/components/sunburst/SunburstText.ts:279-303 | drawText hangs only at a legible line sector that shows its name for the first time, whose full label is too wide, and for which every text of the loop from its short value is too wide |
| SunburstTextProperties.RepeatedNameShowsValueOnly | src/components/sunburst/SunburstText.ts:223-310 | worked example: three sectors, the second repeating the first's name, all fitting their lines: the second shows its value only |
| Utils.GetContrastRatio | src/utils/utils.ts:159-167 | the darker luminance plus 0.05 over the lighter plus 0.05: the result lies in (0, 1], and it is 1 exactly for equal luminances |
| Utils.GetContrastRatioSymmetric | src/utils/utils.ts:159-167 | the ratio does not depend on the order of the two colours |
| Utils.RatioIsWcagReciprocal | src/utils/utils.ts:159-167 | the ratio is the reciprocal of the WCAG 2.1 contrast ratio of the two luminances |
| Utils.ContrastOrder | src/utils/utils.ts:159-167 | against one background, a lower ratio means a strictly higher WCAG 2.1 contrast, and the converse |
| Utils.HaveContrast | src/utils/utils.ts:177-199 | enough contrast exactly when the WCAG 2.1 ratio reaches 4.5 (AA, small), 3 (AA, large), 7 (any other level, small) or 4.5 (other, large) |
| Utils.HaveContrastAAAImpliesAA | src/utils/utils.ts:186-198 | passing level AAA implies passing AA for the same text size |
| Utils.HaveContrastSmallImpliesLarge | src/utils/utils.ts:186-198 | passing for small text implies passing for large text at the same level |
| Utils.SetsAreEqual | src/utils/utils.ts:206-208 | same size and every element of the first in the second is exactly set equality |
| Utils.PreProcessSVG | src/utils/utils.ts:31-42 | the three fixed replaceAll calls in order, then one replaceAll to 'currentcolor' per reset colour, in list order |
| Utils.ResetColorsLast | src/utils/utils.ts:37-39 | the last reset colour is replaced after all the others |
| Utils.PreProcessUnchanged | src/utils/utils.ts:31-42 | an SVG string with none of the three fixed patterns and no reset colours comes back unchanged |
| Utils.ResetAbsentColors | src/utils/utils.ts:37-39 | non-empty reset colours that do not occur change nothing |
| Strings.JoinSplit | src/scripts/transform.py:109-126 | joining the pieces of a split by the separator gives back the string |
| Strings.SplitJoin | src/scripts/transform.py:109-126 | splitting a join of separator-free pieces gives back the pieces |
| Transform.Lookup | src/scripts/transform.py:18-20 | a value is found exactly when the key is present, and it is the value stored under that key |
| Transform.FlatMetricsFollowPaths | src/scripts/transform.py:29-43 | the k-th flat metric is the terminal dict at the end of the k-th terminal path, in depth-first key order, one per terminal |
| Transform.GetFlatMetrics | src/scripts/transform.py:29-43 | the caller's list ends as what it held, followed by the trie's terminal dicts in depth-first key order |
| Transform.TreeDepthsAreDistances | src/scripts/transform.py:46-72 | one depth per terminal path, each the initial depth plus the path's length |
| Transform.TreeDepthsMatchFlatMetrics | src/scripts/transform.py:29-72 | the depth list and the flat metrics have the same length, and position k of each is about the same terminal |
| Transform.GetTreeDepths | src/scripts/transform.py:46-72 | the loop returns the depths `TreeDepths` describes |
| Transform.Transformed | src/scripts/transform.py:7-26 | the copy of a trie with no stray 'acc' key is a trie whose terminals hold 'acc' |
| Transform.TransformedKeepsPaths | src/scripts/transform.py:7-26 | the copy has the same terminal paths as the original |
| Transform.TransformedKeepsShape | src/scripts/transform.py:7-26 | the copy has the same keys in the same order at every non-terminal level, empty sub-dicts included, and is terminal exactly where the original is |
| Transform.TransformedRoundsTerminals | src/scripts/transform.py:17-20 | the terminals of the copy, in order, are `{'acc': round(objective)}` of the original's |
| Transform.TransformedKeepsDepths | src/scripts/transform.py:7-72 | the transform changes no tree depth |
| Transform.TransformTrie | src/scripts/transform.py:7-26 | the key-by-key loop into a fresh dict returns the copy `Transformed` describes |
| Hierarchy.KeyDirectionsShape | src/scripts/transform.py:87-90 | one direction entry per space-separated token: 1 for '-2', -1 for '-1', 0 for a feature token |
| Hierarchy.KeyFeatureTokens | src/scripts/transform.py:109-126 | the child's feature splits back into exactly the key's non-value tokens, in order |
| Hierarchy.KeyWithoutValuesIsFeature | src/scripts/transform.py:109-126 | a key without value tokens is its own feature |
| Hierarchy.TwoFeatureKey | src/scripts/transform.py:117-126 | worked example: key '0 1 -2 -1' adds directions [0, 0, 1, -1] and feature '0 1' |
| Hierarchy.ParseKey | src/scripts/transform.py:109-126 | the token loop returns the parent's direction extended by the key's directions, and the key's feature |
| Hierarchy.FindFeature | src/scripts/transform.py:136-141 | the index of the first node with the feature, or -1 when none has it |
| Hierarchy.MergeSiblingsGroups | src/scripts/transform.py:133-149 | the merge raises KeyError exactly when two siblings share a feature and one is a terminal; otherwise it returns one node per feature, in first-occurrence order, holding the concatenated children of all siblings with that feature |
| Hierarchy.MergedFeaturesDistinct | src/scripts/transform.py:133-149 | after a merge, siblings have pairwise distinct features, in the order of their first occurrence |
| Hierarchy.DistinctFeaturesInOrder | src/scripts/transform.py:133-147 | the merged features appear in the order in which they first occur among the siblings |
| Hierarchy.MergeChildren | src/scripts/transform.py:133-149 | the nested merge loop, with its break and the KeyError on a terminal, returns what `MergeSiblings` describes |
| Hierarchy.GetSubTrie | src/scripts/transform.py:92-149 | get_sub_trie returns what `SubTrie` describes |
| Hierarchy.SubTrieShape | src/scripts/transform.py:92-149 | the result is a terminal exactly for a terminal dict, with the direction handed down; otherwise a node with the feature handed down, whose children have distinct features |
| Hierarchy.SubTrieLeavesExtend | src/scripts/transform.py:92-131 | every leaf's direction starts with the direction handed to get_sub_trie: directions accumulate down the hierarchy |
| Hierarchy.TerminalSiblingsRaiseKeyError | src/scripts/transform.py:133-143 | below the root, a dict with two terminal children makes get_sub_trie raise KeyError |
| Hierarchy.GetHierarchyDict | src/scripts/transform.py:75-161 | get_hierarchy_dict returns what `HierarchyDict` describes |
| Hierarchy.HierarchyDictShape | src/scripts/transform.py:151-161 | the root is 'root' with one unmerged child per top-level key, in order, built with the key as feature and an empty direction; it raises KeyError exactly when some child does |
| Hierarchy.RootKeepsTerminalSiblings | src/scripts/transform.py:151-161 | worked example: two terminal top-level entries become two leaves with empty directions, kept side by side |

## Left out

- Path strings: `textArc` returns an abstract `TextPath`, not the SVG text d3 prints. π is a parameter, and `sin`/`cos` appear only as sign assumptions. Floating-point rounding is not modelled: all arithmetic is on reals.
- Collaborators appear only as parameters, so the model states nothing about their behaviour: the d3 scales, `getFeatureInfo`, `getFeatureColor`, `getLatoTextWidth`, `getLuminance`, `d3.color`, `textFontScale` (folded into the `curFontSize` field) and Python's `round`.
- DOM glue in `drawText` is left out: the selection of the innermost ring, the filter of visible sectors, element creation, and the ids and styles. The model starts from the filtered sectors in document order.
- `drawCenterText` and `removeText` are left out. The first only logs a value; the second only removes elements.
- The other functions of `utils.ts`, such as SVG loading and downloads, are not part of this model.
- Strings are `seq<char>`. The code-unit detail of JavaScript strings (UTF-16) and of Python strings (code points) is not modelled.
- Tries that are not well formed are excluded by preconditions (`IsTrie`, `IsScoredTrie`). Python would raise TypeError on a number where a dict is expected. `transform_trie` also looks up `'objective'` as a number.
- Aliasing of Python lists and dicts is left out. The model's values are immutable, so sharing that the script introduces cannot be observed. Two examples:
  - the root's empty `direction` list, passed to several terminals;
  - the `k` dicts that the merge appends and later extends.
- `get_flat_metrics` appends the terminal dicts themselves, not copies; the model lists their values.
- The shrink loop is modelled as written. A text cut down to `'...'` stays `'...'`, so when `'...'` is still too wide the loop never ends. `Shrink` returns `LoopsForever` for that case.
