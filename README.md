# Biochronology chart engine in Dafny

This project models the time-scale and interval-layout engine of the
Biochronology chart renderer (`chart-renderer.js`). The renderer draws an
ICS-style chronostratigraphic chart with regional biozone columns. It takes
geological intervals (a start and an end in Ma, a rank, a colour) and a
visible window `[min, max]`. From them it computes:

- which intervals each column draws, and in which order;
- where each box sits vertically, and how high it is;
- how boxes stack (z-index);
- the fill, text colour and border of each box.

The modules, one file each:

- `Values` (values.dfy): the optional value (JavaScript's null), and
  Math.min, max, abs and round over exact reals.
- `JsText` (js_text.dfy): JavaScript white space and ASCII case folding.
- `Sequences` (sequences.dfy): Array filter and find, and the stable sort
  that Array.prototype.sort performs with a numeric comparator.
- `Intervals` (intervals.dfy): the interval record handed to the renderer.
- `RangeFilter` (range_filter.dfy): clampTime, overlapsRange and
  detectTinyOverlaps.
- `ScaleEngine` (scale.dfy): buildScale and the three timeToY closures.
  These are proportional, logarithmic, and equal mode with its 90 px slots.
- `Colors` (colors.dfy): hexToRgb with the semantics of parseInt in base
  16, for text in the Basic Multilingual Plane; getContrastColor and
  darkenColor.
- `ColorIndex` (color_index.dfy): buildGeoColorIndex and
  resolveGeoColorForInterval.
- `Columns` (columns.dfy): COLUMN_BASE, BIOZONE_LABELS and
  getColumnDefinitions.
- `Layout` (layout.dfy): getBoxPosition, RANK_Z_INDEX, and the selection,
  order, fill and colour logic of renderIcsColumn and renderBiozoneColumn.
- `TimeAxis` (time_axis.dfy): chooseInterval, the major-tick loop of
  renderTimeColumn, and the axis borders.
- `Prefixes` (prefixes.dfy): ensurePrefixes, the Turtle prefix repair that
  runs before a source is parsed.

Times and pixels are exact reals. The nudge of 1e-9 Ma, the tolerances of
1e-6 Ma and the visibility threshold of 0.05 Ma are exact constants.
Math.round is `floor(x + 0.5)`.

Each closure that buildScale returns becomes a case of the `Mapping`
datatype, and `TimeToY` dispatches on it.

The loops of the source are methods, each proved equal to the function
that specifies it:

- the forEach that fills equal mode's slot map;
- the scan of that map in equal mode's timeToY;
- the loop of detectTinyOverlaps;
- the tick loop of renderTimeColumn;
- the loops of the two column renderers;
- the loop of ensurePrefixes.

Two behaviours of the code are worth stating plainly:

- buildScale accepts an unordered window and normalises it with Math.min
  and Math.max (chart-renderer.js:349-351); the model does the same.
- The comment above overlapsRange (chart-renderer.js:557-560) speaks of a
  half-open window, but visibility is decided only by the 0.05 Ma overlap
  threshold (chart-renderer.js:561-570); the model follows the code.

The proofs also record two edge cases of clampTime:

- In any window narrower than the nudge, a value at or above `max` is
  pushed below `min` (`ClampNarrowWindow`).
- A time inside the window that lies less than 1e-9 below `max` is left
  unchanged, so it ends up above the clamp of `max` itself, which is
  `max - 1e-9` (`ClampInversionNearMax`). Clamping is therefore monotone
  everywhere except in that sliver.

## Model

| member | source | states |
|---|---|---|
| Values.Round | chart-renderer.js:613 | Math.round gives an integer within half a unit of its argument, with halves going up |
| JsText.LowerAscii | chart-renderer.js:116 | the `i` flag maps each ASCII capital to its own lower-case letter (code + 32) and leaves every other character alone |
| JsText.FoldedBlank | chart-renderer.js:116 | under the `i` flag, white space matches only white space |
| JsText.SkipWhitespace | chart-renderer.js:116 | the greedy `\s+` run ends at the first character that is not JavaScript white space |
| Sequences.Filter | chart-renderer.js:352-353 | Array filter keeps only elements that pass the test, and takes nothing from outside the input |
| Sequences.FilterAppend | chart-renderer.js:352-353 | Array filter walks the input in order: a further element is kept, at the end, exactly when it passes the test |
| Sequences.FilterMembers | chart-renderer.js:352-353 | an element is in the filtered array exactly when it is in the input and passes the test |
| Sequences.FilterFilter | chart-renderer.js:352-353 | filtering by ages and then by visibility is filtering once by both tests |
| Sequences.FindFirst | chart-renderer.js:662-666 | Array find returns the first element that passes the test, and nothing only when no element passes |
| Sequences.SortBySorted | chart-renderer.js:479 | sorting with the numeric comparator leaves the array ascending by the key |
| Sequences.SortByStable | chart-renderer.js:479 | the sort is stable: the elements sharing a key keep their input order |
| Sequences.SortByMembers | chart-renderer.js:479 | the sort drops nothing and adds nothing |
| Intervals.ItemMin | chart-renderer.js:562 | the younger bound of an item is at most both its start and its end |
| Intervals.ItemMax | chart-renderer.js:563 | the older bound of an item is at least both its start and its end |
| RangeFilter.ClampTime | chart-renderer.js:575-580 | the clamped time is below `max`, and at least `min` when the window is at least 1e-9 wide; a time at or above `max` becomes `max - 1e-9`; a time at or below `min` becomes `min`; a time inside the window is unchanged |
| RangeFilter.ClampTwice | chart-renderer.js:575-580 | clamping twice is clamping once when `max - min >= 1e-9`, which getBoxPosition relies on |
| RangeFilter.ClampNarrowWindow | chart-renderer.js:575-580 | in every window narrower than the nudge, a value at or above `max` clamps below `min` |
| RangeFilter.ClampMonotone | chart-renderer.js:575-580 | clamping keeps the order of two times, unless the lower one lies less than the nudge below `max` |
| RangeFilter.ClampInversionNearMax | chart-renderer.js:575-580 | the exception is real: every time in the window less than 1e-9 below `max` is left unchanged, and so clamps above the clamp of `max` |
| RangeFilter.OverlapsRangeIff | chart-renderer.js:561-570 | an item is visible exactly when each of its bounds lies more than 0.05 Ma inside the opposite bound of the window, and both the item and the window are longer than 0.05 Ma |
| RangeFilter.OverlapsRangeSwap | chart-renderer.js:561-570 | swapping start and end does not change visibility |
| RangeFilter.TouchingNotVisible | chart-renderer.js:561-570 | an item that only touches the window, or lies outside it, is never visible |
| RangeFilter.TinyOverlaps | chart-renderer.js:301-315 | the report has at most one entry per item |
| RangeFilter.TinyOverlapsExact | chart-renderer.js:301-315 | the report holds exactly the items whose overlap is positive and at most 0.05 Ma, and none of them is visible |
| RangeFilter.DetectTinyOverlaps | chart-renderer.js:301-315 | the loop collects exactly the report of TinyOverlaps, in input order |
| ScaleEngine.SetBoundary | chart-renderer.js:361-365 | Map set never shrinks the map and adds at most one entry |
| ScaleEngine.SetBoundaryCases | chart-renderer.js:361-365 | Map set on a key already present keeps the size and replaces the value where the key first occurs; a new key goes last, after all existing entries |
| ScaleEngine.FillBoundaries | chart-renderer.js:359-366 | the forEach builds the slot map that Boundaries specifies |
| ScaleEngine.BuildScale | chart-renderer.js:349-438 | the scale keeps the mode and the window normalised to Math.min and Math.max; equal mode with slots only arises from a window more than 0.05 Ma wide, so timeToY never divides by zero |
| ScaleEngine.Divisor | chart-renderer.js:434 | `x \|\| 1` is never zero, and is `x` itself whenever `x` is not zero |
| ScaleEngine.EqualTimeToY | chart-renderer.js:375-387 | the scan over the slot map returns equal mode's timeToY |
| ScaleEngine.PixelsPerMaValues | chart-renderer.js:391-398 | the rate is 45 px/Ma for logarithmic; for the other modes it is 45 (Math.round(32 * 1.4)) when the span is in (0, 66], and 32 otherwise |
| ScaleEngine.LinearTotals | chart-renderer.js:391-404 | outside a populated equal mode, the total height is max(span * rate, 700), so at least 700 px, and the drawable height is the total less 32 px: the 200 px floor never binds |
| ScaleEngine.LinearAtMin | chart-renderer.js:432-436 | proportional timeToY puts `min` at the 12 px top padding |
| ScaleEngine.LinearIncreasing | chart-renderer.js:432-436 | proportional timeToY is strictly increasing over the window |
| ScaleEngine.LinearBounds | chart-renderer.js:425-437 | proportional timeToY sends every time into [12, 12 + drawable height) |
| ScaleEngine.LogScaleBuilt | chart-renderer.js:406-415 | the logarithmic scale stores the logarithms of `min + 0.05` and `max + 0.05`, and a drawable height of the total less 32 px, at least 668 px |
| ScaleEngine.LogBounds | chart-renderer.js:416-421 | for a strictly increasing logarithm over a window above -0.05 Ma, logarithmic timeToY lies in [12, 12 + drawable height) |
| ScaleEngine.LogIncreasing | chart-renderer.js:416-421 | under the same conditions, logarithmic timeToY is strictly increasing over the window |
| ScaleEngine.BoundariesOfDistinct | chart-renderer.js:358-366 | with distinct ids, slot i of the map belongs to the i-th sorted age and spans [90i, 90i + 90) |
| ScaleEngine.EqualSlots | chart-renderer.js:352-367 | equal mode with n > 0 visible Age/Stage items has exactly n slots, holding exactly those items; slot i spans [90i, 90i + 90); the slots ascend by `end`, and ages with equal `end` keep their input order (the stable sort); the total height is max(90n, 600) |
| ScaleEngine.SlotsOfSorted | chart-renderer.js:356-366 | with distinct ids, the slots built from the ages sorted by `end` are one per age, in sorted order, 90 px each from the top, with ties in input order |
| ScaleEngine.EqualWithoutAnchors | chart-renderer.js:355-437 | equal mode with no visible Age/Stage item uses the linear scale, at least 700 px high, and still reports mode 'equal' |
| ScaleEngine.PositionInSlotBounds | chart-renderer.js:379-382 | interpolating inside an age stays within its slot's pixels |
| ScaleEngine.EqualInsideSlot | chart-renderer.js:375-383 | a time within 1e-6 Ma of the first slot that matches is placed by linear interpolation over that slot's age; when it lies inside the age itself, the result stays within the slot's pixels |
| ScaleEngine.EqualOutsideSlots | chart-renderer.js:385-386 | a time in no slot is placed at (clamped − min) / (max − min) × totalHeight, which lies in [0, totalHeight) |
| Colors.TrimStart | chart-renderer.js:597-606 | parseInt's leading trim keeps a suffix of the text that starts with a character other than white space |
| Colors.TrimStartRemovesBlank | chart-renderer.js:597-606 | everything the trim drops is white space |
| Colors.StripFirstHash | chart-renderer.js:591 | `replace('#', '')` removes exactly one character when a '#' is present, and nothing otherwise |
| Colors.StripAt | chart-renderer.js:591 | the character removed is the first '#': the text before it and the text after it are kept |
| Colors.HexToRgb | chart-renderer.js:590-608 | hexToRgb returns null exactly when the text without its first '#' has neither 3 nor 6 characters |
| Colors.ContrastColor | chart-renderer.js:617-622 | the text colour is always one of #1d1d1d and #ffffff; which one, branch by branch, is stated by ContrastOfRejected, ContrastOfNaN and ContrastOfRgb |
| Colors.ContrastOf | chart-renderer.js:617-622 | the text colour chosen from a parsed colour is one of #1d1d1d and #ffffff |
| Colors.ContrastOfRejected | chart-renderer.js:618-619 | a fill hexToRgb rejects (`!rgb`) gets the dark text #1d1d1d |
| Colors.ContrastOfNaN | chart-renderer.js:620-621 | a fill with a channel parseInt reads as NaN gets the light text #ffffff, since a NaN luminance is not above 150 |
| Colors.ContrastOfRed | chart-renderer.js:617-621 | the colour name "red" passes hexToRgb as three characters; its red channel "rr" reads as NaN, so the text is light |
| Colors.NatText | chart-renderer.js:614 | the decimal text written into rgb() is a non-empty run of digits |
| Colors.DarkenColor | chart-renderer.js:610-615 | a colour hexToRgb rejects comes back unchanged; any other becomes an `rgb(...)` string |
| Colors.RgbTextShape | chart-renderer.js:614 | the text written for a parsed colour is an `rgb(...)` string |
| Colors.ParseHex2 | chart-renderer.js:604-606 | parseInt in base 16 reads back the two-digit hex text of every channel value below 256 |
| Colors.HexToRgbRoundTrip | chart-renderer.js:590-608 | hexToRgb inverts the `#rrggbb` text of every colour |
| Colors.ShortFormDoubles | chart-renderer.js:592-601 | the short form `#xyz` is read as `#xxyyzz`, whatever the three characters are |
| Colors.ContrastOfRgb | chart-renderer.js:617-622 | for a parsed colour, the text is dark exactly when the luminance is above 150 |
| Colors.LuminanceScaled | chart-renderer.js:620-621 | the luminance test is the integer test 299 r + 587 g + 114 b > 150000 |
| Colors.ContrastOfChannels | chart-renderer.js:617-622 | for every `#rrggbb` colour, the text is dark exactly when 299 r + 587 g + 114 b > 150000 |
| Colors.DefaultFillsTakeDarkText | chart-renderer.js:489-523 | both default fills, #b9c2d0 and #dde6f6, carry dark text |
| Colors.MixDarkens | chart-renderer.js:613 | darkening by an amount in [0, 1] keeps a channel between 0 and its value |
| Colors.Darkened | chart-renderer.js:613 | a darkened channel is the nearest integer to channel * (1 - amount), and lies between 0 and the channel |
| Colors.RgbTextOfChannels | chart-renderer.js:613-614 | the rgb() text of a colour is its three darkened channels in decimal, separated by ", " |
| Colors.DarkenHexColor | chart-renderer.js:610-615 | darkenColor on every `#rrggbb` colour with an amount in [0, 1] is `rgb(r', g', b')`, each channel rounded from channel * (1 - amount) and between 0 and the original |
| Colors.NatTextRoundTrip | chart-renderer.js:614 | the decimal text of a channel reads back as its value |
| ColorIndex.ToEntry | chart-renderer.js:651-655 | an index entry runs from the older bound to the younger bound, and has a non-empty colour |
| ColorIndex.Entries | chart-renderer.js:651-655 | the map makes one entry per kept item |
| ColorIndex.GeoColorIndexMembers | chart-renderer.js:648-657 | the index holds exactly the entries of the coloured Age/Stage items |
| ColorIndex.EntryOfKept | chart-renderer.js:648-657 | every coloured Age/Stage item has its entry in the index |
| ColorIndex.KeptOfEntry | chart-renderer.js:648-657 | every entry of the index comes from a coloured Age/Stage item |
| ColorIndex.GeoColorIndexShape | chart-renderer.js:648-657 | the index is a permutation of those entries, ascends by the younger bound, and keeps the input order among entries with equal younger bounds |
| ColorIndex.GeoColorIndexEntries | chart-renderer.js:651-655 | every entry of the index has start >= end and a non-empty colour |
| ColorIndex.ResolveGeoColor | chart-renderer.js:659-668 | the lookup gives null exactly for an empty index, and otherwise the colour of some entry |
| ColorIndex.ResolvePriority | chart-renderer.js:659-668 | the first entry containing the midpoint (within 1e-6) wins; failing that, the first entry the item meets; failing both, the last entry |
| ColorIndex.ResolveSwap | chart-renderer.js:661-666 | the lookup does not depend on the order of the item's start and end |
| ColorIndex.ResolveContained | chart-renderer.js:661-663 | when every entry containing the midpoint has the same colour, and one does, that colour is the answer |
| ColorIndex.ResolveWithinAge | chart-renderer.js:648-668 | a biozone whose midpoint lies in coloured ages of a single colour takes that colour |
| ColorIndex.ResolvedColorIsTruthy | chart-renderer.js:648-668 | every colour resolved from a built index is non-empty, so the default biozone fill is used only when the index is empty |
| Columns.BiozoneLabel | chart-renderer.js:15-21 | every biozone column has a non-empty heading |
| Columns.BiozoneColumns | chart-renderer.js:337-341 | the loop pushes at most one column per scheme |
| Columns.BiozoneColumnsShape | chart-renderer.js:337-341 | the pushed columns are the selected schemes in loop order, each a biozone column with its label |
| Columns.AppendedColumns | chart-renderer.js:333-342 | the base columns come first, unchanged, followed by the columns of the selected schemes |
| Columns.AppendedColumnFor | chart-renderer.js:337-340 | a scheme has a pushed column exactly when it is in the loop's list and selected |
| Columns.ColumnDefinitions | chart-renderer.js:333-343 | the definitions are the six base columns, then one 180 px biozone column per selected scheme, in the order nalma, salma, elma, mp, alma; a scheme has a column exactly when it is selected |
| Layout.GetBoxPosition | chart-renderer.js:542-555 | the box starts at the smaller of its two offsets and covers both of them; its height is at least the mode's minimum (8 px proportional, 2 px otherwise); its height is either the distance between the offsets or that minimum |
| Layout.BoxPositionSwap | chart-renderer.js:542-555 | swapping start and end yields the same box |
| Layout.TimeToYOfClamped | chart-renderer.js:543-546 | clamping before timeToY changes nothing once the window is at least 1e-9 wide |
| Layout.BoxOnOwnWindow | chart-renderer.js:542-555 | on the scale's own window, the box runs from the smaller timeToY offset, with height max(\|yEnd - yStart\|, minimum) |
| Layout.ProportionalBoxTop | chart-renderer.js:542-555 | in proportional mode every box starts inside the drawable band below the top padding |
| Layout.CenozoicScale | chart-renderer.js:391-437 | the 0-66 Ma proportional chart is 2970 px high, with a drawable height of 2938 px |
| Layout.PaleogeneBox | chart-renderer.js:542-555 | on that chart the Paleogene (66-23 Ma) box starts at 12 + 23/66 * 2938 px and runs down to the bottom border, the line of 66 Ma nudged 1e-9 inward |
| Layout.ZIndex | chart-renderer.js:487 | the z-index is the RANK_Z_INDEX value of a listed rank, and 30 for a missing rank or a rank the table lacks; it is always positive |
| Layout.ZIndexByColumn | chart-renderer.js:45-56 | every rank an ICS column draws is in RANK_Z_INDEX, and a column to the right stacks strictly above every column to its left |
| Layout.IcsSelection | chart-renderer.js:478-479 | the ICS column draws exactly the visible items with a rank among its ranks, each as often as it occurs, ascending by start, ties in input order |
| Layout.BiozoneSelection | chart-renderer.js:510-511 | a biozone column draws exactly its visible items, each as often as it occurs, ascending by start, ties in input order |
| Layout.Label | chart-renderer.js:495 | a box label is never empty: the item's label, or an em dash |
| Layout.IcsBoxes | chart-renderer.js:481-503 | the boxes of an ICS column are one per item |
| Layout.IcsBoxesAt | chart-renderer.js:481-503 | the i-th box is the box of the i-th item: position, z-index, fill, text colour and label |
| Layout.RenderIcsColumn | chart-renderer.js:476-504 | the loop draws the boxes of the selected items, in drawing order |
| Layout.BiozoneBoxes | chart-renderer.js:513-535 | the boxes of a biozone column are one per item |
| Layout.BiozoneBoxesAt | chart-renderer.js:513-535 | the i-th box is the box of the i-th item: position, resolved fill, darkened border, text colour and label |
| Layout.RenderBiozoneColumn | chart-renderer.js:506-536 | the loop draws the boxes of the selected items, in drawing order |
| Layout.IcsBoxColors | chart-renderer.js:487-495 | an ICS box is filled with the item's colour when it has one, and otherwise with #b9c2d0 and dark text; its text colour is one of the two |
| Layout.BiozoneBoxColors | chart-renderer.js:520-527 | a biozone box takes the resolved colour whenever the index is non-empty, and #dde6f6 with dark text otherwise |
| Layout.BiozoneBoxBorder | chart-renderer.js:520-523 | the text colour is one of the two; the border is an rgb() darkening of the fill when the fill parses, and the fill itself otherwise |
| TimeAxis.ChooseInterval | chart-renderer.js:582-588 | the tick step is one of 1, 2, 5, 10 and 20 Ma |
| TimeAxis.ChooseIntervalMonotone | chart-renderer.js:582-588 | a wider window never gets a finer step |
| TimeAxis.ChooseIntervalDensity | chart-renderer.js:582-588 | a window of at least 1 Ma has a step no longer than itself; a window up to 150 Ma has at most 16 steps |
| TimeAxis.MajorTicks | chart-renderer.js:447-462 | the ticks are exactly min, min + step, ... below `max - 1e-9`; each line sits at its timeToY offset, and the label of the 0 Ma tick is 6 px lower |
| TimeAxis.TicksWithinBorders | chart-renderer.js:464-473 | in proportional mode every tick line lies between the two axis borders, strictly above the bottom one |
| Prefixes.DeclaresIffRegex | chart-renderer.js:116-117 | the direct declaration test agrees with the regular expression `@prefix\s+key:` (flag i) for every key that does not start with white space |
| Prefixes.DeclaredMatches | chart-renderer.js:116-117 | a direct declaration is a match of the regular expression |
| Prefixes.RegexDeclares | chart-renderer.js:116-117 | a match of the regular expression is a direct declaration, for a key that does not start with white space |
| Prefixes.CollectMissing | chart-renderer.js:114-118 | the loop collects exactly the prefixes the text does not declare, in table order |
| Prefixes.EnsurePrefixes | chart-renderer.js:103-123 | the procedure returns the repaired text that WithPrefixes specifies |
| Prefixes.LineDeclares | chart-renderer.js:121 | each generated `@prefix key: <iri> .` line declares its own prefix |
| Prefixes.DeclaredAfterHead | chart-renderer.js:122 | a declaration in the text survives when lines are put in front of it |
| Prefixes.RepairDeclaresAll | chart-renderer.js:114-122 | after the repair the text declares every prefix of the table |
| Prefixes.NoneMissing | chart-renderer.js:114-120 | a text that declares every prefix has nothing missing |
| Prefixes.RepairIdempotent | chart-renderer.js:114-122 | the repair is idempotent, and only adds lines in front: the text is a suffix of the result, and is returned unchanged when nothing is missing |
| Prefixes.RequiredKeysPlain | chart-renderer.js:104-112 | no required key starts with white space |
| Prefixes.WithPrefixesDeclaresAll | chart-renderer.js:103-123 | after ensurePrefixes the text declares all seven required prefixes |
| Prefixes.WithPrefixesIdempotent | chart-renderer.js:103-123 | ensurePrefixes is idempotent and only adds lines in front, leaving a fully declared text unchanged |
| Prefixes.MissingExact | chart-renderer.js:114-118 | a required prefix gets a new line exactly when the text does not declare it |

## Left out

- Fetching and TTL parsing are not modelled: fetchText, parseTTL and the item extraction do network I/O and call the N3.js library. The renderer receives only items that have both a start and an end, so `Item` has plain real bounds.
- DOM work is not modelled. This covers creating elements, styles and innerHTML, the header's `left` accumulation, the loading and error overlays, reading the form controls (getTimeRange, getSelectedSources), event wiring, printing and export. The column renderers return the values they would write into the DOM, as box records.
- The module state `parsedData` and `currentScaleMode` is UI session state, and is left out. The window, the mode and the items are parameters.
- Math.log has no counterpart over the reals. It is the parameter `ln` of the logarithmic scale. Its bounds and monotonicity are proved for any strictly increasing `ln`.
- Characters outside the Basic Multilingual Plane are not modelled as JavaScript sees them. JavaScript counts and indexes UTF-16 code units, but the model counts code points. For example, "#😀a" is a 3-unit string that hexToRgb parses, while in the model it has 2 characters and is rejected.
- Floating point is not modelled: all arithmetic is exact over the reals. The rounding of 1e-9 near large values and NaN from arithmetic (as opposed to NaN from parseInt) are outside the model.
- toFixed formatting of tooltips and tick labels is left out, since it formats numbers only for display. So are the tick label texts and console.warn. `DetectTinyOverlaps` returns the list that would be printed.
- Sequences.SortBy: Array.prototype.sort sorts `relevant` in place. The model gives the sorted array as a new value, specified as the stable ascending sort, which is what the numeric comparators produce. It does not model the in-place update or the engine's sorting algorithm.
- null and undefined for whole arrays are not modelled: `(icsItems || [])` and `!index`. Item lists and the index are always sequences, and an empty one stands in for a missing one.
- The RANK_Z_INDEX lookup for a rank that names an inherited property of Object.prototype (such as "constructor") is not modelled. The model treats every rank outside the table as absent.
- RANK_COLUMN_KEY and the PREFIXES table are declared but never used by the engine, so they are not modelled.
- ScaleEngine.EqualSlots: the slot-per-age layout is proved for items with pairwise distinct ids, as the items of one source are distinct concepts. With repeated ids, the Map keeps one slot per id (modelled by `SetBoundary`), but no layout property is stated for that case.
- ScaleEngine.LogBounds: the logarithmic timeToY is bounded and increasing only when the logarithm is strictly increasing and the window lies above -0.05 Ma. Outside that range, Math.log returns NaN or -Infinity, which the model does not represent.
