# Suitability dashboard core, modelled in Dafny

The dashboard shows crop-suitability rasters on a map and a bar chart of
mean suitability per department. Two client-side pipelines hold its logic,
and this project models both.

- **The overlay pipeline** (`src/js/geotiff_vis.js`):
  - the two six-stop colour tables and `interpolateColor` (clamp, bracket
    scan, per-channel interpolation with `Math.round`, fade-in alpha);
  - the stride-4 pixel loop of `colorizePNG`, which rewrites an RGBA buffer
    in place;
  - the per-pixel colour callback of the GeoTIFF layer;
  - the static legend;
  - the map state: the lazily created map, the single overlay slot
    (`currentLayer`) and the single legend slot (`legend`), as changed by
    `loadColorizedOverlay`, `initializeMap`, `updateLayer` and `addLegend`.
- **The chart pipeline** (`src/js/suitability_chart.js`):
  - the CSV parsing of `initSuitabilityChart`;
  - the computation in `updateSuitabilityChart`: filter by crop and
    scenario, group by department and period (the last row wins), the
    sorted list of distinct periods, the stable descending department order,
    one series per period with a cycling palette, and the title.

Modules, one per file:

| file | module | models |
|---|---|---|
| `js_values.dfy` | `JsValues` | `undefined`, `parseFloat` results (NaN or a number), thrown errors, property-key conversion |
| `strings.dfy` | `Strings` | `trim`, `split`/`join` on one character, `endsWith`, the default string order of `sort()`, ASCII `toUpperCase` |
| `color_ramp.dfy` | `ColorRamp` | the colour tables, `interpolateColor`, the legend levels |
| `png_colorize.dfy` | `PngColorize` | the pixel loop of `colorizePNG`, on an `array` of bytes |
| `geotiff_color.dfy` | `GeoTiffColor` | `pixelValuesToColorFn` |
| `map_view.dfy` | `MapView` | class `MapState`: the map, overlay and legend slots and the four operations |
| `csv.dfy` | `Csv` | CSV text to records |
| `chart.dfy` | `Chart` | the chart computation, and class `SuitabilityChart` for the loaded data and the option shown |

Modelling choices:

- **Numbers.** JavaScript numbers are reals, and `Math.round(x)` is
  `floor(x + 1/2)`. A parsed `mean_value` is `NaN` or a finite number, and
  `parseFloat` is a function parameter.
- **Colours** are returned as `(r, g, b)` plus an alpha. The `rgba(...)`
  text and its regex re-parse are not modelled.
- **The outside world is a set of inputs.** Each operation takes the
  world's answers as parameters:
  - the answer of the HEAD probe (`found`);
  - the decoded pixel buffer, or the decoder's error;
  - the result of fetching and parsing a GeoTIFF;
  - the CSV text;
  - the radio selection, as `Option<string>`: `null` in the overlay path,
    `undefined` in the chart.
- **Ramp flag.** A true flag selects the suitability table in both
  `interpolateColor` (parameter `is_diff`, `src/js/geotiff_vis.js:25-32`)
  and `addLegend` (parameter `is_suit`, `src/js/geotiff_vis.js:191-233`).
  Both call sites pass `true` (`src/js/geotiff_vis.js:174` and `:179`), so
  the overlay and its legend always use the same table. The model names the
  flag `useSuit` throughout.
- **Legend colours.** The legend shows the colours of stops 0, 1, 2, 3 and
  5 of the table (`src/js/geotiff_vis.js:203-207`); the colour of stop 4 is
  never shown.
- **PNG decode failure.** A failed decode is not alerted: the rejection
  propagates out of `loadColorizedOverlay` and out of `updateLayer`. By then
  the old overlay is already removed, and the legend is left untouched
  (outcome `PngFailed`).
- **Absent values as text.** A radio selection with nothing checked is
  `null` in the overlay path (`getSelectedValue`) and `undefined` in the
  chart (`?.value`); a missing CSV cell is `undefined`. `JsValues.JsString`
  is the one conversion to text used for template strings and object keys,
  told which of the two absent values applies.
- **Chart with no crop selected.** When no crop radio is checked, a record
  with no `crop` cell matches if its `ssp` also equals the selected scenario
  (both undefined, or the same string). When some record matches this way,
  `crop.charAt` throws before any option is set; `ChartFor` returns `None` for this case and the
  chart keeps what it showed.

## Model

| member | source | states |
|---|---|---|
| ColorRamp.Ramp | src/js/geotiff_vis.js:25-32 | a true flag selects the suitability table, a false flag the difference table; both satisfy the ramp invariant (values 0..100 strictly ascending, channels 0..255) |
| ColorRamp.TablesAreValid | src/js/geotiff_vis.js:6-22 | both fixed tables start at 0, end at 100, are strictly ascending and hold valid RGB channels |
| ColorRamp.Clamp | src/js/geotiff_vis.js:33 | the clamped value lies in [0,100] and values already in range are unchanged |
| ColorRamp.FindBracket | src/js/geotiff_vis.js:34-41 | the scan returns the first index whose pair of stops brackets the value, and for a value in range some pair always brackets it |
| ColorRamp.RampColor | src/js/geotiff_vis.js:33-46 | for any input the colour has channels in 0..255 and an alpha in [0,1] |
| ColorRamp.InterpolateColor | src/js/geotiff_vis.js:25-47 | interpolateColor yields valid RGB channels and an alpha in [0,1] for every real input |
| ColorRamp.ClampedInputs | src/js/geotiff_vis.js:33 | inputs below 0 colour like 0, and inputs above 100 colour like 100 |
| ColorRamp.FallbackUnreachable | src/js/geotiff_vis.js:34-46 | for every real input the scan finds a bracket, so the fallback return is never reached |
| ColorRamp.BracketAtStop | src/js/geotiff_vis.js:34-37 | at a stop's value the scan stops at the pair ending at that stop (the pair starting there for stop 0) |
| ColorRamp.ColorAtStop | src/js/geotiff_vis.js:37-41 | at each stop value the colour is exactly that stop's colour, also on shared boundaries where t = 1 |
| ColorRamp.ColorBetweenStops | src/js/geotiff_vis.js:37-41 | between two stops every channel lies between those stops' channels |
| ColorRamp.LerpInRange | src/js/geotiff_vis.js:38-41 | the interpolated colour of a bracketing pair lies channel-wise between its two stop colours |
| ColorRamp.LerpAtEnds | src/js/geotiff_vis.js:38-41 | interpolation at the low end gives the low colour and at the high end the high colour |
| ColorRamp.ChannelBetween | src/js/geotiff_vis.js:39-41 | a rounded interpolated channel with t in [0,1] lies between its two end channels |
| ColorRamp.RoundMonotone | src/js/geotiff_vis.js:39-41 | Math.round is monotone |
| ColorRamp.RoundOfInteger | src/js/geotiff_vis.js:39-41 | Math.round leaves integers unchanged |
| ColorRamp.AlphaRule | src/js/geotiff_vis.js:42 | alpha is 0.02*val (below 0.4) for val in [0,20), 0 for val <= 0, and exactly 1 for val >= 20 |
| ColorRamp.LegendShowsStops | src/js/geotiff_vis.js:200-218 | the legend has five levels whose colours are stops 0, 1, 2, 3 and 5 of the table the same flag selects; no level shows stop 4 |
| PngColorize.Colorized | src/js/geotiff_vis.js:74-91 | recolouring keeps the buffer length |
| PngColorize.ColorizePixelAt | src/js/geotiff_vis.js:75-90 | one iteration rewrites exactly the four bytes of its pixel and leaves the rest of the buffer unchanged |
| PngColorize.ColorizeBuffer | src/js/geotiff_vis.js:74-91 | the loop leaves the buffer equal to the pixel-by-pixel recolouring of its old contents |
| PngColorize.ColorizedAppend | src/js/geotiff_vis.js:74-91 | recolouring distributes over concatenation of whole pixels |
| PngColorize.ColorizedPixelAt | src/js/geotiff_vis.js:74-91 | the pixel at byte i of the result is the recoloured pixel at byte i of the input |
| PngColorize.MapPixelsStep | src/js/geotiff_vis.js:74-91 | rewriting the pixel at byte i extends the walked prefix by exactly that pixel (the loop step, for any size-keeping pixel function) |
| PngColorize.MapPixelsLength | src/js/geotiff_vis.js:74-91 | a pixel walk with a size-keeping pixel function keeps the buffer length |
| PngColorize.MapPixelsAppend | src/js/geotiff_vis.js:74-91 | a pixel walk distributes over concatenation of whole pixels |
| PngColorize.MapPixelsAt | src/js/geotiff_vis.js:74-91 | the pixel at byte i of a walked buffer is the pixel function applied to the pixel at byte i |
| PngColorize.PixelRule | src/js/geotiff_vis.js:75-90 | grey 0 keeps bytes 0-2 and gets alpha 0; any other grey gets the ramp colour of gray/255*100, with alpha byte 2*gray up to 50 and 255 from 51 |
| PngColorize.AlphaOfGray | src/js/geotiff_vis.js:83-90 | the alpha byte round((alpha or 1)*255) is 2*gray for grey 1..50 and 255 for grey >= 51 |
| PngColorize.OnlyGrayIsRead | src/js/geotiff_vis.js:75-84 | only the first byte of a pixel decides its colour |
| GeoTiffColor.PixelValuesToColor | src/js/geotiff_vis.js:130-136 | a colour is returned exactly when the first band value is a number above -1 or +Infinity (undefined, null, NaN and -Infinity give none), and it is then a valid colour |
| GeoTiffColor.ColorOfBand | src/js/geotiff_vis.js:130-136 | values in (-1,0) get the first stop's colour with alpha 0; values in [0,100] get interpolateColor of the value itself; values above 100 and +Infinity get the last stop's colour, fully opaque |
| GeoTiffColor.TopColor | src/js/geotiff_vis.js:33-44 | the top of the scale, 100, gets the last stop's colour, fully opaque |
| MapView.LayerPathIsPng | src/js/geotiff_vis.js:170 | every path updateLayer builds ends in ".png" and in neither ".tif" nor ".tiff", so it always takes the PNG branch |
| MapView.MapState.constructor | src/js/geotiff_vis.js:1-3 | initially there is no map, both slots are empty and there are no alerts |
| MapView.MapState.InitializeMap | src/js/geotiff_vis.js:150-157 | afterwards the map exists; a second call changes nothing; slots and alerts are unchanged |
| MapView.MapState.RemoveCurrentLayer | src/js/geotiff_vis.js:103-106 | the overlay slot is empty and no overlay is attached; the legend is unchanged |
| MapView.MapState.AttachLayer | src/js/geotiff_vis.js:116 | the new layer fills the overlay slot and is the only overlay attached |
| MapView.MapState.LoadColorizedOverlay | src/js/geotiff_vis.js:97-148 | a missing file alerts "File not found: " + url and keeps the old layer; otherwise the old layer is removed first; a PNG ends with one new overlay of the recoloured buffer, or with none when decoding fails; a GeoTIFF ends with one new raster layer, or with none and the alert "Error loading GeoTIFF file: " + message; any other URL ends with no layer; at most one overlay and one legend stay attached |
| MapView.MapState.AddLegend | src/js/geotiff_vis.js:191-233 | the old legend is detached and exactly one new legend for the flag is attached; the overlay is unchanged |
| MapView.MapState.UpdateLayer | src/js/geotiff_vis.js:164-180 | the map exists afterwards; a missing file keeps the layer, alerts and attaches a new suitability legend; a decoded PNG becomes the single overlay, recoloured with the suitability ramp, followed by a new suitability legend; a decoding failure leaves no overlay and the old legend |
| MapView.MapState.RemoveLegend | src/js/geotiff_vis.js:175-178 | the legend slot is empty and no legend is attached; the overlay, alerts and identities are unchanged |
| MapView.UpdateLayerRampAgreesWithLegend | src/js/geotiff_vis.js:174-179 | the legend updateLayer attaches is the "Suitability" legend, whose colours are stops of the same table the overlay was coloured with |
| JsValues.JsStringCollisions | src/js/suitability_chart.js:52-53 | two values become the same object key exactly when they are equal, or when one is absent and the other is the string naming the absent value ("undefined"), so a department literally called "undefined" shares the bucket of rows with no department |
| Strings.TrimStartSpec | src/js/suitability_chart.js:15 | the left trim keeps a suffix not starting with white space, and only white space is cut off |
| Strings.TrimEndSpec | src/js/suitability_chart.js:15 | the right trim keeps a prefix not ending with white space, and only white space is cut off |
| Strings.TrimSpec | src/js/suitability_chart.js:15 | trim keeps an infix that neither starts nor ends with white space, and everything cut off on either side is white space |
| Strings.TrimIdempotent | src/js/suitability_chart.js:20 | trimming twice equals trimming once |
| Strings.Split | src/js/suitability_chart.js:15 | a text with c separators splits into c + 1 separator-free parts that join back to the text |
| Strings.SplitJoin | src/js/suitability_chart.js:15 | splitting a join of separator-free parts gives the parts back |
| Strings.SplitUnique | src/js/suitability_chart.js:15 | split is the only separator-free decomposition that joins to the text |
| Strings.SplitNoSep | src/js/suitability_chart.js:15 | a text without the separator splits into itself |
| Strings.LexLessIrreflexive | src/js/suitability_chart.js:57 | the default sort order is irreflexive |
| Strings.LexLessAsymmetric | src/js/suitability_chart.js:57 | the default sort order is asymmetric |
| Strings.LexLessTransitive | src/js/suitability_chart.js:57 | the default sort order is transitive |
| Strings.LexLessTotal | src/js/suitability_chart.js:57 | any two different strings are ordered one way or the other |
| Strings.UpperChar | src/js/suitability_chart.js:77 | the result is never a lower-case letter, and a character changes exactly when it is a lower-case letter (to its capital) |
| Strings.UpperCharIdempotent | src/js/suitability_chart.js:77 | upper-casing twice equals upper-casing once |
| Strings.Capitalize | src/js/suitability_chart.js:77 | same length; the result never starts with a lower-case letter, and it differs from the input exactly when the input starts with one |
| Strings.CapitalizeIdempotent | src/js/suitability_chart.js:77 | capitalising a capitalised title text changes nothing |
| Csv.ParseCsv | src/js/suitability_chart.js:15-23 | one record per line after the header, and record i is built from the header line and line i + 1, both split on every comma |
| Csv.BuildRecord | src/js/suitability_chart.js:19-22 | the row object built by the header loop is the record of the header and the cells |
| Csv.ParseSummary | src/js/suitability_chart.js:15-23 | the parse as written, with shift and map, gives exactly ParseCsv |
| Csv.FieldKeys | src/js/suitability_chart.js:20 | a record's keys are exactly the trimmed headers |
| Csv.LastHeaderWins | src/js/suitability_chart.js:20 | a key holds the trimmed cell of the last header that trims to it, or undefined when the line is shorter |
| Csv.EveryCommaSplits | src/js/suitability_chart.js:15 | the instance of `Strings.Split` with separator `,` that `line.split(",")` uses: with no quoting, a line with c commas has c + 1 cells that rebuild the line |
| Chart.Filter | src/js/suitability_chart.js:37-39 | the filtered rows are exactly the rows whose crop and ssp equal the selection; the period plays no part |
| Chart.FilterAppend | src/js/suitability_chart.js:37-39 | filtering distributes over concatenation, so the original order is kept |
| Chart.Distinct | src/js/suitability_chart.js:57 | the result has no duplicates and exactly the elements of the input |
| Chart.DeptKeysMembers | src/js/suitability_chart.js:51-52 | the department keys of the rows are exactly the departments some row names |
| Chart.GroupByDepartment | src/js/suitability_chart.js:50-54 | the grouping loop builds exactly GroupRows of the rows |
| Chart.GroupRowsSpec | src/js/suitability_chart.js:50-54 | the grouped keys are the distinct department keys in first-appearance order, each with an entry, and grouped[dep][p] is the value of the last row with that department and period |
| Chart.GroupRowsKeys | src/js/suitability_chart.js:51-53 | the grouped keys are the distinct department keys in first-appearance order, and exactly those keys have an entry |
| Chart.GroupRowsLookup | src/js/suitability_chart.js:51-54 | grouped[dep][p] is the value of the last row with that department and period, and absent when there is none |
| Chart.LastValueIsLast | src/js/suitability_chart.js:53 | the value stored for a department and period is that of the last row with them |
| Chart.LastValueAbsent | src/js/suitability_chart.js:51-53 | no value is stored for a department and period exactly when no row has them |
| Chart.PeriodBeforeIsStrictTotal | src/js/suitability_chart.js:57 | the period order (strings first, undefined last) is a strict total order |
| Chart.InsertPeriodSorted | src/js/suitability_chart.js:57 | inserting a new period into a strictly ascending list keeps it strictly ascending and adds exactly that period |
| Chart.SortPeriodsSpec | src/js/suitability_chart.js:57 | sorting a duplicate-free list gives a strictly ascending permutation of it |
| Chart.PeriodsSpec | src/js/suitability_chart.js:57 | the period list is duplicate-free, strictly ascending, and holds exactly the periods of the filtered rows |
| Chart.InsertDeptElements | src/js/suitability_chart.js:60-64 | inserting a department adds exactly that department |
| Chart.InsertDeptSorted | src/js/suitability_chart.js:60-64 | inserting into a descending list keeps it descending |
| Chart.InsertDeptStable | src/js/suitability_chart.js:60-64 | an inserted department goes in front of those with an equal key |
| Chart.SortDeptsSpec | src/js/suitability_chart.js:60-64 | the department order is a permutation, non-increasing in the value at the current period, and stable for each key value |
| Chart.SortedDepartments | src/js/suitability_chart.js:60-64 | sorting duplicate-free keys lists each key once, non-increasing, and equal keys in input order |
| Chart.SortKeyIsOrderValue | src/js/suitability_chart.js:61-62 | the sort value of a department is its last value at the period, with an absent, NaN or 0 value as 0 |
| Chart.BuildSeries | src/js/suitability_chart.js:67-73 | one series per period |
| Chart.ChartEmptyCase | src/js/suitability_chart.js:41-47 | the "No data available for this combination" state, with no series, is shown exactly when no record matches crop and ssp; the update throws exactly when records match while no crop is selected |
| Chart.ChartDepartments | src/js/suitability_chart.js:50-64 | the department axis lists each department of the filtered rows once, by last value at the selected period, largest first, with ties in first-appearance order |
| Chart.ChartSeries | src/js/suitability_chart.js:66-110 | the title is Title(crop, ssp); one series per period in period order, coloured palette[i % 4], each holding per department the last value of that department and period, or 0 only when there is none (a NaN is kept) |
| Chart.TitleShape | src/js/suitability_chart.js:77 | the title is the crop with its first character upper-cased, " \| ", then the ssp ("undefined" when none) |
| Chart.FirstIndex | src/js/suitability_chart.js:60-64 | the first position of an element, or the length when it is absent |
| Chart.PermutationOfDistinct | src/js/suitability_chart.js:60-64 | a permutation of duplicate-free keys is duplicate-free |
| Chart.StableOrder | src/js/suitability_chart.js:60-64 | in a stable sort, two departments with equal keys keep their input order |
| Chart.DistinctOrder | src/js/suitability_chart.js:51-52 | grouping keeps keys in the order of their first appearance among the rows |
| Chart.SuitabilityChart.constructor | src/js/suitability_chart.js:5-6 | no data is loaded and the chart is blank |
| Chart.SuitabilityChart.Update | src/js/suitability_chart.js:29-114 | nothing changes while no data is loaded or when the update throws; otherwise the option becomes ChartFor of the data and the selection; the data are never changed |
| Chart.SuitabilityChart.Load | src/js/suitability_chart.js:8-26 | the data become the parse of the CSV text, and the chart is then updated once |
| JsValues.JsString | src/js/suitability_chart.js:52-53 | no contract; `String(v)` / `${v}` / object-key conversion, with an absent value spelled "undefined" or "null"; its meaning is stated by JsStringCollisions |
| Strings.TrimStart | src/js/suitability_chart.js:15 | no contract; the leading-whitespace half of `trim()`; its meaning is stated by TrimStartSpec |
| Strings.IsSpace | src/js/suitability_chart.js:15 | no contract; the white space and line terminators `trim` removes; its meaning is stated by TrimStartSpec, TrimEndSpec and TrimSpec |
| Strings.TrimEnd | src/js/suitability_chart.js:15 | no contract; the trailing-whitespace half of `trim()`; its meaning is stated by TrimEndSpec |
| Strings.Trim | src/js/suitability_chart.js:15 | no contract; `String.prototype.trim`; its meaning is stated by TrimSpec and TrimIdempotent |
| Strings.Join | src/js/suitability_chart.js:15 | no contract; the inverse of `split`; its meaning is stated by SplitJoin and SplitUnique |
| Strings.EndsWith | src/js/geotiff_vis.js:170 | no contract; the test `path.endsWith(".png")` made of the overlay path; its meaning is stated by LayerPathIsPng |
| Strings.LexLess | src/js/suitability_chart.js:57 | no contract; the code-unit order of the default `sort()`; its meaning is stated by LexLessIrreflexive, LexLessAsymmetric, LexLessTransitive and LexLessTotal |
| Csv.Lines | src/js/suitability_chart.js:15 | no contract; `csvText.trim().split("\n")`; its meaning is stated by ParseCsv, TrimSpec and Split |
| Csv.Get | src/js/suitability_chart.js:38 | no contract; a property read such as `d.crop`, `d.ssp`, `d.DEPTO` or `d.period`, undefined when the cell is missing; its meaning is stated by LastHeaderWins and FieldKeys |
| Csv.Cell | src/js/suitability_chart.js:20 | no contract; `r[i]?.trim()`, undefined past the end of the row; its meaning is stated by BuildRecord and LastHeaderWins |
| Csv.FieldsUpTo | src/js/suitability_chart.js:20 | no contract; the fields written by the first n steps of `headers.forEach`; its meaning is stated by FieldKeys, LastHeaderWins and BuildRecord |
| Csv.MeanValue | src/js/suitability_chart.js:21 | no contract; `parseFloat(obj.mean_value)` with the parser as a parameter; its meaning is stated by ParseCsv and BuildRecord |
| Csv.MakeRecord | src/js/suitability_chart.js:18-22 | no contract; the object built for one row; its meaning is stated by BuildRecord, FieldKeys and LastHeaderWins |
| Chart.Matches | src/js/suitability_chart.js:38 | no contract; `d.crop === crop && d.ssp === ssp`; its meaning is stated by Filter and FilterAppend |
| Chart.DeptKey | src/js/suitability_chart.js:52 | no contract; `d.DEPTO` used as the key of `grouped`; its meaning is stated by JsStringCollisions and DeptKeysMembers |
| Chart.DeptKeys | src/js/suitability_chart.js:51-52 | no contract; the department key of each row, in row order; its meaning is stated by DeptKeysMembers and DistinctOrder |
| Chart.PeriodKey | src/js/suitability_chart.js:53 | no contract; `d.period` used as the key inside a department's bucket; its meaning is stated by JsStringCollisions and GroupRowsLookup |
| Chart.Lookup | src/js/suitability_chart.js:61-62 | no contract; `grouped[dep][p]`, absent when either key is; its meaning is stated by GroupRowsLookup and LastValueAbsent |
| Chart.PeriodOf | src/js/suitability_chart.js:57 | no contract; `d.period`, the value each row contributes to the period list; its meaning is stated by PeriodsSpec |
| Chart.PeriodsOf | src/js/suitability_chart.js:57 | no contract; `filtered.map(d => d.period)`; its meaning is stated by PeriodsSpec |
| Chart.Palette | src/js/suitability_chart.js:108 | no contract; the four series colours; their use is stated by ChartSeries (series i gets `Palette[i % 4]`) |
| Chart.NoDataTitle | src/js/suitability_chart.js:44 | no contract; the title of the empty chart; its use is stated by ChartEmptyCase |
| Chart.AddRow | src/js/suitability_chart.js:51-54 | no contract; one step of the grouping `forEach`; its meaning is stated by GroupRowsKeys and GroupRowsLookup |
| Chart.GroupRows | src/js/suitability_chart.js:50-54 | no contract; the `grouped` object; its meaning is stated by GroupRowsSpec, GroupRowsKeys, GroupRowsLookup and LastValueIsLast |
| Chart.PeriodBefore | src/js/suitability_chart.js:57 | no contract; the default `sort()` order on periods, undefined last; its meaning is stated by PeriodBeforeIsStrictTotal |
| Chart.InsertPeriod | src/js/suitability_chart.js:57 | no contract; one insertion of the period sort; its meaning is stated by InsertPeriodSorted |
| Chart.SortPeriods | src/js/suitability_chart.js:57 | no contract; `[...].sort()` on the distinct periods; its meaning is stated by SortPeriodsSpec |
| Chart.Periods | src/js/suitability_chart.js:57 | no contract; the sorted distinct periods of the filtered rows; its meaning is stated by PeriodsSpec |
| Chart.SortKey | src/js/suitability_chart.js:61-62 | no contract; the value of a department at the selected period, 0 when that value is falsy (absent, NaN or 0); its meaning is stated by SortKeyIsOrderValue |
| Chart.InsertDept | src/js/suitability_chart.js:60-64 | no contract; one insertion of the stable descending sort; its meaning is stated by InsertDeptElements, InsertDeptSorted and InsertDeptStable |
| Chart.SortDepts | src/js/suitability_chart.js:60-64 | no contract; the department order; its meaning is stated by SortDeptsSpec, SortedDepartments and StableOrder |
| Chart.CellValue | src/js/suitability_chart.js:70 | no contract; `grouped[dep][p] ?? 0`; its meaning is stated by BuildSeries and ChartSeries |
| Chart.Title | src/js/suitability_chart.js:77 | no contract; the title template; its meaning is stated by TitleShape, Capitalize and JsStringCollisions |
| Chart.ChartFor | src/js/suitability_chart.js:36-111 | no contract; the option `updateSuitabilityChart` sets; its meaning is stated by ChartEmptyCase, ChartDepartments and ChartSeries |
| ColorRamp.Round | src/js/geotiff_vis.js:39-41 | no contract; `Math.round` as `floor(x + 1/2)`; its meaning is stated by RoundOfInteger and RoundMonotone |
| ColorRamp.Min | src/js/geotiff_vis.js:33 | no contract; `Math.min` on finite numbers; its meaning is stated by Clamp |
| ColorRamp.Max | src/js/geotiff_vis.js:33 | no contract; `Math.max` on finite numbers; its meaning is stated by Clamp |
| ColorRamp.Brackets | src/js/geotiff_vis.js:37 | no contract; the test `val >= low.value && val <= high.value`; its meaning is stated by FindBracket, BracketAtStop and FallbackUnreachable |
| ColorRamp.Channel | src/js/geotiff_vis.js:39-41 | no contract; one rounded channel between two stops; its meaning is stated by ChannelBetween |
| ColorRamp.Lerp | src/js/geotiff_vis.js:38-41 | no contract; the interpolated colour between two stops; its meaning is stated by LerpInRange, LerpAtEnds, ColorAtStop and ColorBetweenStops |
| ColorRamp.Alpha | src/js/geotiff_vis.js:42 | no contract; `val < 20 ? 0.02 * val : 1`; its meaning is stated by AlphaRule |
| ColorRamp.LegendName | src/js/geotiff_vis.js:199-201 | no contract; the legend heading "Suitability" or "Percentage difference" |
| ColorRamp.LegendLevels | src/js/geotiff_vis.js:202-218 | no contract; the five legend entries; its meaning is stated by LegendShowsStops |
| PngColorize.GrayToValue | src/js/geotiff_vis.js:83 | no contract; `(gray / 255) * 100`; its meaning is stated by AlphaOfGray |
| PngColorize.AlphaByte | src/js/geotiff_vis.js:90 | the alpha byte is a byte (0 to 255); its meaning is stated by AlphaOfGray |
| PngColorize.ColorizePixel | src/js/geotiff_vis.js:75-90 | one pixel stays four bytes; what it writes is stated by PixelRule, AlphaOfGray and OnlyGrayIsRead |
| GeoTiffColor.FirstBand | src/js/geotiff_vis.js:131 | no contract; `values && values[0]`; its meaning is stated by PixelValuesToColor and ColorOfBand |
| MapView.LayerPath | src/js/geotiff_vis.js:170 | no contract; the overlay path template; its meaning is stated by LayerPathIsPng |
| MapView.Without | src/js/geotiff_vis.js:104 | the attached list after `removeLayer` or `removeControl`: it keeps exactly the other entries and never grows |
| MapView.WithoutSole | src/js/geotiff_vis.js:176 | removing the only attached control leaves nothing attached |

## Left out

- Network and I/O are not modelled. This covers the HEAD probe (`checkFileExists`), `Image.decode`, the canvas calls (`drawImage`, `getImageData`, `putImageData`, `toDataURL`), the GeoTIFF fetch and `parseGeoraster`, and the CSV fetch. Their results are parameters of the operations.
- Leaflet is not modelled: the tile layer, `setView`, the overlay bounds, opacity, `fitBounds` and the legend HTML. The map is represented by the overlays and controls attached to it.
- ECharts is not modelled: `init`, `clear` and `setOption`, plus the styling fields (tooltip, grid, axis names, emphasis, animation). The chart option keeps the title, the department axis and the series.
- `console.log` and `console.error` are not modelled.
- Radio-button reads and event listeners are not modelled. The selection is a parameter of each operation. The chart listens only to crop and ssp changes, not to the period.
- Races between overlapping asynchronous `updateLayer` calls are not modelled. Each call is one sequential step.
- MapView.MapState.LoadColorizedOverlay: every failure inside the GeoTIFF `try` block is one `Failure` input, not only the parse. Layer construction and `fitBounds` are not modelled separately.
- ColorRamp.InterpolateColor: returns the colour as numbers rather than the `rgba(...)` text, and computes with exact reals rather than IEEE-754 doubles. The text formatting and the regex re-parse in colorizePNG are left out.
- ColorRamp.InterpolateColor: a NaN input is not modelled. Every caller passes a number: the grey scale or a value already filtered by `isNaN`.
- `parseFloat` results in the CSV parse are NaN or a finite number. A `mean_value` of "Infinity" is not modelled; the GeoTIFF band values do include both infinities.
- Chart.GroupRowsSpec: department keys are listed in first-appearance order. JavaScript lists integer-like keys first, in numeric order. Keys that clash with `Object.prototype` members are not modelled either.
- Chart.GroupRowsKeys: the same first-appearance order as Chart.GroupRowsSpec, for the same reason.
- Strings.LexLess: compares Unicode scalar values. JavaScript compares UTF-16 code units, which differ only for characters outside the Basic Multilingual Plane.
- Strings.UpperChar: upper-cases ASCII letters only. `toUpperCase` also maps other letters and may lengthen the string.
