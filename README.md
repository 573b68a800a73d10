# Choropleth and frequency-chart data logic

This project models the data logic inside `script.js`, the front end of a small web page. The page draws a map of US states, shaded by one metric, and a bar chart of one state's frequency distribution. Map and chart drawing, the network and the DOM form the rest of the page and are not modelled. What is modelled:

- **Colour ladder** (`Choropleth`). `getColor` is a first-match ladder of eight colours over seven exclusive thresholds. A missing value fails every comparison and falls to the lowest colour, and so does `NaN`. The module also covers the style callback and the popup text, where `value || "No Data"` treats 0, `NaN` and a missing value alike.
- **Metric CSV loader** (`MetricCsv`). The loader splits the text into lines and drops the first. Each remaining line gives a trimmed key and a parsed, trimmed second field, written into a table in order, so later rows overwrite earlier ones. `LoadMetricTable` is a method with a loop over a `map`. It is proved equal to the fold `TableOf`, and the lemmas state what that table holds. A line without a comma makes the JavaScript throw. The model represents that as `Err(MissingValue(row))`.
- **Frequency file** (`Frequency`):
  - Group names are the part of each header column before the first `:`. They are de-duplicated in first-seen order, as a JavaScript `Set` does, and then trimmed.
  - The region options are the trimmed first fields of the data rows.
  - The chart row is the first line, header included, that starts with the selected region.
  - Bin labels and bin values are picked out by the same column predicate.
- **String primitives** (`Text`). These are JavaScript `split` (non-overlapping, left to right, never empty), `join`, `startsWith` and `trim`, with the ECMAScript white-space and line-terminator characters.

`parseFloat` is a parameter `parse: string -> Option<real>`, where `None` stands for `NaN`. Turning a number into text for the popup is a parameter `show: real -> string`. Nothing is assumed about `parse`. One lemma, `Choropleth.NoDataExactly`, assumes that `show` never yields the text "No Data"; see "## Left out".

Some behaviours of the code differ from what a reader might expect:

- The loader does not skip malformed rows. One row without a comma, including the empty line after a final line break, makes the whole load fail (`MetricCsv.TableOfFails`, `MetricCsv.TrailingNewlineFails`, `MetricCsv.BlankLastLineExampleThrows`).
- Row selection is a prefix test, not an equality test. A shorter region name can select an earlier, longer one. The empty selection selects the header line (`Frequency.PrefixMatchTakesEarlierRow`, `Frequency.EmptyRegionSelectsHeader`). When that line is empty, it is falsy, and nothing is drawn (`Frequency.BlankFirstLineDrawsNothing`).
- A region missing from the table gets the same style as a region with a value of 10 or less. There is no separate "no data" style (`Choropleth.AbsentRegionLooksLow`).
- A label is the second piece of the column split on `": "`, that is, the text between the first and the second `": "`. `Age: 0-10: x` gives `0-10`. A column written like `Age:0-10` has no label (`Frequency.LabelBetween`, `Frequency.UnspacedLabels`).
- Names are trimmed only after de-duplication, so `Age` and ` Age` both stay in the list, as two entries `Age` (`Frequency.TrimAfterDedup`).
- Suppose the chosen row has more fields than the header. Then the value filter reads a header column that does not exist, and calling `startsWith` on it throws. The model represents that as `Thrown(NoHeaderFor(i))` (`Frequency.ValuesFail`).

## Model

| member | source | states |
|---|---|---|
| Choropleth.Color | script.js:84-100 | `getColor` as the same ladder of strict comparisons; its meaning is in `Choropleth.ColorIsBucketColor` and `Choropleth.ColorBoundaries` |
| Choropleth.RegionStyle | script.js:54-63 | the style callback, with the fill from `Color` and five constant fields; its meaning is in `Choropleth.SameStyleSameBucket` and `Choropleth.AbsentRegionLooksLow` |
| Choropleth.ValueLabel | script.js:68 | the value, or "No Data" for a falsy value; its meaning is in `Choropleth.NoDataExactly` |
| Choropleth.Popup | script.js:66-68 | the popup text around the region name and `ValueLabel`; its meaning is in `Choropleth.NoDataExactly` and `Choropleth.ZeroNaNAndAbsentAlike` |
| MetricCsv.ParseRow | script.js:45-46 | one row's entry, or none when the row has no comma; its meaning is in `MetricCsv.ParseRowDefined`, `MetricCsv.RowFields` and `MetricCsv.ExtraFieldsIgnored` |
| MetricCsv.Fill | script.js:44-47 | the `forEach` as a left fold over the parsed rows; its meaning is in `MetricCsv.FillFails`, `MetricCsv.FillKeys` and `MetricCsv.FillValues` |
| MetricCsv.TableOf | script.js:41-47 | the load of a whole text; its meaning is in `MetricCsv.TableOfFails` and `MetricCsv.TableOfContents` |
| Frequency.Dedup | script.js:123 | `[...new Set(s)]`; its meaning is in `Frequency.DedupSpec` |
| Frequency.GroupNamesOf | script.js:110-126 | the group selector's entries; its meaning is in `Frequency.GroupNamesCover` and `Frequency.GroupNamesOrder` |
| Frequency.RegionOptions | script.js:111-118 | the region selector's entries; its meaning is in `Frequency.OfferedRegionFindsRow` |
| Frequency.Label | script.js:148 | `col.split(": ")[1]`, the text between the first and second `": "`; its meaning is in `Frequency.LabelShape`, `Frequency.LabelBetween` and `Frequency.NoColonSpaceNoLabel` |
| Frequency.BinLabels | script.js:145-148 | the labels of the group's columns; its meaning is in `Frequency.LabelsAlongColumns` |
| Frequency.ValuesFrom | script.js:149-152 | the value filter from one column on, throwing past the header's end; its meaning is in `Frequency.ValuesFail`, `Frequency.ValuesAlongColumns` and `Frequency.ValuesStopAtRowEnd` |
| Frequency.BinValues | script.js:149-152 | the values of the group's columns; its meaning is in `Frequency.LabelsAndValuesAligned` |
| Frequency.BarChartOf | script.js:139-152 | what `updateBarChart` draws; its meaning is in `Frequency.BarChartShape`, `Frequency.LongerRowThrows` and `Frequency.ShorterRowBars` |
| Text.Split | script.js:45 | JavaScript `split` on a non-empty separator, never empty; its meaning is in `Text.JoinSplit` and `Text.SplitCharPieces` |
| Choropleth.Lookup | script.js:55 | `metricData[feature.properties.name]`, undefined for an absent region; its meaning is in `Choropleth.AbsentRegionLooksLow` |
| Choropleth.Truthy | script.js:68 | the truthiness test behind the "No Data" fallback: false for a missing value, NaN and 0; its meaning is in `Choropleth.NoDataExactly` |
| Choropleth.RegionPopup | script.js:65-69 | the `onEachFeature` popup of a region; its meaning is in `Choropleth.ZeroNaNAndAbsentAlike` |
| MetricCsv.Rows | script.js:41 | `data.split("\n").slice(1)`; its meaning is in `MetricCsv.HeaderIgnored` and `MetricCsv.TrailingNewlineFails` |
| MetricCsv.Key | script.js:45-46 | `state.trim()` of the first field; its meaning is in `MetricCsv.ParseRowDefined` and `MetricCsv.TableOfContents` |
| Frequency.Header | script.js:140 | `rows[0].split(",")`; its meaning is in `Frequency.Lines` and `Frequency.BarChartShape` |
| Frequency.GroupOf | script.js:112 | `col.split(":")[0]`; its meaning is in `Frequency.GroupOfPrefix` and `Frequency.GroupOfShape` |
| Frequency.RawGroups | script.js:112 | `header.slice(1).map(...)`, one group per data column; its meaning is in `Frequency.RawGroupsTwo`, `Frequency.RawGroupsThree` and `Frequency.GroupNamesCover` |
| Frequency.InGroup | script.js:147 | the column test `startsWith(group + ":")`, the same at script.js:151; its meaning is in `Frequency.ColumnsFrom` and `Frequency.ValuesStep` |
| Text.StartsWith | script.js:141 | `startsWith` as a sequence prefix; its meaning is in `Frequency.FindRow` and `Text.TrimPrefix` |
| Text.Trim | script.js:46 | JavaScript `trim`; its meaning is in `Text.TrimSpec` and `Text.TrimIdempotent` |
| Choropleth.ColorIsBucketColor | script.js:84-100 | the colour is the palette entry at the value's rank, the number of thresholds it strictly exceeds; a missing value has rank 0 |
| Choropleth.ColorInPalette | script.js:84-100 | every value gets one of the eight colours, and the eight are distinct |
| Choropleth.ColorMonotone | script.js:84-99 | a smaller value, or a missing one, never gets a higher bucket than a larger value |
| Choropleth.ColorBoundaries | script.js:84-100 | the top colour exactly for values above 1000; 1000 itself gets the second colour; the lowest colour exactly for values at most 10, and for a missing value |
| Choropleth.ExceededMonotone | script.js:85-98 | the number of thresholds strictly exceeded does not decrease as the value grows |
| Choropleth.AbsentRegionLooksLow | script.js:54-63 | a region missing from the table is styled exactly like a region with a value of at most 10, with the lowest colour |
| Choropleth.SameStyleSameBucket | script.js:54-63 | two regions get equal style objects if and only if their values fall in the same bucket |
| Choropleth.NoDataPaintedLowest | script.js:55-57 | a region whose popup says "No Data" is filled with the lowest colour |
| Choropleth.NoDataExactly | script.js:66-68 | the label is "No Data" exactly when the value is missing, 0 or NaN, and otherwise shows the value; the popup equals the missing-value popup in exactly those cases |
| Choropleth.ZeroNaNAndAbsentAlike | script.js:66-68 | a stored 0, a stored NaN and an absent key give the same popup |
| MetricCsv.LoadMetricTable | script.js:41-47 | the loop filling the table in place returns the fold over all data rows: the table, or the first row without a comma |
| MetricCsv.TableOfFails | script.js:45-46 | the load succeeds exactly when every data row contains a comma; on failure the error names the first row without one |
| MetricCsv.TableOfContents | script.js:41-47 | a successful table's keys are exactly the rows' trimmed first fields, and each key's value is the parse of the last row with that key |
| MetricCsv.RowsKeys | script.js:44-47 | over loaded rows, a key is in the table exactly when some row's trimmed first field equals it |
| MetricCsv.RowsValues | script.js:44-47 | each key's value comes from a row with that key that no later row overwrites |
| MetricCsv.KeysFromRows | script.js:44-47 | every key in the table comes from some row |
| MetricCsv.RowKeysInTable | script.js:44-47 | every row's key is in the table |
| MetricCsv.FillFails | script.js:44-46 | the fold fails exactly when some remaining row has no comma, and reports the first such row |
| MetricCsv.FillKeys | script.js:44-47 | the fold's keys are the starting keys plus the keys written by the remaining rows |
| MetricCsv.FillValues | script.js:44-47 | each value in the fold's result comes from the last remaining row writing that key, or from the start if no row writes it |
| MetricCsv.EntriesOfLoaded | script.js:44-46 | when the load succeeds, every row parses, with its trimmed first field as key |
| MetricCsv.ParseRowDefined | script.js:45-46 | a row has a value exactly when it contains a comma, and its key is the trimmed first field |
| MetricCsv.RowFields | script.js:45-46 | a row `a,b` gives key `trim(a)` and value `parse(trim(b))` |
| MetricCsv.ExtraFieldsIgnored | script.js:45 | a row `a,b,rest` gives the same entry as `a,b`: fields after the second are ignored |
| MetricCsv.HeaderIgnored | script.js:41 | the first line never reaches the table: the table depends only on the text after the first line break |
| MetricCsv.HeaderOnly | script.js:41 | text with no line break gives an empty table |
| MetricCsv.TrailingNewlineFails | script.js:41-46 | text ending in a line break always fails to load |
| MetricCsv.BlankLastLineExampleThrows | script.js:41-46 | a three-region file ending in a line break fails instead of loading its regions |
| MetricCsv.FillTwoRows | script.js:44-47 | two parsed rows are written in order |
| MetricCsv.LaterRowOverwrites | script.js:44-47 | a later row with the same key replaces the earlier value |
| Frequency.Lines | script.js:109 | the line list is never empty, so the header line always exists |
| Frequency.GroupOfPrefix | script.js:112 | the group of `g:rest` is `g`, and a column with no colon is its own group |
| Frequency.GroupOfShape | script.js:112 | a group contains no colon and is a prefix of its column, followed by a colon when the column has one |
| Frequency.FirstIndex | script.js:123 | the position of the first occurrence |
| Frequency.FirstIndexExtend | script.js:123 | appending does not move a first occurrence |
| Frequency.DedupSpec | script.js:123 | de-duplication has no repeats, keeps exactly the same elements, and orders them by first occurrence |
| Frequency.DedupTwo | script.js:123 | two distinct names stay as they are |
| Frequency.DedupThree | script.js:123 | a repeated name is kept once, at its first position |
| Frequency.TrimAll | script.js:125-126 | each name trimmed, in place |
| Frequency.ColumnGroupOffered | script.js:112-126 | the trimmed group of every column after the first is offered |
| Frequency.OfferedGroupFromColumn | script.js:112-126 | every offered name is the trimmed group of some column after the first |
| Frequency.GroupNamesCover | script.js:110-126 | the offered names are exactly the trimmed groups of the columns after the first |
| Frequency.GroupNamesOrder | script.js:123-126 | the offered names are the de-duplicated groups trimmed one by one; they are distinct when no group needs trimming |
| Frequency.RawGroupsTwo | script.js:110-112 | the groups of a two-column header |
| Frequency.RawGroupsThree | script.js:110-112 | the groups of a three-column header |
| Frequency.RawGroupsSpaced | script.js:110-112 | `Age: 0-10` and ` Age: 10-20` give the different groups `Age` and ` Age` |
| Frequency.TrimAfterDedup | script.js:123-126 | those two survive de-duplication and are offered as `Age` twice |
| Frequency.RawGroupsUnspaced | script.js:110-112 | `Age:0-10`, `Age:10-20`, `Income:Low` give `Age`, `Age`, `Income` |
| Frequency.UnspacedGroupNames | script.js:123-126 | and are offered as `Age`, `Income` |
| Frequency.RepeatedThenNew | script.js:123-126 | a repeated trimmed group followed by a new one is offered once each, in order |
| Frequency.FindRow | script.js:141-142 | the first line that starts with the region, or none exactly when no line does |
| Frequency.EmptyRegionSelectsHeader | script.js:141 | the empty selection picks the header line |
| Frequency.PrefixMatchTakesEarlierRow | script.js:141 | an earlier line that merely starts with the region wins over the line that is exactly it |
| Frequency.OfferedRegionFindsRow | script.js:111-141 | an offered region finds a row at or before its own line, when that line does not start with white space |
| Frequency.GroupOrFieldPrefix | script.js:111-112 | the first piece of a split is a prefix of the string |
| Frequency.ColumnsFrom | script.js:145-147 | the group's columns: increasing, in range, in the group, and none missing |
| Frequency.LabelsAlongColumns | script.js:145-148 | one label per group column, in column order, each the column's `Label`, the text between its first and second `": "` |
| Frequency.ValuesFail | script.js:149-151 | the value filter throws exactly when the row has more fields than the header |
| Frequency.ValuesStep | script.js:149-152 | a column inside the row contributes its parsed field exactly when its header is in the group |
| Frequency.ValuesAlongColumns | script.js:149-152 | each value is the parse of the row's field at the matching group column |
| Frequency.ValuesStopAtRowEnd | script.js:149-152 | group columns beyond the row's end give no value |
| Frequency.ValuesForEveryColumn | script.js:149-152 | a row as long as the header gives one value per group column |
| Frequency.LabelsAndValuesAligned | script.js:145-152 | for a row as long as the header, labels and values have equal length and pair up column by column |
| Frequency.LabelBetween | script.js:148 | the label of `a: b: rest` is `b`, the text between the first and the second `": "` |
| Frequency.LabelShape | script.js:148 | the label of `a: b` is `b` when neither part contains another `": "` |
| Frequency.NoColonSpaceNoLabel | script.js:148 | a column without `": "` has no label |
| Frequency.NoColonSpace | script.js:148 | a string with no colon followed by a space has no `": "` match |
| Frequency.OfferedGroupHasBins | script.js:112-148 | selecting the group of a column with a colon gives that column as a bin, so the chart is not empty |
| Frequency.LabelsOfFirstTwo | script.js:145-148 | labels from two group columns followed by a non-group column |
| Frequency.UnspacedLabels | script.js:145-148 | group columns written `group:bin`, without spaces, give undefined labels |
| Frequency.NoSpaceNoLabel | script.js:148 | a column containing no space has no label |
| Frequency.ColonSpaceLabel | script.js:148 | the label of `Age: 0-10` is `0-10` |
| Frequency.BarChartShape | script.js:139-152 | no chart exactly when no line starts with the region or the line found is empty, the latter only for the empty selection over an empty first line; a throw only when the row is longer than the header; for a non-empty row as long as the header, aligned labels and values over the group's columns |
| Frequency.LongerRowThrows | script.js:149-151 | a non-empty found row with more fields than the header makes the chart throw |
| Frequency.ShorterRowBars | script.js:145-152 | a non-empty found row no longer than the header is drawn with all the group's labels, and a value for each group column it reaches, parsed from that column's field |
| Frequency.BlankFirstLineDrawsNothing | script.js:141-142 | the empty selection over a text with an empty first line draws nothing |
| Text.JoinSplit | script.js:45 | joining the pieces of a split with the separator gives back the string |
| Text.SplitCharPieces | script.js:45 | no piece contains the separator, and there are two or more pieces exactly when it occurs |
| Text.SplitTrailing | script.js:41 | a trailing separator adds one empty last piece |
| Text.SplitAt | script.js:45 | the first separator cuts off the first piece |
| Text.SplitNone | script.js:45 | a string without the separator is one piece |
| Text.SplitPair | script.js:41 | two separator-free pieces joined by the separator split apart again |
| Text.NoCharMatch | script.js:45 | a one-character separator does not match where that character is absent |
| Text.TrimStartSpec | script.js:46 | only leading white space is removed, all of it |
| Text.TrimEndSpec | script.js:46 | only trailing white space is removed, all of it |
| Text.TrimSpec | script.js:46 | the trimmed string is the original minus white space at both ends, with no white space at either end |
| Text.TrimOfTrimmed | script.js:46 | a string without white space at its ends is unchanged |
| Text.TrimIdempotent | script.js:46 | trimming twice is trimming once |
| Text.TrimPrefix | script.js:117 | a string without leading white space starts with its trimmed form |

## Left out

- The Leaflet map, tile layer, `setTimeout`/`invalidateSize`, GeoJSON layer creation, `addData`, `addTo` and `removeLayer` (script.js:1-16, 51-78) are calls into a library that is not part of this model. Ordering between two selections is a race between promises and is not modelled.
- `fetch` and the promise chains (script.js:38-40, 73-75, 106-108, 136-138) are network I/O. The fetched text is a parameter.
- Dropdown population and `getElementById` (script.js:25-31, 103-104, 114-128) are DOM work. The model gives the lists of values the dropdowns would show (`Frequency.RegionOptions`, `Frequency.GroupNamesOf`).
- Plotly rendering (script.js:155-162) is a foreign call. The model gives the labels and values passed to it (`Frequency.BarChartOf`).
- `console.log` (script.js:49, 76) is output only.
- `parseFloat` and IEEE-754 numbers: a number is a `real`, parsing is the parameter `parse`, and `NaN` is `None`. Infinity, `-0` and rounding are not modelled.
- Number-to-text conversion in the popup is the parameter `show`.
- A plain JavaScript object as a dictionary: keys such as `__proto__` behave specially there. The model uses a `map`, where every string is an ordinary key.
- `trim` is modelled with the white-space characters listed in `Text.IsSpace`. Unicode categories are not computed.
- Choropleth.NoDataExactly: assumes `show` never prints "No Data" itself, which holds for any number-to-text conversion.
- Frequency.OfferedRegionFindsRow: requires that the offered line does not start with white space. Otherwise the trimmed option can fail to prefix its own line.
