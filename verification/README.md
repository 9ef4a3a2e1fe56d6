# MRR dashboard aggregation engine, modelled in Dafny

This project models the logic of a small MRR (monthly recurring revenue)
dashboard. The dashboard reads a column-oriented dataset: `month`, `bucket`
and `value` columns plus free dimension columns such as `plan`. It then
computes these things:

- **Pivot** (`groupDataByColumn`): totals per waterfall bucket and month,
  under an optional selection `{bucketName, bucketValues}`. The `Main`
  component's copy returns an empty object when there is no selection. The
  application's copy pivots every record in that case.
- **Baseline** (`toTotalsBaseline`): the company-wide Ending MRR per month.
  It ignores the selection.
- **Breakdown** (`getLastMonthMrrSegments`): the Ending MRR of the last
  month on the month axis, split by the selected dimension's values.
- **Presentation adapters**: the sorted month axis, the grid rows in the six
  canonical bucket labels, the Ending MRR line series, and the guard that
  shows the bar chart.
- **Selection widgets**: the multi-select handlers, the segment chooser and
  the per-dimension selector. Each is a pure list transformation.

Modules, one file each:

- `Seqs`: duplicate-freedom, first-occurrence deduplication (`Array.from(new Set(xs))`), filtering and subsequences.
- `Lex`: the lexicographic string order used by `Array.prototype.sort`, an insertion sort, and the proof that any sort gives the same result.
- `Records`: JavaScript objects with their key insertion order. This order is what `Object.values` and `Object.entries` enumerate.
- `Dataset`: cells, the dataset, the selection, `Result` (a value, or the `TypeError` JavaScript throws), and the constants.
- `Pivot`, `MonthAxis`, `Baseline`, `Breakdown`, `Presentation`: the aggregation engine and what the two components build from it.
- `MultiSelect`, `SelectSegment`, `Selector`: the selection widgets.
- `Scenarios`: two small datasets, each described by its records, evaluated end to end.

Modelling decisions:

- Money amounts are exact integers, for instance cents. Rounding with `toFixed(2)` is therefore the identity.
- A dataset is `map<string, seq<Cell>>` with `Cell = S(string) | N(int)`. `WellFormed` requires three things: the three fixed columns exist, all columns have equal length, and months are strings while values are numbers.
- Indexing a column that does not exist (`undefined[i]`) throws. The model returns `TypeError` in exactly the situations where the source performs that read.
- Duplicate labels passed to the pivot add a record once per occurrence. The cell theorem therefore carries the label's multiplicity. The six canonical labels occur once each (`Pivot.CanonicalLabelsOnce`).

Where the pieces of the code do not fit together, the model follows what each piece computes:

- **Baseline order.** The line chart draws the baseline against `xAxisData={months}` (`main.tsx:68-69`), the sorted month axis, so its `k`-th point is drawn at the `k`-th month. The baseline itself is `Object.values` of an object filled in record order: one entry per month that has an Ending MRR record, in order of first appearance. `Baseline.BaselineFollowsMonthAxis` proves the two line up under two conditions: the records are in month order, and every month has an Ending MRR record. `Scenarios.BaselineOutOfOrder` shows a dataset where they do not line up. There, the point drawn at January carries February's total.
- **Selected series order.** The selected series is `Object.values` of the pivot's Ending MRR row (`main.tsx:53`, `app.tsx:177`), drawn against the same axis. That row lists the months of the Ending MRR records that pass the filter, in order of first appearance (`Pivot.FoldRowKeys`, `Presentation.EndingRowEntries`). So a selection with no record in some month shifts every later point one month to the left. `Scenarios.SelectedSeriesMisaligned` shows records `pro` 100 in January and `basic` 80 in February: under `{plan: [basic]}` the axis is `[Jan, Feb]` and the selected series is `[80]`, drawn at January.
- **Pivot without a selection.** The two copies of `groupDataByColumn` differ: `Main` returns `{}` (`main.tsx:111-113`) and the application pivots every record. Both are modelled (`Pivot.MainGroupDataByColumn`, `Pivot.AppGroupDataByColumn`). They agree whenever a selection is present.
- **Missing selection column.** The code does not treat a missing selection column as "no record passes". Reading that column throws.

## Model

| member | source | states |
|---|---|---|
| Pivot.AppGroupDataByColumn | src/components/app.tsx:69-99 | Throws exactly when a selection names a field that is not a column, there is at least one record and at least one label. Otherwise the result is a well-formed nested object: each key once, and no empty row. |
| Pivot.MainGroupDataByColumn | src/components/main.tsx:105-141 | Without a selection the result is the empty object. With a selection it is the application's result, throwing in the same cases. |
| Pivot.AppPivotCells | src/components/app.tsx:75-98 | Cell `[l][m]` is the sum of `value` over records that pass the selection (all records without one), have bucket `l` and month `m`, multiplied by how often `l` is listed. A cell exists iff at least one record contributes. Only listed labels become keys. |
| Pivot.MainPivotCells | src/components/main.tsx:115-140 | The same cell sums, cell existence and key restriction for the `Main` pivot under a selection. |
| Pivot.MainNoSelectionEmpty | src/components/main.tsx:111-113 | Without a selection the `Main` pivot has no keys and reads 0 everywhere, whatever the dataset. |
| Pivot.EmptyValuesEmptyPivot | src/components/main.tsx:119-124 | A selection with no values admits no record, so both pivots are empty unless the missing-column read throws. |
| Pivot.FilteredCellsAmongUnfiltered | src/components/app.tsx:79-85 | Every cell of a filtered application pivot is also a cell of the unfiltered one. |
| Pivot.FilteredCellBound | src/components/app.tsx:79-93 | When no amount is negative, a filtered cell never exceeds the unfiltered cell. |
| Pivot.CoveringSelectionIsUnfiltered | src/components/app.tsx:79-93 | A selection whose field holds only strings, all of them listed, gives exactly the unfiltered pivot. |
| Pivot.CanonicalLabelsOnce | src/components/main.tsx:175-182 | Each of the six canonical labels occurs exactly once in the label list. |
| Pivot.FoldRowKeys | src/components/app.tsx:77-93 | Row `l` of the pivot lists the months of the records that pass the selection and have bucket `l`, once each and in order of first appearance. A label that is not listed has no row. |
| Pivot.PivotIgnoresRecordOrder | src/components/app.tsx:77-93 | Exchanging two neighbouring records changes neither whether the pivot throws nor any cell: each cell exists and holds the same total as before. |
| MonthAxis.Months | src/components/main.tsx:16 | The month axis is strictly ascending in lexicographic order and contains exactly the months that occur in the data. |
| MonthAxis.LastMonthIsMaximum | src/components/app.tsx:13 | The axis's last entry is absent iff there are no records. Otherwise it is a month of the data that every other month sorts at or before. |
| Baseline.BaselineFoldValid | src/components/main.tsx:84-93 | The running totals object has one key per month holding an Ending MRR record, in order of first appearance. |
| Baseline.BaselineEntries | src/components/main.tsx:84-96 | The baseline has one entry per month with an Ending MRR record, in first-appearance order. Each entry is that month's Ending MRR total over all records, whatever the selection. |
| Baseline.BaselineFoldIsEndingRow | src/components/main.tsx:84-93 | The baseline accumulator equals the Ending MRR row of the unfiltered canonical pivot, key order included. |
| Baseline.BaselineIsUnfilteredEndingRow | src/components/main.tsx:84-96 | The baseline equals the values of the application's Ending MRR row when there is no selection. |
| Baseline.BaselineFollowsMonthAxis | src/components/main.tsx:16-18 | If the records are in month order and every month has an Ending MRR record, the baseline's `k`-th entry is the total of the `k`-th month on the axis. |
| Breakdown.GetLastMonthMrrSegments | src/components/main.tsx:149-173 | Throws exactly when the selected field is not a column and some record is an Ending MRR record of the last month. Otherwise the result is named after the selected field and has one entry per distinct selected value, in selection order; entry `k` is the Ending MRR total, in the last month of the axis, of the records whose field holds the `k`-th distinct value. |
| Breakdown.SegmentsAligned | src/components/main.tsx:153-155 | For a selection without repeats, entry `k` belongs to `bucketValues[k]`. No selected values means no entries. |
| Breakdown.UnmatchedValueIsZero | src/components/main.tsx:157-166 | A selected value that no last-month Ending MRR record holds keeps its initial 0. |
| Breakdown.AppSegmentsUseGreatestMonth | src/components/app.tsx:106-124 | On the application's axis the breakdown reads the lexicographically greatest month of the data, not the month of the last record. |
| Presentation.GridRows | src/components/main.tsx:32-45 | The grid has exactly the six canonical rows in canonical order, with one cell per month on the axis. |
| Presentation.AppGridCells | src/components/app.tsx:27-40 | A grid cell shows the formatted filtered total when some record of that bucket and month passes the selection, and `"0"` otherwise. |
| Presentation.MainGridWithoutSelection | src/components/main.tsx:32-45 | Without a selection every cell of the `Main` grid shows `"0"`. |
| Presentation.EndingSeriesShape | src/components/main.tsx:47-55 | Filtering the pivot's entries yields at most one series. It yields exactly one iff the Ending MRR row exists, and that series carries the row's values. |
| Presentation.EndingRowEntries | src/components/main.tsx:47-55 | The values of the pivot's Ending MRR row are one entry per month in which some record passing the selection has Ending MRR, in order of first appearance; each entry is that month's filtered total. |
| Presentation.MainScreenShape | src/components/main.tsx:47-72 | The baseline series comes first. At most one selected series follows, and none without a selection. Under a selection the second series exists iff the pivot has an Ending MRR row, and it is that row's values named after the selected values. The bar chart is shown iff values are selected, with those values as its categories and the last-month breakdown as its data. |
| Presentation.AppScreenShape | src/components/app.tsx:148-193 | Both branches draw the pivot's Ending MRR row as the only line, which is the baseline when there is no selection. The bar chart is shown iff values are selected, with those values as categories. Its data is the last-month breakdown. |
| MultiSelect.ToggleOption | src/components/multi-select.tsx:125-130 | Toggling flips the option's membership and leaves every other value's count unchanged. A present option is removed and the rest keep their order. An absent option is appended. |
| MultiSelect.ToggleAbsentTwice | src/components/multi-select.tsx:125-130 | Toggling an absent value twice restores the list. |
| MultiSelect.TogglePresentTwice | src/components/multi-select.tsx:125-130 | Toggling a present value twice moves it to the end. This restores the list iff it was already last. |
| MultiSelect.ToggleKeepsConsistent | src/components/multi-select.tsx:125-130 | Toggling an offered value keeps a selection duplicate-free and within the offered values. |
| MultiSelect.ClearUnchecksEverything | src/components/multi-select.tsx:132-134 | After clearing no option is checked, and "(Select All)" is checked only when there are no options. |
| MultiSelect.ClearExtraOptions | src/components/multi-select.tsx:140-143 | Clearing extras keeps a prefix of the list, `min(maxCount, length)` long for non-negative `maxCount`, and drops the last `-maxCount` values (or all of them) for negative `maxCount`. With the default `maxCount` of 0 the list becomes empty. |
| MultiSelect.ClearExtraIdempotent | src/components/multi-select.tsx:140-143 | With a non-negative `maxCount`, clearing extras twice equals clearing once. |
| MultiSelect.SelectAllMeansEveryOption | src/components/multi-select.tsx:241-251 | On a consistent selection, "(Select All)" is checked iff every option is checked, although the code compares lengths only. |
| MultiSelect.ToggleAllFlips | src/components/multi-select.tsx:145-152 | When as many values are selected as there are options, toggle-all empties the list. Otherwise it selects every option's value, in option order, so every option is checked. It flips the "(Select All)" check, except that with no options the box stays checked. |
| MultiSelect.SummaryBadge | src/components/multi-select.tsx:169-194 | The badge appears iff more than `max(1, maxCount)` values are selected, in the "more" form iff `maxCount` is non-zero. A shown badge counts at least 1, the "selected" form at least 2. For non-negative `maxCount`, the chips and the badge's number together count every selected value exactly once. |
| MultiSelect.SelectedOptionLabel | src/components/multi-select.tsx:292-299 | The label is that of the first option with the value. It is absent iff no option has the value. |
| MultiSelect.TriggerContent | src/components/multi-select.tsx:166-225 | The placeholder is shown iff nothing is selected. Otherwise chip `i` shows the label of the `i`-th selected value, the chips and the badge together count every value once for non-negative `maxCount`, and every chip finds a label when the selection is consistent with the options. |
| SelectSegment.ChooseField | src/components/select-segment.tsx:31-36 | Choosing a field names it in the selection. The values are strictly ascending and are exactly the distinct strings of that column, or none when the column is absent. |
| SelectSegment.OfferedDimensions | src/components/select-segment.tsx:42-43 | The offered dimensions are the given names minus the skipped ones, in their original order and with their multiplicities. |
| SelectSegment.OnSegmentEvent | src/components/select-segment.tsx:31-51 | Clearing gives no selection. Choosing replaces the selection whole, whatever it was before. |
| SelectSegment.ChosenSegmentKeepsPivot | src/components/select-segment.tsx:32-35 | Right after a dimension is chosen, all its values are selected, so the application's pivot equals the unfiltered one. |
| Selector.SelectorOptions | src/components/selector.tsx:16-18 | The options are the given values sorted ascending, as a permutation, each labelled by its value. |
| Selector.SelectorOptionsStrict | src/components/selector.tsx:16-18 | Distinct input values give strictly ascending options with the same elements. |
| Selector.SetSelectedValues | src/components/selector.tsx:19-24 | An empty list gives no selection. The result is always a selection this drop-down can produce, and the drop-down reads back exactly the list it was given. |
| Selector.DisplayThenSet | src/components/selector.tsx:19-24 | Reading the selection and setting it back is the identity exactly for selections this drop-down can produce. |
| Selector.ClearExtraDropsSelection | src/components/selector.tsx:19-27 | With `maxCount` 0, clearing extras empties the list and so clears the selection. |
| Selector.ToggleTwiceRestores | src/components/selector.tsx:19-24 | Picking an unselected value twice in the drop-down returns the selection it started from. |
| Selector.SelectAllAscending | src/components/selector.tsx:16-24 | For distinct offered values, "(Select All)" from a list of another length gives a selection of this dimension holding every offered value once, in strictly ascending order. With no values on offer it gives no selection. |
| Selector.SelectorTrigger | src/components/selector.tsx:27 | With `maxCount` 0 the trigger shows one chip for one value, and only an "n selected" badge for more. |
| Scenarios.BaselineOutOfOrder | src/components/main.tsx:84-96 | For any dataset whose two Ending MRR records list February before January, the axis is `[January, February]` while the baseline is `[Feb total, Jan total]`. |
| Scenarios.PlansBaseline | src/components/main.tsx:84-96 | For any dataset with the worked example's records (`pro` 100 and `basic` 50 in January, `pro` 120 in February), the baseline is `[150, 120]`. |
| Scenarios.PlansPivot | src/components/app.tsx:69-99 | For the worked example's records, January's Ending MRR cell is 100 under `{plan: [pro]}` and 150 unfiltered. |
| Scenarios.SelectedSeriesMisaligned | src/components/main.tsx:47-69 | For any dataset with records `pro` 100 in January and `basic` 80 in February, `Main` under `{plan: [basic]}` draws the axis `[January, February]` with the selected series `[80]`. |
| Scenarios.PlansBreakdown | src/components/main.tsx:149-173 | For the worked example's records, the February breakdown over `[pro, basic]` is `[120, 0]` and is named `plan`. |

## Left out

- JSX rendering, React state (`useState`), the popover, command and select widgets, CSS and variant classes: not modelled. The model keeps only the values the components compute.
- The chart and grid wrappers (`line-chart.tsx`, `horizontal-bar-chart.tsx`, `grid.tsx`) configure third-party libraries. `filters.tsx` only composes `Selector` with a skip list and distinct values, which `SelectSegment.OfferedDimensions` and `Selector` already cover. The DOM bootstrap `src/main.tsx` is not modelled either.
- Floating point: amounts are exact integers. `toFixed(2)` is the identity, and `Number(...)` coercion of string amounts is not modelled because `WellFormed` requires numeric values. The application's copy adds `data.value[index]` without `Number(...)`; this would concatenate strings, but it is typed numeric there.
- `toLocaleString` formatting is the parameter `format` of `Presentation.GridRows`.
- Presentation.GridRows: a month named `bucket` would overwrite the row's `bucket` key in the source. The model keeps the label and the month cells apart.
- JavaScript key enumeration puts integer-like keys first, in numeric order. `Records` models plain insertion order, which is exact for month keys such as `2024-01`.
- Breakdown.SegmentsAligned: assumes insertion order for the breakdown's keys, which are dimension values. For integer-like values the source differs: the segment chooser sorts `["9", "10"]` as strings to `["10", "9"]`, while `Object.values` of the totals enumerates `"9"` first (`main.tsx:153-171`), so the bar labels are swapped in the source. The alignment is proved only for values that are not integer-like.
- String order: `Lex.Le` compares characters as code points. JavaScript compares UTF-16 code units, which differs only for characters outside the Basic Multilingual Plane.
- Field names inherited from `Object.prototype` (such as `constructor`) are treated as absent columns.
- SelectSegment.ChooseField: requires the chosen column to hold strings, as the source's `as string[]` cast assumes. Numeric dimension columns, sorted by their string form, are not modelled.
- The segment chooser reads the module-level dataset rather than the `data` prop `Main` passes. The model takes the dataset as a parameter.
- The pivot's `bucketName` argument is always `bucket` at both call sites, so the model fixes it.
- Pivot.FilteredCellBound: holds only when no amount is negative. Churn and downgrade amounts may be stored as negatives, so the precondition is stated explicitly.
- Record order: amounts are exact integers, so totals do not depend on the order of the records; only the key order of the objects does. `Pivot.PivotIgnoresRecordOrder` proves this for one exchange of neighbouring records; a general permutation is a sequence of such exchanges, and that composition is not stated as a lemma. The baseline's per-month totals follow through `Baseline.BaselineIsUnfilteredEndingRow`.
- The multi-select's `maxCount` is any integer; fractional counts are not modelled. With a negative `maxCount` the chip and badge counts do not add up, and `MultiSelect.SummaryBadge` does not state the count for that case.
- The popover open/close handlers, the commented-out keyboard handler, and `console.log(selection)` have no computed result and are not modelled.
- The static `data.json` import and data loading are inputs; each operation receives the dataset as an argument.
