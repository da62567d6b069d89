# Road-crash dashboard: result reshaping

The dashboard loads a bundled road-crash database into the browser. It runs
grouping queries against it and reshapes the rows into the arrays that the
charting library draws. This project models that reshaping and proves what
each chart shows. There are four charts:

- **Field chart and summary** (`app1.js`). The rows of a joined query are
  tallied by the value of one field. Accident times are bucketed to the hour,
  and rows whose value is falsy are skipped. The bars run from the rarest value
  to the most frequent. The yearly summary renames five summed columns to
  display labels and lists them from the largest value to the smallest.
- **Year comparison** (`app2.js`). `(Year, Field, Count)` rows become a nested
  `year -> label -> sum` table. Gender codes are spelled out, and a missing
  field falls back to the field's own name. The table then becomes one trace
  per label, with one value per year, 0 where the year lacks the label.
- **Injury sunburst** (`app3.js`). A first pass sums the counts per year and
  per "Year - SEX" label. A second pass emits the parallel
  `labels`/`parents`/`values` arrays: a year node and a sex node the first
  time each label is met, and one leaf per row.
- **Make and severity charts** (`app4.js`). For every top make and every year
  of the total-crash rows, the chart shows the share of fatal crashes, or 0
  when there are no crashes. The severity chart has one trace per severity
  code, one value per year, and the legend name and colour of that code.

The modules follow the files:

| module | file | contents |
|---|---|---|
| `Wrappers` | `wrappers.dfy` | `Option`, `Result` |
| `Sequences` | `sequences.dfy` | duplicate-free sequences, `[...new Set(s)]`, `flatMap`, a stable sort |
| `Tallies` | `tallies.dfy` | the `m[k] = (m[k] \|\| 0) + n` counting idiom and the sum of a map |
| `FieldCounts` | `field_counts.dfy` | `app1.js` |
| `YearComparison` | `year_comparison.dfy` | `app2.js` |
| `InjurySunburst` | `sunburst.dfy` | `app3.js` |
| `MakeSeverity` | `make_severity.dfy` | `app4.js` |

Query results are inputs. Each row is a datatype, or a map from column to text
where the source reads columns by name, and SQL NULL is `None` or a missing map
entry. The JavaScript loops (`forEach` that fills a dictionary, the two
sunburst passes) are methods with loop invariants. Each is proved equal to a
left fold over the rows, and the properties are proved about that fold.

## Model

| member | source | states |
|---|---|---|
| Tallies.AddTo | app3.js:52-55 | creating a missing entry at 0 and adding to it: the key is added to the keys, its entry grows by the amount from its old value or 0, and every other entry is unchanged |
| Tallies.Accumulate | app3.js:52-60 | the statement form `if (!m[k]) m[k] = 0; m[k] += c` has the same result as `AddTo`, even when the existing entry is 0 |
| Tallies.SumMapAddTo | app1.js:59 | adding an amount to one entry adds exactly that amount to the sum of all entries |
| Sequences.Distinct | app2.js:134 | `[...new Set(s)]` has no duplicates and holds exactly the values of `s` |
| Sequences.DistinctInFirstAppearanceOrder | app4.js:135-136 | `[...new Set(s)]` lists the values in the order of their first occurrence in `s` |
| Sequences.Concat | app2.js:134 | `flatMap` holds exactly the values that occur in one of the sequences |
| Sequences.SortBy | app1.js:65 | the sort result is a permutation of the input, ordered by the key, smallest first |
| FieldCounts.BeforeColon | app1.js:56 | `split(':')[0]` is the longest colon-free prefix: it ends at the first colon or at the end |
| FieldCounts.HourBucket | app1.js:55-57 | a bucketed time is the text before the first colon followed by `:00` |
| FieldCounts.HourBucketIdempotent | app1.js:55-57 | bucketing an already bucketed hour changes nothing |
| FieldCounts.CountKey | app1.js:54-58 | a row is skipped exactly when its value is NULL or empty; otherwise it is counted under its value, bucketed to the hour for `ACCIDENT_TIME` |
| FieldCounts.Tally | app1.js:52-61 | every count the loop stores is at least 1 |
| FieldCounts.TallyCounts | app1.js:52-61 | the counts hold exactly the keys some row is counted under, each with the number of such rows |
| FieldCounts.FalsyRowIgnored | app1.js:58-60 | a row with a falsy value leaves the counts unchanged |
| FieldCounts.TallySum | app1.js:52-61 | the counts add up to the number of rows with a truthy value |
| FieldCounts.CountValues | app1.js:52-61 | the loop's dictionary equals the fold, has exactly the keys that occur, holds each key's number of rows (at least 1), and sums to the number of counted rows |
| FieldCounts.CountsByFrequency | app1.js:65 | the bars list every key of the counts exactly once, each with its own count, in non-decreasing order of count |
| FieldCounts.SortSummary | app1.js:163-170 | the summary entries are rearranged, never lost or duplicated, into non-increasing order of value, NULL counting as 0 |
| FieldCounts.RenameSums | app1.js:108-114 | five entries with distinct labels, in literal order, each with its column's sum, the killed entry keeping its `N0.` spelling |
| FieldCounts.SortSummaryKeepsEntries | app1.js:163-170 | sorting keeps the length and the set of entries, so distinct labels stay distinct |
| FieldCounts.SummaryChart | app1.js:108-170 | the summary chart, renamed at lines 108-114 and sorted at lines 163-170, shows each of the five renamed entries once, largest first |
| YearComparison.GenderLabel | app2.js:109-112 | `M`, `F` and `U` become `Male`, `Female` and `Unknown`; any other code stays as it is |
| YearComparison.Label | app2.js:105-112 | a row whose `Field` is NULL or empty is labelled with the field name itself, for every field; a truthy `Field` is its own label, spelled out by the gender table when the field is `GENDER` |
| YearComparison.AddCellChanges | app2.js:114-122 | adding to a cell creates the year and the cell when missing, adds the count to the cell, and leaves every other year and every other cell unchanged |
| YearComparison.Pivot | app2.js:101-125 | every year in the table has at least one label |
| YearComparison.AccumulateCell | app2.js:114-122 | the three statements that create the year, create the cell and add the count give the same table as `AddCell` |
| YearComparison.PivotCell | app2.js:114-122 | for one year and label: the year is present iff some row has it, the label is present under it iff some row of that year has that label, and the cell (0 when absent) is the sum of those rows' counts |
| YearComparison.PivotCells | app2.js:100-126 | the same three facts for every year and label at once |
| YearComparison.CellSumOfAbsent | app2.js:136 | a label that no row of a year carries sums to 0, which is the `\|\| 0` the chart shows |
| YearComparison.PivotTotal | app2.js:100-126 | all cells together hold the sum of all counts; nothing is lost or counted twice |
| YearComparison.TransformData | app2.js:100-126 | the loop builds the pivot: exactly the years and labels of the rows, each cell the sum of its rows, the grand total the sum of all counts |
| YearComparison.UniqueLabels | app2.js:134 | the labels have no duplicates and are exactly those that occur under some year |
| YearComparison.CellOrZero | app2.js:136 | `transformedData[year][label] \|\| 0` reads the cell when the label is present and 0 when it is not |
| YearComparison.ComparisonTraces | app2.js:133-144 | one trace per unique label, in order; `x` is the years; each `y` value is the cell or 0; the trace type and stack group follow the chart type |
| YearComparison.TracesCoverLabels | app2.js:134-135 | the trace names are distinct and are exactly the labels some row is counted under |
| YearComparison.TraceValuesAreSums | app2.js:136 | each trace value is the sum of the counts of the rows with that year and label, 0 when there are none |
| InjurySunburst.Text | app3.js:49 | a template literal writes a NULL value as `null` and a text value as itself |
| InjurySunburst.LabelNesting | app3.js:66-67 | a sex label is its year label, ` - ` and the sex text; a leaf label is its sex label, ` - ` and the injury text |
| InjurySunburst.TotalOf | app3.js:47-61 | for one label, the first pass has an entry iff some row carries the label, and the entry is that label's sum of counts |
| InjurySunburst.TotalsAreSums | app3.js:47-61 | the same for every label at each of the two levels |
| InjurySunburst.LevelTotals | app3.js:47-61 | the loop's `yearCounts` and `sexCounts` are the folds: exactly the labels that occur, each with its sum of counts |
| InjurySunburst.EmitRow | app3.js:65-86 | one row appends one to three nodes and keeps the three arrays the same length |
| InjurySunburst.Emit | app3.js:64-87 | the three arrays stay the same length, with one to three nodes per row |
| InjurySunburst.EmitRowNodes | app3.js:69-86 | a row only appends, pushing its leaf last, and every node it adds is its year, sex or leaf node |
| InjurySunburst.EmitRowLabels | app3.js:69-86 | after a row, the labels are the earlier ones plus that row's year, sex and leaf labels |
| InjurySunburst.SunburstOf | app3.js:39-87 | the chart data of the rows has three arrays of equal length |
| InjurySunburst.SecondPass | app3.js:63-87 | the pushes into the three arrays give exactly the chart data of the fold |
| InjurySunburst.BuildSunburst | app3.js:39-87 | both passes give the chart data of the rows, in three arrays of equal length |
| InjurySunburst.EmitParentsEarlier | app3.js:64-87 | every parent other than `''` is the label of an earlier node, whatever the rows |
| InjurySunburst.SunburstShape | app3.js:39-87 | the chart data has arrays of equal length, and every parent comes before its children |
| InjurySunburst.EmitLabels | app3.js:64-87 | the labels are exactly the year, sex and leaf labels of the rows |
| InjurySunburst.EmitNodes | app3.js:64-87 | every node is the year node, the sex node or the leaf of some row |
| InjurySunburst.InteriorOnce | app3.js:70-81 | a year or sex label that no other kind of label can equal is pushed once if some row has it, and never otherwise |
| InjurySunburst.LeafOfRow | app3.js:84-86 | the last node a row pushes is that row's leaf: its label, its sex label as parent, and its count |
| InjurySunburst.LeafOrder | app3.js:84-86 | the leaves appear in the order of their rows |
| InjurySunburst.Leaves | app3.js:84-86 | every row has its own leaf, and the leaves come in row order |
| InjurySunburst.SexChildren | app3.js:77-86 | the children of a sex label sum to the counts of the rows with that label |
| InjurySunburst.YearChildren | app3.js:70-81 | the values of the children of a year node add up to the first-pass totals of that year's distinct sex labels, each counted once |
| InjurySunburst.YearChildNodes | app3.js:77-81 | every node whose parent is a year is the sex node of a row of that year |
| InjurySunburst.YearNodes | app3.js:70-74 | when labels are separate, each year has one node, with parent `''`, and its value is both the year's sum and the sum of its children |
| InjurySunburst.SexNodes | app3.js:77-81 | when labels are separate, each sex label has one node, with its year as parent, and its value is both its rows' sum and the sum of its children |
| InjurySunburst.LeavesHaveNoChildren | app3.js:84-86 | when labels are separate, no node hangs from a leaf |
| InjurySunburst.SeparateWhenYearsHaveFourChars | app3.js:65-67 | four-character years and sex codes without `-` keep the three kinds of label apart |
| MakeSeverity.Find | app4.js:81-82 | `find` returns nothing exactly when no row matches, and otherwise returns a matching row of the input |
| MakeSeverity.FindIsFirst | app4.js:81-82 | `find` returns the first matching row |
| MakeSeverity.Cell | app4.js:83-84 | a pair that no row has reads as 0 |
| MakeSeverity.CellIsFirstMatch | app4.js:81-84 | a pair that some row has reads as the count of the first row with that pair |
| MakeSeverity.CellOfUniqueRow | app4.js:140-141 | with one row per (year, key) pair, the cell of a row's pair is that row's count |
| MakeSeverity.Years | app4.js:78 | the years have no duplicates and are exactly the years of the rows |
| MakeSeverity.YearsInOrder | app4.js:78 | the years are in the order of their first appearance |
| MakeSeverity.FatalProbability | app4.js:85 | 0 when there are no crashes; otherwise the value times the crashes is the fatal crashes |
| MakeSeverity.FatalProbabilityBounds | app4.js:85 | when fatal crashes are among the crashes, the share lies between 0 and 1 |
| MakeSeverity.MakeTrace | app4.js:80-92 | a make's trace is named after the make, has the years as `x`, and has one share per year, 0 where there are no crashes |
| MakeSeverity.PrepareData | app4.js:77-95 | one trace per top make, in order, over the years of the total-crash rows |
| MakeSeverity.PrepareDataProbabilities | app4.js:79-86 | when every cell has no more fatal crashes than crashes, every value of the chart is a probability |
| MakeSeverity.SeverityLabel | app4.js:189-200 | codes 1, 2 and 3 name fatal, serious-injury and other-injury accidents; every other code, and only those, names non-injury accidents |
| MakeSeverity.ColorForSeverity | app4.js:176-187 | codes 1, 2 and 3 are green, yellow and red; every other code, and only those, is gray |
| MakeSeverity.ColorMatchesLabel | app4.js:147-150 | two codes share a colour exactly when they share a legend name |
| MakeSeverity.Severities | app4.js:136 | the severity levels have no duplicates and are exactly the codes of the rows |
| MakeSeverity.SeveritiesInOrder | app4.js:136 | the levels are in the order of their first appearance |
| MakeSeverity.LevelTrace | app4.js:138-152 | a level's trace has that level's legend name and colour, the years as `x`, and each year's count of the first matching row, or 0 |
| MakeSeverity.SeverityTraces | app4.js:134-153 | one trace per severity level, in order, each with one value per year |
| MakeSeverity.SeverityGrid | app4.js:135-141 | with one row per (year, severity) pair, every row has a column and a trace and shows its count there, and every cell no row has shows 0 |
| MakeSeverity.CrashesBySeverity | app4.js:129-134 | an empty result fails with "Query returned no results"; otherwise the traces come from the first result set |

## Left out

- Fetching the database file, running the SQL, rendering with the charting library, the DOM and the console logging are left out. Query results are inputs, and chart layouts and fixed trace options are not modelled.
- `app5.js` and the probability-spectrum page are not part of this model.
- The asynchronous sequencing and the `try`/`catch` blocks that only log are not modelled. The one error path the core raises, the empty severity result, is modelled.
- The `[0].values` access in `fetchData` is not modelled; the row lists are parameters.
- `Object.keys` order: where the source enumerates a dictionary's keys, the enumeration is a parameter (`keys`, `years`, `keysOf`) that must list the keys once each. JavaScript's own key order (integer-like keys first, in ascending order) is not modelled.
- Sequences.SortBy: the sort is stable, like the engine's, but stability is not proved; only ordering and permutation are.
- FieldCounts.CountsByFrequency: the order of keys with equal counts is therefore not stated.
- FieldCounts.SortSummary: a NULL sum compares as 0, as `null - x` does in the source. When the query returns no row at all, `result` stays `{}` and every value is `undefined`, whose difference is `NaN`; the model reads that case as NULL too. The summing query always returns one row.
- FieldCounts.CountKey: column values are text. A numeric value of 0, which JavaScript also treats as falsy, is not modelled. Nor is a value that names an `Object` prototype key such as `constructor`, which `counts[value] || 0` would read as inherited.
- YearComparison.Label: `Field` is text or NULL. A numeric `Field` of 0 is not modelled. Codes that clash with `Object` prototype keys are not modelled either.
- YearComparison.TransformData: every count column is an unbounded integer, here and in FieldCounts.CountValues, FieldCounts.RenameSums and InjurySunburst.Totals; floating-point addition is not modelled. A `SUM(...)` of no non-NULL values is NULL, which `+=` adds as 0; `ComparisonRow.count` is an integer, so such a NULL `Count` of the "Injuries and Deaths" query is read as 0. The sunburst's `COUNT(*)` is never NULL.
- InjurySunburst.YearNodes: this, InjurySunburst.SexNodes, InjurySunburst.LeavesHaveNoChildren and InjurySunburst.YearChildren (through `SexLabelsSeparate`) need the labels to be separate (`Separate`). When a year label could equal a sex or leaf label, `labels.includes` merges nodes, and the source makes no promise. `SeparateWhenYearsHaveFourChars` shows that four-character years together with sex codes that contain no `-` are enough.
- MakeSeverity.FatalProbability: the share is an exact rational. IEEE double rounding of the division is not modelled.
- MakeSeverity.PrepareData: the years come only from the total-crash rows, as in the source. A year that has only fatal rows gets no column.
- MakeSeverity.SeverityLabel: severity codes are integers. A code the engine returned as text would fall to the default branch under `switch`'s strict comparison, and that is not modelled.
