# Comparing_Tool in Dafny

This project is a Dafny model of the reconciliation core of
`compare_databases.py`. The script reads one table from two databases and
pairs each row of the first snapshot with the first row of the second
snapshot that has the same `ts` value. For every other column it compares the
two values. It counts compared and agreeing cells, overall and per column, and
writes one merged row per pair. A merged row holds `ts`, both values, and a
`<col>_Comparison` verdict, which reads "Correct" or "FALSCH". The script then
adds a trailing summary row of per-column percentages. It writes everything to
a sheet and colours the verdict cells green or red.

Modules, in the order the script runs:

- `Tables` covers snapshots, values, error kinds and counting compared columns.
- `Matching` covers the pairing of rows. It is the nested loop of lines 73-89,
  with its `break` on the first equal key.
- `Comparing` covers merged rows, the agreement counts and the `Aggregator`
  class. The class holds the script's counters (lines 64-70) and updates them
  in place:
  - `CompareTables` is the outer loop.
  - `CompareRow` is the inner scan.
  - `CompareColumns` is the column loop.
  Each is proved against the functions `MatchPairs`, `MergeRow`,
  `CellAgreements` and `ColumnCounts`.
- `Summary` covers ratios, percentage text and the summary row (lines 92-111).
- `Sheet` covers the written grid and the `Worksheet` class, whose
  `StyleVerdicts` loop is lines 126-131.
- `Reconcile` covers the whole run:
  - `Run` is imperative and is proved equal to the function `Outcome`.
  - `Outcome` returns the three early stops as errors: the schema guard
    (line 60), the missing `ts` key (line 75) and the zero division
    (line 92).
  - The lemmas about the report and the styled sheet follow.

The per-column percentage divides by the number of rows of the first
snapshot, not by the number of matched rows. An unmatched left row therefore
lowers every column's percentage. The model keeps this denominator.

The styling pass colours every cell below the header whose value reads
"FALSCH" or "Correct". That includes a data value that happens to read like
a verdict. The model follows the code here, not a description that styles
only verdict cells. `PublishedFills` states what that means for the verdict
cells and the summary line.

## Model

| member | source | states |
|---|---|---|
| Tables.Compared | compare_databases.py:77-81 | the number of compared columns among the first `n` is at most `n` |
| Tables.ComparedCount | compare_databases.py:66 | with distinct column names, every column except `ts` is compared: `n` minus one if `ts` is among them |
| Tables.WellFormedCovers | compare_databases.py:60-61 | when the column sets agree, every row of either snapshot has every column the loop reads |
| Matching.FirstMatch | compare_databases.py:74-89 | the inner scan stops at the earliest right row with an equal key; None exactly when no right row has that key |
| Matching.PairsOf | compare_databases.py:74-89 | one left row yields at most one pair; none exactly when it has no partner; otherwise the pair joins it with a row of equal key |
| Matching.MatchPairs | compare_databases.py:73-89 | reference definition of the pairs the nested loop forms, in left-row order; `CompareTables` is proved to leave exactly this state |
| Matching.MatchPairsBound | compare_databases.py:73-89 | at most one merged row per left row: `len(merged_rows) <= len(data1)` |
| Matching.MatchPairsAppend | compare_databases.py:73-89 | pairing a concatenation of left rows concatenates the pairings |
| Matching.MatchPairsSound | compare_databases.py:73-89 | every pair is a left row with its earliest partner; the pairs keep left-row order (strictly increasing source indices); every left row that has a partner is the source of one pair, so no partnered row is dropped, duplicate rows included |
| Matching.MatchPairsComplete | compare_databases.py:73-89 | a left row with a partner has a first partner, and the pair of the two is among the merged pairs |
| Comparing.LabelIsNotKey | compare_databases.py:76-80 | no field label is `ts`, so the key field is never overwritten |
| Comparing.LabelsOfColumnDiffer | compare_databases.py:79-87 | under unambiguous labels, the three labels of a column differ |
| Comparing.LabelsOfColumnsDiffer | compare_databases.py:79-87 | under unambiguous labels, no label of one column is a label of another |
| Comparing.Put3Sets | compare_databases.py:79-87 | after the three writes of a column, its fields hold the written values |
| Comparing.Put3Keeps | compare_databases.py:79-87 | writing another column's fields keeps this column's fields |
| Comparing.Put3KeepsKey | compare_databases.py:76-87 | writing a column's fields keeps the `ts` field |
| Comparing.Labels | compare_databases.py:76-87 | the labels in order of first write: `ts` first, then three per compared column |
| Comparing.FreshLabels | compare_databases.py:76-87 | under unambiguous labels, the labels of a later compared column were not written for an earlier one |
| Comparing.LabelsDistinct | compare_databases.py:76-87 | with distinct columns and unambiguous labels, no label is written twice |
| Comparing.MergeFields | compare_databases.py:76-87 | reference definition of the merged row after the column loop has visited `n` columns; `CompareColumns` is proved to follow it step by step |
| Comparing.MergeRow | compare_databases.py:76-88 | reference definition of the merged row of one pair: all columns visited |
| Comparing.MergeFieldsKeys | compare_databases.py:76-87 | the fields of a merged row are exactly the labels |
| Comparing.MergeFieldsKey | compare_databases.py:76 | `ts` of a merged row holds the left row's key |
| Comparing.MergeFieldsLast | compare_databases.py:79-87 | the column just visited holds both values and its verdict |
| Comparing.MergeFieldsAt | compare_databases.py:77-87 | every visited compared column keeps both values and its verdict until the end of the loop |
| Comparing.MergeRowFields | compare_databases.py:76-87 | merged-row layout: `ts` is the left key; `c_p1` and `c_p2` hold the two values; `c_Comparison` is "Correct" iff they are equal and "FALSCH" iff they differ |
| Comparing.Agreements | compare_databases.py:84 | a column's count of agreeing pairs is at most the number of pairs |
| Comparing.RowAgreements | compare_databases.py:82-83 | the agreeing cells of one pair are at most its compared cells |
| Comparing.CellAgreements | compare_databases.py:82-83 | reference definition of the final `matching_cells`, pair by pair; `Aggregator.Valid` ties the field to it |
| Comparing.ColumnCounts | compare_databases.py:66-84 | reference definition of the final `column_matching_counts`: one entry per compared column, counting the pairs that agree on it |
| Comparing.MergeAll | compare_databases.py:88 | one merged row per pair |
| Comparing.ColumnSumStep | compare_databases.py:82-84 | one more pair adds its agreements to the column-by-column sum |
| Comparing.ColumnSumEmpty | compare_databases.py:66 | with no pairs, every column count is zero |
| Comparing.CountsAddUp | compare_databases.py:83-84 | `matching_cells` is the sum of the per-column counts |
| Comparing.ColumnSumOfCounts | compare_databases.py:83-84 | that sum equals the sum of the entries of the final `column_matching_counts` |
| Comparing.MatchingAtMostTotal | compare_databases.py:81-83 | `matching_cells <= total_cells` |
| Comparing.Tally | compare_databases.py:84 | the column loop changes counts but adds no key to the dictionary |
| Comparing.TallyAt | compare_databases.py:84 | after the column loop, a column's count grew by one exactly when the pair agrees on it |
| Comparing.CountsExtend | compare_databases.py:84 | one more pair's tally gives the counts of the longer pair sequence |
| Comparing.CountAt | compare_databases.py:84 | the same, for one column |
| Comparing.Aggregator.constructor | compare_databases.py:64-70 | counters at zero, a zero count for each compared column, no merged rows |
| Comparing.Aggregator.AddPair | compare_databases.py:76-88 | after comparing one pair, the counters and rows are those of the pairs so far plus that pair |
| Comparing.Aggregator.CompareColumns | compare_databases.py:77-87 | the column loop builds the merged row; it adds the compared count to `total_cells`, the agreeing count to `matching_cells`, and each agreement to its column |
| Comparing.Aggregator.CompareTables | compare_databases.py:73-89 | the nested loop leaves the counters and rows equal to those of `MatchPairs` of the two snapshots |
| Comparing.Aggregator.CompareRow | compare_databases.py:74-89 | the scan of one left row adds exactly that row's pair, if any, and stops at the first partner |
| Summary.HundredthsNearest | compare_databases.py:107 | the printed hundredths lie within half a hundredth of the exact percentage |
| Summary.HundredthsAtMostWhole | compare_databases.py:107 | a ratio of at most 1 prints at most 100.00 |
| Summary.Decimal | compare_databases.py:107 | the integer part is a non-empty digit string |
| Summary.DigitRoundTrip | compare_databases.py:107 | a digit character reads back as its digit |
| Summary.DecimalRoundTrip | compare_databases.py:107 | the integer part reads back as the number |
| Summary.PercentText | compare_databases.py:107 | the text has two decimals and ends in `%` |
| Summary.HundredthsText | compare_databases.py:107 | the same, for a count of hundredths |
| Summary.ParseShape | compare_databases.py:107 | a text of the form `digits.dd%` reads back as its hundredths |
| Summary.PercentTextRoundTrip | compare_databases.py:107 | the percentage text reads back as the rounded hundredths |
| Summary.HundredthsTextRoundTrip | compare_databases.py:107 | the hundredths text reads back as the number |
| Summary.ColumnPercentages | compare_databases.py:95-96 | one ratio per counted column: its count over the left row count |
| Summary.PercentTexts | compare_databases.py:107 | a text exactly for each ratio with a positive denominator |
| Summary.BuildSummaryRow | compare_databases.py:102-107 | the summary loop builds the summary row with every compared column's percentage text |
| Summary.SummaryFields | compare_databases.py:102-107 | reference definition of the summary row after its loop has visited `n` columns; `BuildSummaryRow` is proved equal to it |
| Summary.SummaryFieldsKeys | compare_databases.py:102-107 | the summary row has the same fields as a merged row |
| Summary.SummaryFieldsKey | compare_databases.py:102 | `ts` of the summary row reads "Matching Percentage" |
| Summary.SummaryFieldsLast | compare_databases.py:104-107 | the column just visited has blank prefixed fields and its text |
| Summary.SummaryFieldsAt | compare_databases.py:103-107 | every visited compared column keeps blank prefixed fields and its text |
| Summary.SummaryRowFields | compare_databases.py:102-107 | summary-row layout: the marker in `ts`, blank prefixed fields, the percentage in `_Comparison` |
| Summary.PercentTextsSigned | compare_databases.py:107 | every percentage text ends in `%` |
| Summary.SummaryHasNoVerdict | compare_databases.py:102-107 | no cell of the summary row reads "Correct" or "FALSCH" |
| Sheet.Dedup | compare_databases.py:99 | the sheet's columns are the labels without repeats; a sequence without repeats is kept exactly, order included |
| Sheet.Grid | compare_databases.py:115 | one header line plus one line per row, all as wide as the header |
| Sheet.GridAt | compare_databases.py:115 | the cell of line `k+1` under a label is row `k`'s value for it, or empty |
| Sheet.StyleCell | compare_databases.py:126-131 | reference definition of one cell's fill after the styling pass; `StyleVerdicts` is proved to give every cell this fill |
| Sheet.Worksheet.Load | compare_databases.py:118-119 | the read-back sheet holds the written grid, with no cell filled |
| Sheet.Worksheet.StyleVerdicts | compare_databases.py:126-131 | every cell below the header becomes red if it reads "FALSCH" and green if "Correct"; the header and every other cell keep their fill |
| Reconcile.Inputs | compare_databases.py:60-61 | once the guard passes and `ts` is a column, every row and every pair has every column |
| Reconcile.MatchPairsCover | compare_databases.py:73-89 | each pair is made of snapshot rows, so it has every column |
| Reconcile.CountsPrintable | compare_databases.py:95-107 | every compared column has a count, a ratio and a text |
| Reconcile.Percentages | compare_databases.py:95-96 | reference definition of `column_matching_percentages`: each count over the left row count; `Summarize` is proved to compute it |
| Reconcile.Build | compare_databases.py:92-111 | reference definition of the report from the loop's pairs: counters, ratios, merged rows and summary row |
| Reconcile.Outcome | compare_databases.py:59-111 | reference definition of a run: the errors of lines 60, 75 and 92 in the script's order, otherwise `Build` of `MatchPairs`; `Run` is proved equal to it |
| Reconcile.Run | compare_databases.py:59-111 | the imperative run yields exactly `Outcome`: the same error, or the same report |
| Reconcile.Summarize | compare_databases.py:92-111 | ratios and summary row from the final counters give the report `Build` specifies |
| Reconcile.Header | compare_databases.py:99 | reference definition of the sheet's columns: the merged-row labels in order of first write, without repeats |
| Reconcile.HeaderIsLabels | compare_databases.py:76-99 | with unambiguous labels, the sheet's columns are exactly `Labels`: `ts`, then for each compared column in table order its two prefixed labels and its verdict label |
| Reconcile.Publish | compare_databases.py:113-131 | the published sheet holds the grid of header and rows; each cell's fill is the styling of its value |
| Reconcile.PairsIffPartnered | compare_databases.py:73-89 | the loop forms a pair iff some left row has a partner |
| Reconcile.OutcomeCases | compare_databases.py:59-92 | schema mismatch iff the column sets differ; missing `ts` iff the sets agree, `ts` is absent and both snapshots have rows; a report iff the sets agree, `ts` is present, there is another column and some left row has a partner |
| Reconcile.OutcomeReport | compare_databases.py:59-111 | a successful run's report is `Build` of the loop's pairs; there is at least one pair and at most one per left row |
| Reconcile.ReportTotals | compare_databases.py:64-92 | `len(merged) <= len(data1)`; `total_cells == len(merged) * (#cols - 1)`; `matching_cells` is the sum of the counts and at most `total_cells`; the overall ratio has a positive denominator and is at most 100% |
| Reconcile.ReportColumns | compare_databases.py:95-96 | every count is at most `len(merged)`; every ratio is that count over the positive left row count, so at most 100% |
| Reconcile.BuildRows | compare_databases.py:99-111 | the written rows are the merged rows, in pair order, each with the layout of its pair, then the summary row last |
| Reconcile.ReportRows | compare_databases.py:99-111 | the same, for the report of a successful run of two snapshots |
| Reconcile.VerdictLabelsInHeader | compare_databases.py:99-111 | every verdict label is a column of the sheet |
| Reconcile.MergedLineFilled | compare_databases.py:126-131 | on a merged row's line, a verdict cell turns green iff the pair's values are equal, and red otherwise |
| Reconcile.SummaryLineUnfilled | compare_databases.py:126-131 | no cell on the summary line is filled |
| Reconcile.BuildFills | compare_databases.py:113-131 | the fills of the sheet of a build: verdict labels present, verdict cells coloured by agreement, summary line unfilled |
| Reconcile.PublishedFills | compare_databases.py:113-131 | the same, for the sheet of a successful run of two snapshots |

## Left out

- Reading the snapshots (lines 9-33): the SQLite connection, the SQL query and the missing-table case are I/O. The two tables are parameters.
- Configuration (lines 36-45): the two prefixes and the output path come from a configuration file. They are parameters here.
- The JSON round trip (lines 52-57) is not modelled. Cell values are `Null`, exact numbers or strings, and equality of numbers is equality of reals, as in Python, where `1 == 1.0`.
- Floating point is not modelled: both percentages are exact `Ratio` values.
- Summary.PercentText: rounds the exact ratio half up to two decimals. Python's `:.2f` rounds the binary double half to even, so the two texts can differ at a tie, for example 3.125% (a count of 1 out of 32 rows).
- Summary.ColumnPercentages: requires a non-empty left snapshot when there are counts. The ZeroDivisionError line 96 would then raise is never reached, because line 92 raises first (`Reconcile.Outcome`).
- The printed overall percentage (line 137) is kept only as the `overall` ratio.
- The iteration order of line 95 does not affect the resulting dictionary, and the loop visits its keys in an arbitrary order.
- Spreadsheet serialisation (lines 99-119):
  - pandas' header styling is not modelled.
  - The way an empty string is written and read back is not modelled.
  - Cell types and the file format are not modelled.
  The sheet is read back as the grid that was written.
- Saving the workbook (line 134) and the console output (lines 137-142) are I/O.
- Label collisions are modelled by map overwrite, exactly as the script's dictionaries behave. This happens with equal prefixes, or with a column name whose label equals another label. The layout lemmas (`MergeRowFields`, `SummaryRowFields`, `ReportRows`, `PublishedFills`) assume labels that do not collide (`UnambiguousLabels`).
