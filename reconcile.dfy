/** The whole reconciliation of two table snapshots (lines 59-131): the
    schema guard, the comparison loop, the ratios, the summary row and the
    styled sheet, with the three ways the script stops early. */
module Reconcile {
  import opened Tables
  import opened Matching
  import opened Comparing
  import opened Summary
  import opened Sheet

  /** What a successful run produces. */
  datatype Report = Report(
    mergedRows: seq<Row>,
    totalCells: nat,
    matchingCells: nat,
    columnMatchingCounts: map<string, nat>,
    overall: Ratio,
    columnMatchingPercentages: map<string, Ratio>,
    output: seq<Row>)

  /** Two snapshots with the same column set including 'ts': every row
      carries every column and the key, and so does every matched pair. */
  lemma Inputs(t1: Table, t2: Table)
    requires WellFormed(t1) && WellFormed(t2)
    requires ColumnSet(t1) == ColumnSet(t2) && Key in t1.columns
    ensures RowsCover(t1.rows, t1.columns) && RowsCover(t2.rows, t1.columns)
    ensures Keyed(t1.rows) && Keyed(t2.rows)
    ensures PairsCover(MatchPairs(t1.rows, t2.rows), t1.columns)
    ensures |MatchPairs(t1.rows, t2.rows)| <= |t1.rows|
  {
    WellFormedCovers(t1, t1.columns);
    WellFormedCovers(t2, t1.columns);
    MatchPairsCover(t1.rows, t2.rows, t1.columns);
    MatchPairsBound(t1.rows, t2.rows);
  }

  /** Matched pairs are made of rows of the two tables, so they carry
      every column the tables' rows carry. */
  lemma {:induction false} MatchPairsCover(left: seq<Row>, right: seq<Row>, cols: seq<string>)
    requires Keyed(left) && Keyed(right) && RowsCover(left, cols) && RowsCover(right, cols)
    ensures PairsCover(MatchPairs(left, right), cols)
  {
    if left != [] {
      var n := |left| - 1;
      MatchPairsCover(left[..n], right, cols);
      var row := left[n];
      match FirstMatch(row[Key], right)
      case None =>
      case Some(j) =>
    }
  }

  /** The per-column ratios of line 96. */
  function Percentages(counts: map<string, nat>, rows: nat): map<string, Ratio> {
    map c | c in counts :: Ratio(counts[c], rows)
  }

  /** Every compared column has a count, a ratio over `rows` and a
      text. */
  lemma CountsPrintable(pairs: seq<Pair>, cols: seq<string>, rows: nat)
    requires PairsCover(pairs, cols) && rows > 0
    ensures Printable(PercentTexts(Percentages(ColumnCounts(pairs, cols), rows)), cols)
  {
  }

  /** The report of a run whose comparison loop formed `pairs`, for a left
      table of `rows` rows. */
  function Build(pairs: seq<Pair>, cols: seq<string>, prefix1: string, prefix2: string, rows: nat): Report
    requires Key in cols && PairsCover(pairs, cols) && rows > 0
  {
    var total := |pairs| * Compared(cols, |cols|);
    var matching := CellAgreements(pairs, cols);
    var counts := ColumnCounts(pairs, cols);
    var pcts := Percentages(counts, rows);
    var merged := MergeAll(pairs, cols, prefix1, prefix2);
    CountsPrintable(pairs, cols, rows);
    Report(merged, total, matching, counts, Ratio(matching, total), pcts,
           merged + [SummaryFields(cols, prefix1, prefix2, PercentTexts(pcts), |cols|)])
  }

  /** The result of a run, defined on the two snapshots: a schema mismatch
      (line 60), a missing 'ts' column met by the first comparison
      (line 75), no compared cell to divide by (line 92), or the report. */
  function Outcome(t1: Table, t2: Table, prefix1: string, prefix2: string): Result<Report>
    requires WellFormed(t1) && WellFormed(t2)
  {
    if ColumnSet(t1) != ColumnSet(t2) then Failure(SchemaMismatch)
    else if Key !in t1.columns then
      if |t1.rows| > 0 && |t2.rows| > 0 then Failure(MissingKey) else Failure(NoComparedCells)
    else
      Inputs(t1, t2);
      var pairs := MatchPairs(t1.rows, t2.rows);
      if |pairs| * Compared(t1.columns, |t1.columns|) == 0 then Failure(NoComparedCells)
      else Success(Build(pairs, t1.columns, prefix1, prefix2, |t1.rows|))
  }

  /** Lines 59-111: the schema guard, the comparison loop, the ratios and
      the summary row, run step by step. */
  method Run(t1: Table, t2: Table, prefix1: string, prefix2: string) returns (r: Result<Report>)
    requires WellFormed(t1) && WellFormed(t2)
    ensures r == Outcome(t1, t2, prefix1, prefix2)
  {
    if ColumnSet(t1) != ColumnSet(t2) {
      return Failure(SchemaMismatch);
    }
    if Key !in t1.columns {
      if |t1.rows| > 0 && |t2.rows| > 0 {
        return Failure(MissingKey);
      }
      return Failure(NoComparedCells);
    }
    Inputs(t1, t2);
    var agg := new Aggregator(t1.columns, prefix1, prefix2);
    agg.CompareTables(t1.rows, t2.rows);
    if agg.totalCells == 0 {
      return Failure(NoComparedCells);
    }
    var report := Summarize(agg, |t1.rows|);
    r := Success(report);
  }

  /** Lines 92-111 on the state the comparison loop left behind. */
  method Summarize(agg: Aggregator, rows: nat) returns (report: Report)
    requires agg.Valid() && agg.totalCells > 0 && |agg.pairs| <= rows
    ensures report == Build(agg.pairs, agg.columns, agg.prefix1, agg.prefix2, rows)
  {
    var overall := Ratio(agg.matchingCells, agg.totalCells);
    var pcts := ColumnPercentages(agg.columnMatchingCounts, rows);
    assert pcts == Percentages(agg.columnMatchingCounts, rows);
    var summary := BuildSummaryRow(agg.columns, agg.prefix1, agg.prefix2, pcts);
    report := Report(agg.mergedRows, agg.totalCells, agg.matchingCells, agg.columnMatchingCounts,
                     overall, pcts, agg.mergedRows + [summary]);
  }

  /** The columns of the written sheet: the labels of a merged row in the
      order they were first written. */
  function Header(cols: seq<string>, prefix1: string, prefix2: string): seq<string> {
    Dedup(Labels(cols, prefix1, prefix2, |cols|))
  }

  /** With labels that do not collide, the columns of the sheet are the
      labels in the order the script writes them: 'ts', then, for each
      compared column in table order, its two prefixed labels and its
      verdict label. */
  lemma HeaderIsLabels(cols: seq<string>, prefix1: string, prefix2: string)
    requires Distinct(cols) && UnambiguousLabels(cols, prefix1, prefix2)
    ensures Header(cols, prefix1, prefix2) == Labels(cols, prefix1, prefix2, |cols|)
  {
    LabelsDistinct(cols, prefix1, prefix2, |cols|);
  }

  /** Lines 113-134: the rows are written under the header, read back and
      styled. */
  method Publish(cols: seq<string>, prefix1: string, prefix2: string, output: seq<Row>) returns (ws: Worksheet)
    ensures ws.Valid() && fresh(ws.cells) && fresh(ws.fills)
    ensures var g := Grid(Header(cols, prefix1, prefix2), output);
      && ws.cells.Length0 == |g| && ws.cells.Length1 == |Header(cols, prefix1, prefix2)|
      && forall i, j :: 0 <= i < |g| && 0 <= j < |g[i]| ==>
           ws.cells[i, j] == g[i][j] && ws.fills[i, j] == StyleCell(i, g[i][j], NoFill)
  {
    var g := Grid(Header(cols, prefix1, prefix2), output);
    ws := new Worksheet.Load(g);
    ws.StyleVerdicts();
  }

  /** Some row of `left` has a partner in `right`: a row with the same
      'ts' value. */
  predicate Partnered(left: seq<Row>, right: seq<Row>) {
    exists i, j :: 0 <= i < |left| && 0 <= j < |right| && Key in left[i] && Key in right[j]
      && right[j][Key] == left[i][Key]
  }

  /** The loop forms a pair exactly when some left row has a partner. */
  lemma PairsIffPartnered(left: seq<Row>, right: seq<Row>)
    requires Keyed(left) && Keyed(right)
    ensures |MatchPairs(left, right)| > 0 <==> Partnered(left, right)
  {
    var pairs := MatchPairs(left, right);
    if Partnered(left, right) {
      var i, j :| 0 <= i < |left| && 0 <= j < |right| && Key in left[i] && Key in right[j]
        && right[j][Key] == left[i][Key];
      MatchPairsComplete(left, right, i, j);
    }
    if |pairs| > 0 {
      var idx := MatchPairsSound(left, right);
      assert PairedAt(pairs[0], left, idx[0], right);
      var j := FirstMatch(left[idx[0]][Key], right).value;
      assert right[j][Key] == left[idx[0]][Key];
    }
  }

  /** A product of naturals is zero exactly when a factor is. */
  lemma {:induction false} ZeroProduct(a: nat, b: nat)
    ensures a * b == 0 <==> a == 0 || b == 0
  {
    if a > 0 {
      ZeroProduct(a - 1, b);
      assert a * b == (a - 1) * b + b;
    }
  }

  /** The three ways a run stops early and when it succeeds: the schema
      guard fails first and exactly when the column sets differ; the
      missing 'ts' column is met exactly when the loop reaches a pair of
      rows; and there is a report exactly when some column besides 'ts'
      is compared and some left row has a partner. */
  lemma OutcomeCases(t1: Table, t2: Table, prefix1: string, prefix2: string)
    requires WellFormed(t1) && WellFormed(t2)
    ensures Outcome(t1, t2, prefix1, prefix2) == Failure(SchemaMismatch) <==> ColumnSet(t1) != ColumnSet(t2)
    ensures Outcome(t1, t2, prefix1, prefix2) == Failure(MissingKey) <==>
      ColumnSet(t1) == ColumnSet(t2) && Key !in t1.columns && |t1.rows| > 0 && |t2.rows| > 0
    ensures Outcome(t1, t2, prefix1, prefix2).Success? <==>
      ColumnSet(t1) == ColumnSet(t2) && Key in t1.columns && |t1.columns| > 1 && Partnered(t1.rows, t2.rows)
  {
    if ColumnSet(t1) == ColumnSet(t2) && Key in t1.columns {
      Inputs(t1, t2);
      var n := |MatchPairs(t1.rows, t2.rows)|;
      var compared := Compared(t1.columns, |t1.columns|);
      ComparedCount(t1.columns, |t1.columns|);
      assert t1.columns[..|t1.columns|] == t1.columns;
      PairsIffPartnered(t1.rows, t2.rows);
      ZeroProduct(n, compared);
    }
  }

  /** A successful run's report is the one built from the pairs the loop
      forms, and the inputs meet everything the build needs. */
  lemma OutcomeReport(t1: Table, t2: Table, prefix1: string, prefix2: string)
    requires WellFormed(t1) && WellFormed(t2) && Outcome(t1, t2, prefix1, prefix2).Success?
    ensures ColumnSet(t1) == ColumnSet(t2) && Key in t1.columns
    ensures Keyed(t1.rows) && Keyed(t2.rows)
    ensures var pairs := MatchPairs(t1.rows, t2.rows);
      && PairsCover(pairs, t1.columns) && 0 < |pairs| <= |t1.rows|
      && Compared(t1.columns, |t1.columns|) == |t1.columns| - 1
      && Outcome(t1, t2, prefix1, prefix2).value == Build(pairs, t1.columns, prefix1, prefix2, |t1.rows|)
  {
    Inputs(t1, t2);
    ComparedCount(t1.columns, |t1.columns|);
    assert t1.columns[..|t1.columns|] == t1.columns;
  }

  /** The counters of a successful run (lines 64-92): at most one merged
      row per left row, `total_cells` is one cell per merged row and
      compared column, `matching_cells` is the sum of the per-column
      counts and at most `total_cells`, so the overall ratio has a
      positive denominator and is at most 100%. */
  lemma ReportTotals(t1: Table, t2: Table, prefix1: string, prefix2: string)
    requires WellFormed(t1) && WellFormed(t2) && Outcome(t1, t2, prefix1, prefix2).Success?
    ensures var r := Outcome(t1, t2, prefix1, prefix2).value;
      && |r.mergedRows| <= |t1.rows|
      && r.totalCells == |r.mergedRows| * (|t1.columns| - 1)
      && r.columnMatchingCounts.Keys == (set c | c in t1.columns && c != Key)
      && r.matchingCells == SumCounts(r.columnMatchingCounts, t1.columns, |t1.columns|)
      && r.matchingCells <= r.totalCells
      && r.overall == Ratio(r.matchingCells, r.totalCells) && r.overall.den > 0 && AtMostWhole(r.overall)
  {
    OutcomeReport(t1, t2, prefix1, prefix2);
    var pairs := MatchPairs(t1.rows, t2.rows);
    CountsAddUp(pairs, t1.columns);
    ColumnSumOfCounts(pairs, t1.columns, |t1.columns|);
    MatchingAtMostTotal(pairs, t1.columns);
  }

  /** The per-column figures of a successful run (lines 95-96): each count
      is at most the number of merged rows, and each ratio is that count
      over the number of left rows, which is positive, so it is at most
      100%. */
  lemma ReportColumns(t1: Table, t2: Table, prefix1: string, prefix2: string)
    requires WellFormed(t1) && WellFormed(t2) && Outcome(t1, t2, prefix1, prefix2).Success?
    ensures var r := Outcome(t1, t2, prefix1, prefix2).value;
      && |t1.rows| > 0
      && r.columnMatchingPercentages.Keys == r.columnMatchingCounts.Keys
      && forall c :: c in r.columnMatchingCounts ==>
           && r.columnMatchingCounts[c] <= |r.mergedRows|
           && r.columnMatchingPercentages[c] == Ratio(r.columnMatchingCounts[c], |t1.rows|)
           && AtMostWhole(r.columnMatchingPercentages[c])
  {
    OutcomeReport(t1, t2, prefix1, prefix2);
  }

  /** Row `m` is the merged row of `row1` and `row2`: 'ts' holds the left
      key, and every compared column has both values and its verdict. */
  predicate MergedFrom(m: Row, row1: Row, row2: Row, cols: seq<string>, prefix1: string, prefix2: string)
    requires Key in row1 && Covers(row1, cols) && Covers(row2, cols)
  {
    && Key in m && m[Key] == row1[Key]
    && forall i :: 0 <= i < |cols| && cols[i] != Key ==>
         HasFields(m, cols[i], prefix1, prefix2, row1[cols[i]], row2[cols[i]])
  }

  /** Row `m` is a summary row: 'ts' reads "Matching Percentage", and every
      compared column has blank prefixed fields and its percentage. */
  predicate SummaryOf(m: Row, cols: seq<string>, prefix1: string, prefix2: string, pcts: map<string, Ratio>) {
    && Key in m && m[Key] == Str(MatchingPercentage)
    && forall i :: 0 <= i < |cols| && cols[i] != Key ==>
         && cols[i] in pcts && pcts[cols[i]].den > 0
         && Holds3(m, cols[i], prefix1, prefix2, Str(""), Str(""), Str(PercentText(pcts[cols[i]])))
  }

  /** The rows a build writes: one merged row per pair, in the order of
      the pairs, then the summary row. */
  lemma BuildRows(pairs: seq<Pair>, cols: seq<string>, prefix1: string, prefix2: string, rows: nat)
    requires Key in cols && PairsCover(pairs, cols) && rows > 0
    requires Distinct(cols) && UnambiguousLabels(cols, prefix1, prefix2)
    ensures var r := Build(pairs, cols, prefix1, prefix2, rows);
      && |r.output| == |pairs| + 1
      && (forall k :: 0 <= k < |pairs| ==>
            r.output[k] == r.mergedRows[k] && MergedFrom(r.output[k], pairs[k].0, pairs[k].1, cols, prefix1, prefix2))
      && SummaryOf(r.output[|pairs|], cols, prefix1, prefix2, r.columnMatchingPercentages)
  {
    var r := Build(pairs, cols, prefix1, prefix2, rows);
    forall k | 0 <= k < |pairs|
      ensures MergedFrom(r.mergedRows[k], pairs[k].0, pairs[k].1, cols, prefix1, prefix2)
    {
      MergeRowFields(pairs[k].0, pairs[k].1, cols, prefix1, prefix2);
    }
    CountsPrintable(pairs, cols, rows);
    SummaryRowFields(cols, prefix1, prefix2, PercentTexts(r.columnMatchingPercentages));
  }

  /** The written rows of a successful run (lines 99-111): one merged row
      per pair in the order of the pairs, then the summary row last, whose
      'ts' reads "Matching Percentage", whose prefixed fields are blank and
      whose `_Comparison` fields carry the column percentages. */
  lemma ReportRows(t1: Table, t2: Table, prefix1: string, prefix2: string)
    requires WellFormed(t1) && WellFormed(t2) && Outcome(t1, t2, prefix1, prefix2).Success?
    requires UnambiguousLabels(t1.columns, prefix1, prefix2)
    ensures Keyed(t1.rows) && Keyed(t2.rows) && PairsCover(MatchPairs(t1.rows, t2.rows), t1.columns)
    ensures var r := Outcome(t1, t2, prefix1, prefix2).value;
      var pairs := MatchPairs(t1.rows, t2.rows);
      && |r.output| == |pairs| + 1
      && (forall k :: 0 <= k < |pairs| ==>
            r.output[k] == r.mergedRows[k] && MergedFrom(r.output[k], pairs[k].0, pairs[k].1, t1.columns, prefix1, prefix2))
      && SummaryOf(r.output[|pairs|], t1.columns, prefix1, prefix2, r.columnMatchingPercentages)
  {
    OutcomeReport(t1, t2, prefix1, prefix2);
    BuildRows(MatchPairs(t1.rows, t2.rows), t1.columns, prefix1, prefix2, |t1.rows|);
  }

  /** No cell of a line is filled by the styling pass. */
  predicate Unfilled(line: seq<Value>, i: nat) {
    forall j :: 0 <= j < |line| ==> StyleCell(i, line[j], NoFill) == NoFill
  }

  /** The verdict cells of the line of merged row `k`: under the verdict
      label of a compared column the fill is green when the pair's values
      are equal and red when they differ. */
  predicate VerdictsFilled(line: seq<Value>, i: nat, header: seq<string>, p: Pair, cols: seq<string>)
    requires Covers(p.0, cols) && Covers(p.1, cols)
  {
    forall j, c ::
      (&& 0 <= j < |line| && 0 <= j < |header| && 0 <= c < |cols| && cols[c] != Key
       && header[j] == Label(cols[c], Comparison)) ==>
        StyleCell(i, line[j], NoFill) == if p.0[cols[c]] == p.1[cols[c]] then Green else Red
  }

  /** Every verdict label is a column of the sheet: the summary row
      carries it, and its fields are the labels. */
  lemma VerdictLabelsInHeader(cols: seq<string>, prefix1: string, prefix2: string, texts: map<string, string>)
    requires Printable(texts, cols) && Distinct(cols) && UnambiguousLabels(cols, prefix1, prefix2)
    ensures forall i :: 0 <= i < |cols| && cols[i] != Key ==> Label(cols[i], Comparison) in Header(cols, prefix1, prefix2)
  {
    SummaryRowFields(cols, prefix1, prefix2, texts);
    SummaryFieldsKeys(cols, prefix1, prefix2, texts, |cols|);
  }

  /** The line of a merged row has its verdict cells filled by the
      verdicts. */
  lemma MergedLineFilled(header: seq<string>, output: seq<Row>, k: nat, p: Pair, cols: seq<string>,
                         prefix1: string, prefix2: string)
    requires Key in p.0 && Covers(p.0, cols) && Covers(p.1, cols)
    requires Distinct(cols) && UnambiguousLabels(cols, prefix1, prefix2)
    requires k < |output| && output[k] == MergeRow(p.0, p.1, cols, prefix1, prefix2)
    ensures VerdictsFilled(Grid(header, output)[k + 1], k + 1, header, p, cols)
  {
    MergeRowFields(p.0, p.1, cols, prefix1, prefix2);
    forall j | 0 <= j < |header| ensures Grid(header, output)[k + 1][j] == Cell(output[k], header[j]) {
      GridAt(header, output, k, j);
    }
  }

  /** The line of the summary row has no cell filled. */
  lemma SummaryLineUnfilled(header: seq<string>, output: seq<Row>, cols: seq<string>,
                            prefix1: string, prefix2: string, pcts: map<string, Ratio>)
    requires Printable(PercentTexts(pcts), cols) && |output| > 0
    requires output[|output| - 1] == SummaryFields(cols, prefix1, prefix2, PercentTexts(pcts), |cols|)
    ensures Unfilled(Grid(header, output)[|output|], |output|)
  {
    var last := output[|output| - 1];
    PercentTextsSigned(pcts);
    SummaryHasNoVerdict(cols, prefix1, prefix2, PercentTexts(pcts), |cols|);
    forall j | 0 <= j < |header| ensures Grid(header, output)[|output|][j] == Cell(last, header[j]) {
      GridAt(header, output, |output| - 1, j);
    }
  }

  /** Every merged row's line of the sheet a build publishes has its
      verdict cells filled by the verdicts. */
  lemma MergedLinesFilled(pairs: seq<Pair>, cols: seq<string>, prefix1: string, prefix2: string, rows: nat)
    requires Key in cols && PairsCover(pairs, cols) && rows > 0
    requires Distinct(cols) && UnambiguousLabels(cols, prefix1, prefix2)
    ensures var r := Build(pairs, cols, prefix1, prefix2, rows);
      var header := Header(cols, prefix1, prefix2);
      forall k :: 0 <= k < |pairs| ==> VerdictsFilled(Grid(header, r.output)[k + 1], k + 1, header, pairs[k], cols)
  {
    var r := Build(pairs, cols, prefix1, prefix2, rows);
    var header := Header(cols, prefix1, prefix2);
    forall k | 0 <= k < |pairs|
      ensures VerdictsFilled(Grid(header, r.output)[k + 1], k + 1, header, pairs[k], cols)
    {
      assert r.output[k] == r.mergedRows[k];
      MergedLineFilled(header, r.output, k, pairs[k], cols, prefix1, prefix2);
    }
  }

  /** The fills of the sheet a build publishes. */
  lemma BuildFills(pairs: seq<Pair>, cols: seq<string>, prefix1: string, prefix2: string, rows: nat)
    requires Key in cols && PairsCover(pairs, cols) && rows > 0
    requires Distinct(cols) && UnambiguousLabels(cols, prefix1, prefix2)
    ensures var r := Build(pairs, cols, prefix1, prefix2, rows);
      var header := Header(cols, prefix1, prefix2);
      var g := Grid(header, r.output);
      && |g| == |pairs| + 2
      && (forall i :: 0 <= i < |cols| && cols[i] != Key ==> Label(cols[i], Comparison) in header)
      && (forall k :: 0 <= k < |pairs| ==> VerdictsFilled(g[k + 1], k + 1, header, pairs[k], cols))
      && Unfilled(g[|pairs| + 1], |pairs| + 1)
  {
    var r := Build(pairs, cols, prefix1, prefix2, rows);
    var header := Header(cols, prefix1, prefix2);
    CountsPrintable(pairs, cols, rows);
    VerdictLabelsInHeader(cols, prefix1, prefix2, PercentTexts(r.columnMatchingPercentages));
    MergedLinesFilled(pairs, cols, prefix1, prefix2, rows);
    SummaryLineUnfilled(header, r.output, cols, prefix1, prefix2, r.columnMatchingPercentages);
  }

  /** The fills of the published sheet of a successful run (lines
      126-131): every verdict label is a column of the sheet; on the line
      of merged row `k` the verdict cell of a column turns green when the
      pair's values are equal and red when they differ; and no cell of the
      summary line is filled. */
  lemma PublishedFills(t1: Table, t2: Table, prefix1: string, prefix2: string)
    requires WellFormed(t1) && WellFormed(t2) && Outcome(t1, t2, prefix1, prefix2).Success?
    requires UnambiguousLabels(t1.columns, prefix1, prefix2)
    ensures Keyed(t1.rows) && Keyed(t2.rows) && PairsCover(MatchPairs(t1.rows, t2.rows), t1.columns)
    ensures var r := Outcome(t1, t2, prefix1, prefix2).value;
      var pairs := MatchPairs(t1.rows, t2.rows);
      var header := Header(t1.columns, prefix1, prefix2);
      var g := Grid(header, r.output);
      && |g| == |pairs| + 2
      && (forall i :: 0 <= i < |t1.columns| && t1.columns[i] != Key ==> Label(t1.columns[i], Comparison) in header)
      && (forall k :: 0 <= k < |pairs| ==> VerdictsFilled(g[k + 1], k + 1, header, pairs[k], t1.columns))
      && Unfilled(g[|pairs| + 1], |pairs| + 1)
  {
    OutcomeReport(t1, t2, prefix1, prefix2);
    BuildFills(MatchPairs(t1.rows, t2.rows), t1.columns, prefix1, prefix2, |t1.rows|);
  }
}
