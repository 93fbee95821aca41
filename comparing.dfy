/** The cell comparator and its aggregator: for every matched pair, every
    column other than 'ts' is compared value for value, a merged row with
    both values and a verdict is recorded, and the global and per-column
    agreement counters are advanced. The column loop visits the columns of
    the left table in order; the functions below that follow it take the
    number `n` of columns visited so far. */
module Comparing {
  import opened Tables
  import opened Matching

  const Comparison: string := "Comparison"
  const Correct: string := "Correct"
  const Falsch: string := "FALSCH"

  /** The label of a merged-row field: the column name, an underscore and a
      suffix (one of the two configured prefixes, or "Comparison"). */
  function Label(col: string, suffix: string): string {
    col + "_" + suffix
  }

  /** The verdict cell written for one compared column. */
  function Verdict(same: bool): Value {
    Str(if same then Correct else Falsch)
  }

  /** No label has the key's name: every label holds an underscore and
      "ts" does not. */
  lemma LabelIsNotKey(col: string, suffix: string)
    ensures Label(col, suffix) != Key
  {
    var l := Label(col, suffix);
    assert l[|col|] == '_';
    if |l| == 2 {
      assert Key[0] == 't' && Key[1] == 's';
    }
  }

  function Suffixes(prefix1: string, prefix2: string): seq<string> {
    [prefix1, prefix2, Comparison]
  }

  /** The labels of the compared columns never collide: two labels are equal
      only when they name the same column with the same suffix, and the three
      suffixes are different. When this fails, a later field overwrites an
      earlier one in the merged row. */
  predicate UnambiguousLabels(cols: seq<string>, prefix1: string, prefix2: string) {
    && Distinct(Suffixes(prefix1, prefix2))
    && forall i, j, a, b ::
         (&& 0 <= i < |cols| && 0 <= j < |cols| && cols[i] != Key && cols[j] != Key
          && 0 <= a < 3 && 0 <= b < 3
          && Label(cols[i], Suffixes(prefix1, prefix2)[a]) == Label(cols[j], Suffixes(prefix1, prefix2)[b]))
         ==> cols[i] == cols[j] && a == b
  }

  /** The three labels of one compared column are different. */
  lemma LabelsOfColumnDiffer(cols: seq<string>, prefix1: string, prefix2: string, i: nat)
    requires UnambiguousLabels(cols, prefix1, prefix2) && i < |cols| && cols[i] != Key
    ensures Label(cols[i], prefix1) != Label(cols[i], prefix2)
    ensures Label(cols[i], prefix1) != Label(cols[i], Comparison)
    ensures Label(cols[i], prefix2) != Label(cols[i], Comparison)
  {
    var sfx := Suffixes(prefix1, prefix2);
    assert sfx[0] == prefix1 && sfx[1] == prefix2 && sfx[2] == Comparison;
  }

  /** No label of one compared column is a label of another. */
  lemma LabelsOfColumnsDiffer(cols: seq<string>, prefix1: string, prefix2: string, i: nat, j: nat)
    requires UnambiguousLabels(cols, prefix1, prefix2) && i < |cols| && j < |cols|
    requires cols[i] != Key && cols[j] != Key && cols[i] != cols[j]
    ensures Label(cols[i], prefix1) != Label(cols[j], prefix1) && Label(cols[i], prefix1) != Label(cols[j], prefix2)
      && Label(cols[i], prefix1) != Label(cols[j], Comparison)
    ensures Label(cols[i], prefix2) != Label(cols[j], prefix1) && Label(cols[i], prefix2) != Label(cols[j], prefix2)
      && Label(cols[i], prefix2) != Label(cols[j], Comparison)
    ensures Label(cols[i], Comparison) != Label(cols[j], prefix1) && Label(cols[i], Comparison) != Label(cols[j], prefix2)
      && Label(cols[i], Comparison) != Label(cols[j], Comparison)
  {
    var sfx := Suffixes(prefix1, prefix2);
    assert sfx[0] == prefix1 && sfx[1] == prefix2 && sfx[2] == Comparison;
  }

  /** Writes the three fields of column `c` into row `m`, in the order
      the script writes them. */
  function Put3(m: Row, c: string, prefix1: string, prefix2: string, w1: Value, w2: Value, w3: Value): Row {
    m[Label(c, prefix1) := w1][Label(c, prefix2) := w2][Label(c, Comparison) := w3]
  }

  /** Row `m` holds `w1`, `w2` and `w3` in the three fields of column `c`. */
  predicate Holds3(m: Row, c: string, prefix1: string, prefix2: string, w1: Value, w2: Value, w3: Value) {
    && Label(c, prefix1) in m && m[Label(c, prefix1)] == w1
    && Label(c, prefix2) in m && m[Label(c, prefix2)] == w2
    && Label(c, Comparison) in m && m[Label(c, Comparison)] == w3
  }

  /** Once written, the three fields of a compared column hold what was
      written: none of the three writes overwrites another. */
  lemma Put3Sets(m: Row, cols: seq<string>, prefix1: string, prefix2: string, i: nat, w1: Value, w2: Value, w3: Value)
    requires UnambiguousLabels(cols, prefix1, prefix2) && i < |cols| && cols[i] != Key
    ensures Holds3(Put3(m, cols[i], prefix1, prefix2, w1, w2, w3), cols[i], prefix1, prefix2, w1, w2, w3)
  {
    LabelsOfColumnDiffer(cols, prefix1, prefix2, i);
  }

  /** Writing the fields of another compared column keeps those of
      `cols[i]`. */
  lemma Put3Keeps(m: Row, cols: seq<string>, prefix1: string, prefix2: string, i: nat, j: nat,
                  v1: Value, v2: Value, v3: Value, w1: Value, w2: Value, w3: Value)
    requires UnambiguousLabels(cols, prefix1, prefix2) && i < |cols| && j < |cols|
    requires cols[i] != Key && cols[j] != Key && cols[i] != cols[j]
    requires Holds3(m, cols[i], prefix1, prefix2, v1, v2, v3)
    ensures Holds3(Put3(m, cols[j], prefix1, prefix2, w1, w2, w3), cols[i], prefix1, prefix2, v1, v2, v3)
  {
    LabelsOfColumnsDiffer(cols, prefix1, prefix2, i, j);
  }

  /** Writing the fields of a column never touches the key field. */
  lemma Put3KeepsKey(m: Row, c: string, prefix1: string, prefix2: string, w1: Value, w2: Value, w3: Value)
    requires Key in m
    ensures var r := Put3(m, c, prefix1, prefix2, w1, w2, w3);
      Key in r && r[Key] == m[Key]
  {
    LabelIsNotKey(c, prefix1);
    LabelIsNotKey(c, prefix2);
    LabelIsNotKey(c, Comparison);
  }

  /** The field labels in the order they are first written for the first
      `n` columns: 'ts', then, for each compared column, its two prefixed
      labels and its verdict label. */
  function Labels(cols: seq<string>, prefix1: string, prefix2: string, n: nat): (r: seq<string>)
    requires n <= |cols|
    ensures |r| == 1 + 3 * Compared(cols, n) && r[0] == Key
  {
    if n == 0 then [Key]
    else
      var c := cols[n - 1];
      Labels(cols, prefix1, prefix2, n - 1) +
        (if c == Key then [] else [Label(c, prefix1), Label(c, prefix2), Label(c, Comparison)])
  }

  /** The labels of a compared column not among the first `n` columns do
      not occur among the labels of those columns. */
  lemma {:induction false} FreshLabels(cols: seq<string>, prefix1: string, prefix2: string, n: nat, m: nat)
    requires Distinct(cols) && UnambiguousLabels(cols, prefix1, prefix2)
    requires n <= m < |cols| && cols[m] != Key
    ensures var l := Labels(cols, prefix1, prefix2, n);
      Label(cols[m], prefix1) !in l && Label(cols[m], prefix2) !in l && Label(cols[m], Comparison) !in l
  {
    if n == 0 {
      LabelIsNotKey(cols[m], prefix1);
      LabelIsNotKey(cols[m], prefix2);
      LabelIsNotKey(cols[m], Comparison);
    } else {
      FreshLabels(cols, prefix1, prefix2, n - 1, m);
      var c := cols[n - 1];
      if c != Key {
        var l := Labels(cols, prefix1, prefix2, n - 1);
        var added := [Label(c, prefix1), Label(c, prefix2), Label(c, Comparison)];
        assert Labels(cols, prefix1, prefix2, n) == l + added;
        LabelsOfColumnsDiffer(cols, prefix1, prefix2, m, n - 1);
        NotInAppended(Label(cols[m], prefix1), l, added);
        NotInAppended(Label(cols[m], prefix2), l, added);
        NotInAppended(Label(cols[m], Comparison), l, added);
      } else {
        assert Labels(cols, prefix1, prefix2, n) == Labels(cols, prefix1, prefix2, n - 1) + [];
      }
    }
  }

  lemma NotInAppended(x: string, a: seq<string>, b: seq<string>)
    requires x !in a && |b| == 3 && x != b[0] && x != b[1] && x != b[2]
    ensures x !in a + b
  {
    assert forall k :: 0 <= k < |b| ==> b[k] != x;
  }

  /** With distinct columns and labels that do not collide, no label is
      written twice: the labels have no repeats. */
  lemma {:induction false} LabelsDistinct(cols: seq<string>, prefix1: string, prefix2: string, n: nat)
    requires n <= |cols| && Distinct(cols) && UnambiguousLabels(cols, prefix1, prefix2)
    ensures Distinct(Labels(cols, prefix1, prefix2, n))
  {
    if n > 0 {
      LabelsDistinct(cols, prefix1, prefix2, n - 1);
      var c := cols[n - 1];
      if c != Key {
        var added := [Label(c, prefix1), Label(c, prefix2), Label(c, Comparison)];
        LabelsOfColumnDiffer(cols, prefix1, prefix2, n - 1);
        FreshLabels(cols, prefix1, prefix2, n - 1, n - 1);
        assert Distinct(added);
        DistinctConcat(Labels(cols, prefix1, prefix2, n - 1), added);
      }
    }
  }

  /** The merged row after the column loop has visited the first `n`
      columns. */
  function MergeFields(row1: Row, row2: Row, cols: seq<string>, prefix1: string, prefix2: string, n: nat): Row
    requires n <= |cols| && Key in row1 && Covers(row1, cols) && Covers(row2, cols)
  {
    if n == 0 then map[Key := row1[Key]]
    else
      var c := cols[n - 1];
      var m := MergeFields(row1, row2, cols, prefix1, prefix2, n - 1);
      if c == Key then m else Put3(m, c, prefix1, prefix2, row1[c], row2[c], Verdict(row1[c] == row2[c]))
  }

  /** The merged row of one pair. */
  function MergeRow(row1: Row, row2: Row, cols: seq<string>, prefix1: string, prefix2: string): Row
    requires Key in row1 && Covers(row1, cols) && Covers(row2, cols)
  {
    MergeFields(row1, row2, cols, prefix1, prefix2, |cols|)
  }

  /** A merged row has exactly the fields named by `Labels`. */
  lemma {:induction false} MergeFieldsKeys(row1: Row, row2: Row, cols: seq<string>, prefix1: string, prefix2: string, n: nat)
    requires n <= |cols| && Key in row1 && Covers(row1, cols) && Covers(row2, cols)
    ensures forall l :: l in MergeFields(row1, row2, cols, prefix1, prefix2, n) <==> l in Labels(cols, prefix1, prefix2, n)
  {
    if n > 0 {
      MergeFieldsKeys(row1, row2, cols, prefix1, prefix2, n - 1);
    }
  }

  /** The key field of a merged row is the left row's key. */
  lemma {:induction false} MergeFieldsKey(row1: Row, row2: Row, cols: seq<string>, prefix1: string, prefix2: string, n: nat)
    requires n <= |cols| && Key in row1 && Covers(row1, cols) && Covers(row2, cols)
    ensures var m := MergeFields(row1, row2, cols, prefix1, prefix2, n);
      Key in m && m[Key] == row1[Key]
  {
    if n > 0 {
      var c := cols[n - 1];
      MergeFieldsKey(row1, row2, cols, prefix1, prefix2, n - 1);
      if c != Key {
        Put3KeepsKey(MergeFields(row1, row2, cols, prefix1, prefix2, n - 1), c, prefix1, prefix2,
                     row1[c], row2[c], Verdict(row1[c] == row2[c]));
      }
    }
  }

  /** Row `m` holds the three fields of column `c` for the values `v1` and
      `v2`. */
  predicate HasFields(m: Row, c: string, prefix1: string, prefix2: string, v1: Value, v2: Value) {
    Holds3(m, c, prefix1, prefix2, v1, v2, Verdict(v1 == v2))
  }

  /** The column just visited has its three fields. */
  lemma MergeFieldsLast(row1: Row, row2: Row, cols: seq<string>, prefix1: string, prefix2: string, i: nat)
    requires i < |cols| && Key in row1 && Covers(row1, cols) && Covers(row2, cols)
    requires UnambiguousLabels(cols, prefix1, prefix2) && cols[i] != Key
    ensures HasFields(MergeFields(row1, row2, cols, prefix1, prefix2, i + 1), cols[i], prefix1, prefix2, row1[cols[i]], row2[cols[i]])
  {
    var c := cols[i];
    Put3Sets(MergeFields(row1, row2, cols, prefix1, prefix2, i), cols, prefix1, prefix2, i,
             row1[c], row2[c], Verdict(row1[c] == row2[c]));
  }

  /** The three fields of compared column `cols[i]` once the loop has passed
      it: `c_prefix1` holds the left value, `c_prefix2` the right value and
      `c_Comparison` the verdict on their equality. Later columns never
      overwrite them. */
  lemma {:induction false} MergeFieldsAt(row1: Row, row2: Row, cols: seq<string>, prefix1: string, prefix2: string, n: nat, i: nat)
    requires n <= |cols| && Key in row1 && Covers(row1, cols) && Covers(row2, cols)
    requires Distinct(cols) && UnambiguousLabels(cols, prefix1, prefix2)
    requires i < n && cols[i] != Key
    ensures HasFields(MergeFields(row1, row2, cols, prefix1, prefix2, n), cols[i], prefix1, prefix2, row1[cols[i]], row2[cols[i]])
  {
    if i == n - 1 {
      MergeFieldsLast(row1, row2, cols, prefix1, prefix2, i);
    } else {
      MergeFieldsAt(row1, row2, cols, prefix1, prefix2, n - 1, i);
      var d := cols[n - 1];
      if d != Key {
        assert cols[i] != d;
        var c := cols[i];
        Put3Keeps(MergeFields(row1, row2, cols, prefix1, prefix2, n - 1), cols, prefix1, prefix2, i, n - 1,
                  row1[c], row2[c], Verdict(row1[c] == row2[c]), row1[d], row2[d], Verdict(row1[d] == row2[d]));
      }
    }
  }

  /** The layout of a merged row: 'ts' holds the left key; for each compared
      column `c`, `c_prefix1` holds the left value, `c_prefix2` the right
      value, and `c_Comparison` is "Correct" exactly when the two are equal
      and "FALSCH" exactly when they differ. */
  lemma MergeRowFields(row1: Row, row2: Row, cols: seq<string>, prefix1: string, prefix2: string)
    requires Key in row1 && Covers(row1, cols) && Covers(row2, cols)
    requires Distinct(cols) && UnambiguousLabels(cols, prefix1, prefix2)
    ensures var m := MergeRow(row1, row2, cols, prefix1, prefix2);
      && Key in m && m[Key] == row1[Key]
      && forall i :: 0 <= i < |cols| && cols[i] != Key ==>
           var c := cols[i];
           && Label(c, prefix1) in m && m[Label(c, prefix1)] == row1[c]
           && Label(c, prefix2) in m && m[Label(c, prefix2)] == row2[c]
           && Label(c, Comparison) in m
           && (m[Label(c, Comparison)] == Str(Correct) <==> row1[c] == row2[c])
           && (m[Label(c, Comparison)] == Str(Falsch) <==> row1[c] != row2[c])
  {
    MergeFieldsKey(row1, row2, cols, prefix1, prefix2, |cols|);
    forall i | 0 <= i < |cols| && cols[i] != Key {
      MergeFieldsAt(row1, row2, cols, prefix1, prefix2, |cols|, i);
    }
  }

  /** Number of pairs that agree on column `c`: the final value of
      `column_matching_counts[c]`. */
  function Agreements(pairs: seq<Pair>, c: string): (r: nat)
    requires forall k :: 0 <= k < |pairs| ==> c in pairs[k].0 && c in pairs[k].1
    ensures r <= |pairs|
  {
    if pairs == [] then 0
    else
      var p := pairs[|pairs| - 1];
      Agreements(pairs[..|pairs| - 1], c) + (if p.0[c] == p.1[c] then 1 else 0)
  }

  /** Number of the first `n` columns that are compared and on which one
      pair agrees. */
  function RowAgreements(row1: Row, row2: Row, cols: seq<string>, n: nat): (r: nat)
    requires n <= |cols| && Covers(row1, cols) && Covers(row2, cols)
    ensures r <= Compared(cols, n)
  {
    if n == 0 then 0
    else
      var c := cols[n - 1];
      RowAgreements(row1, row2, cols, n - 1) + (if c != Key && row1[c] == row2[c] then 1 else 0)
  }

  predicate PairsCover(pairs: seq<Pair>, cols: seq<string>) {
    forall k :: 0 <= k < |pairs| ==> Covers(pairs[k].0, cols) && Covers(pairs[k].1, cols)
  }

  /** The final value of `matching_cells`: agreements summed pair by pair,
      in the order the loop visits them. */
  function CellAgreements(pairs: seq<Pair>, cols: seq<string>): nat
    requires PairsCover(pairs, cols)
  {
    if pairs == [] then 0
    else
      var p := pairs[|pairs| - 1];
      CellAgreements(pairs[..|pairs| - 1], cols) + RowAgreements(p.0, p.1, cols, |cols|)
  }

  /** The per-column counts of the first `n` compared columns, summed
      column by column. */
  function ColumnSum(pairs: seq<Pair>, cols: seq<string>, n: nat): nat
    requires n <= |cols| && PairsCover(pairs, cols)
  {
    if n == 0 then 0
    else
      var c := cols[n - 1];
      ColumnSum(pairs, cols, n - 1) + (if c != Key then Agreements(pairs, c) else 0)
  }

  /** The final `column_matching_counts`: one entry per compared column. */
  function ColumnCounts(pairs: seq<Pair>, cols: seq<string>): map<string, nat>
    requires PairsCover(pairs, cols)
  {
    map c | c in cols && c != Key :: Agreements(pairs, c)
  }

  /** The merged rows of a sequence of pairs. */
  function MergeAll(pairs: seq<Pair>, cols: seq<string>, prefix1: string, prefix2: string): (r: seq<Row>)
    requires Key in cols && PairsCover(pairs, cols)
    ensures |r| == |pairs|
  {
    seq(|pairs|, k requires 0 <= k < |pairs| => MergeRow(pairs[k].0, pairs[k].1, cols, prefix1, prefix2))
  }

  /** Adding one pair to the pairs counted column by column adds that pair's
      own agreements. */
  lemma {:induction false} ColumnSumStep(pairs: seq<Pair>, p: Pair, cols: seq<string>, n: nat)
    requires n <= |cols| && PairsCover(pairs, cols) && Covers(p.0, cols) && Covers(p.1, cols)
    ensures PairsCover(pairs + [p], cols)
    ensures ColumnSum(pairs + [p], cols, n) == ColumnSum(pairs, cols, n) + RowAgreements(p.0, p.1, cols, n)
  {
    assert (pairs + [p])[..|pairs|] == pairs;
    if n > 0 {
      ColumnSumStep(pairs, p, cols, n - 1);
    }
  }

  lemma {:induction false} ColumnSumEmpty(cols: seq<string>, n: nat)
    requires n <= |cols|
    ensures ColumnSum([], cols, n) == 0
  {
    if n > 0 {
      ColumnSumEmpty(cols, n - 1);
    }
  }

  /** `matching_cells` is the sum of all per-column counts: counting pair by
      pair and counting column by column give the same total. */
  lemma {:induction false} CountsAddUp(pairs: seq<Pair>, cols: seq<string>)
    requires PairsCover(pairs, cols)
    ensures CellAgreements(pairs, cols) == ColumnSum(pairs, cols, |cols|)
  {
    if pairs == [] {
      ColumnSumEmpty(cols, |cols|);
    } else {
      var n := |pairs| - 1;
      assert pairs == pairs[..n] + [pairs[n]];
      CountsAddUp(pairs[..n], cols);
      ColumnSumStep(pairs[..n], pairs[n], cols, |cols|);
    }
  }

  /** The sum of the counts in `counts` of the compared columns among the
      first `n` columns. */
  function SumCounts(counts: map<string, nat>, cols: seq<string>, n: nat): nat
    requires n <= |cols| && forall i :: 0 <= i < |cols| && cols[i] != Key ==> cols[i] in counts
  {
    if n == 0 then 0
    else
      var c := cols[n - 1];
      SumCounts(counts, cols, n - 1) + (if c != Key then counts[c] else 0)
  }

  /** Summed column by column, the agreements are the sum of the final
      per-column counts. */
  lemma {:induction false} ColumnSumOfCounts(pairs: seq<Pair>, cols: seq<string>, n: nat)
    requires n <= |cols| && PairsCover(pairs, cols)
    ensures forall i :: 0 <= i < |cols| && cols[i] != Key ==> cols[i] in ColumnCounts(pairs, cols)
    ensures ColumnSum(pairs, cols, n) == SumCounts(ColumnCounts(pairs, cols), cols, n)
  {
    if n > 0 {
      ColumnSumOfCounts(pairs, cols, n - 1);
    }
  }

  /** Every compared cell is counted at most once as matching:
      `matching_cells <= total_cells`. */
  lemma {:induction false} MatchingAtMostTotal(pairs: seq<Pair>, cols: seq<string>)
    requires PairsCover(pairs, cols)
    ensures CellAgreements(pairs, cols) <= |pairs| * Compared(cols, |cols|)
  {
    if pairs != [] {
      var n := |pairs| - 1;
      MatchingAtMostTotal(pairs[..n], cols);
      assert |pairs| * Compared(cols, |cols|) == n * Compared(cols, |cols|) + Compared(cols, |cols|);
    }
  }

  /** The per-column counts `m` after the column loop has compared one pair
      on the first `n` columns: each compared column on which the pair
      agrees is counted once more. */
  function Tally(m: map<string, nat>, row1: Row, row2: Row, cols: seq<string>, n: nat): (t: map<string, nat>)
    requires n <= |cols| && Covers(row1, cols) && Covers(row2, cols)
    requires forall i :: 0 <= i < |cols| && cols[i] != Key ==> cols[i] in m
    ensures t.Keys == m.Keys
  {
    if n == 0 then m
    else
      var c := cols[n - 1];
      var t := Tally(m, row1, row2, cols, n - 1);
      if c != Key && row1[c] == row2[c] then t[c := t[c] + 1] else t
  }

  /** Proof step for the column loop: one more column, for every quantity
      it keeps. */
  lemma ColumnNext(m: map<string, nat>, row1: Row, row2: Row, cols: seq<string>, prefix1: string, prefix2: string, n: nat)
    requires n < |cols| && Key in row1 && Covers(row1, cols) && Covers(row2, cols)
    requires forall i :: 0 <= i < |cols| && cols[i] != Key ==> cols[i] in m
    ensures var c := cols[n];
      var t := Tally(m, row1, row2, cols, n);
      var r := MergeFields(row1, row2, cols, prefix1, prefix2, n);
      && Tally(m, row1, row2, cols, n + 1) == (if c != Key && row1[c] == row2[c] then t[c := t[c] + 1] else t)
      && Compared(cols, n + 1) == Compared(cols, n) + (if c == Key then 0 else 1)
      && RowAgreements(row1, row2, cols, n + 1) == RowAgreements(row1, row2, cols, n) + (if c != Key && row1[c] == row2[c] then 1 else 0)
      && MergeFields(row1, row2, cols, prefix1, prefix2, n + 1) ==
           if c == Key then r else Put3(r, c, prefix1, prefix2, row1[c], row2[c], Verdict(row1[c] == row2[c]))
  {
  }

  /** With distinct columns, a tally adds exactly one to the count of each
      agreeing column it has visited and leaves every other entry as it
      was. */
  lemma {:induction false} TallyAt(m: map<string, nat>, row1: Row, row2: Row, cols: seq<string>, n: nat, c: string)
    requires n <= |cols| && Covers(row1, cols) && Covers(row2, cols) && Distinct(cols)
    requires forall i :: 0 <= i < |cols| && cols[i] != Key ==> cols[i] in m
    requires c in m && c in row1 && c in row2
    ensures Tally(m, row1, row2, cols, n)[c] ==
      m[c] + (if c in cols[..n] && c != Key && row1[c] == row2[c] then 1 else 0)
  {
    if n > 0 {
      TallyAt(m, row1, row2, cols, n - 1, c);
      assert cols[..n] == cols[..n - 1] + [cols[n - 1]];
      if cols[n - 1] == c {
        forall i | 0 <= i < n - 1
          ensures cols[i] != c
        {
          assert cols[i] != cols[n - 1];
        }
        assert c !in cols[..n - 1];
      }
    }
  }

  /** Proof step for `AddPair`: appending one pair appends its merged row. */
  lemma MergeAllExtend(pairs: seq<Pair>, p: Pair, cols: seq<string>, prefix1: string, prefix2: string)
    requires Key in cols && PairsCover(pairs, cols) && Covers(p.0, cols) && Covers(p.1, cols)
    ensures PairsCover(pairs + [p], cols)
    ensures MergeAll(pairs + [p], cols, prefix1, prefix2) ==
      MergeAll(pairs, cols, prefix1, prefix2) + [MergeRow(p.0, p.1, cols, prefix1, prefix2)]
  {
    var next := pairs + [p];
    assert forall k :: 0 <= k < |pairs| ==> next[k] == pairs[k];
    var lhs := MergeAll(next, cols, prefix1, prefix2);
    var rhs := MergeAll(pairs, cols, prefix1, prefix2) + [MergeRow(p.0, p.1, cols, prefix1, prefix2)];
    assert |lhs| == |rhs|;
    forall k | 0 <= k < |lhs| ensures lhs[k] == rhs[k] {
      if k < |pairs| {
        assert lhs[k] == MergeRow(pairs[k].0, pairs[k].1, cols, prefix1, prefix2);
      }
    }
  }

  /** Proof step for `AddPair`: appending one pair adds its agreements to
      the cell total. */
  lemma CellAgreementsExtend(pairs: seq<Pair>, p: Pair, cols: seq<string>)
    requires PairsCover(pairs, cols) && Covers(p.0, cols) && Covers(p.1, cols)
    ensures PairsCover(pairs + [p], cols)
    ensures CellAgreements(pairs + [p], cols) == CellAgreements(pairs, cols) + RowAgreements(p.0, p.1, cols, |cols|)
  {
    assert (pairs + [p])[..|pairs|] == pairs;
  }

  /** Tallying one more pair on top of the counts of `pairs` gives the
      counts of `pairs + [p]`. */
  lemma CountsExtend(pairs: seq<Pair>, p: Pair, cols: seq<string>)
    requires PairsCover(pairs, cols) && Covers(p.0, cols) && Covers(p.1, cols) && Distinct(cols)
    ensures forall i :: 0 <= i < |cols| && cols[i] != Key ==> cols[i] in ColumnCounts(pairs, cols)
    ensures PairsCover(pairs + [p], cols)
    ensures Tally(ColumnCounts(pairs, cols), p.0, p.1, cols, |cols|) == ColumnCounts(pairs + [p], cols)
  {
    var next := pairs + [p];
    var m := ColumnCounts(pairs, cols);
    var t := Tally(m, p.0, p.1, cols, |cols|);
    assert PairsCover(next, cols);
    var u := ColumnCounts(next, cols);
    assert t.Keys == u.Keys;
    forall c | c in t
      ensures t[c] == u[c]
    {
      CountAt(pairs, p, cols, c);
    }
  }

  /** One column's entry after tallying one more pair. */
  lemma CountAt(pairs: seq<Pair>, p: Pair, cols: seq<string>, c: string)
    requires PairsCover(pairs, cols) && Covers(p.0, cols) && Covers(p.1, cols) && Distinct(cols)
    requires c in cols && c != Key
    ensures forall i :: 0 <= i < |cols| && cols[i] != Key ==> cols[i] in ColumnCounts(pairs, cols)
    ensures PairsCover(pairs + [p], cols)
    ensures Tally(ColumnCounts(pairs, cols), p.0, p.1, cols, |cols|)[c] == Agreements(pairs + [p], c)
  {
    var next := pairs + [p];
    assert next[..|pairs|] == pairs;
    assert cols[..|cols|] == cols;
    TallyAt(ColumnCounts(pairs, cols), p.0, p.1, cols, |cols|, c);
  }

  /** The accumulator state of the script (lines 64-70): the counters, the
      per-column dictionary and the merged rows, together with the pairs
      processed so far, which they are a function of. */
  class Aggregator {
    const columns: seq<string>
    const prefix1: string
    const prefix2: string
    var totalCells: nat
    var matchingCells: nat
    var columnMatchingCounts: map<string, nat>
    var mergedRows: seq<Row>
    ghost var pairs: seq<Pair>

    ghost predicate Valid()
      reads this
    {
      && Key in columns && Distinct(columns) && PairsCover(pairs, columns)
      && mergedRows == MergeAll(pairs, columns, prefix1, prefix2)
      && totalCells == |pairs| * Compared(columns, |columns|)
      && matchingCells == CellAgreements(pairs, columns)
      && columnMatchingCounts == ColumnCounts(pairs, columns)
    }

    /** Counters at zero, one zero count per compared column, no rows. */
    constructor (columns: seq<string>, prefix1: string, prefix2: string)
      requires Key in columns && Distinct(columns)
      ensures Valid() && pairs == []
      ensures this.columns == columns && this.prefix1 == prefix1 && this.prefix2 == prefix2
    {
      this.columns := columns;
      this.prefix1 := prefix1;
      this.prefix2 := prefix2;
      totalCells := 0;
      matchingCells := 0;
      columnMatchingCounts := map c | c in columns && c != Key :: 0;
      mergedRows := [];
      pairs := [];
    }

    /** Compares one matched pair: builds its merged row, counts every
        compared cell and every agreeing one, and appends the row
        (lines 76-88). */
    method AddPair(row1: Row, row2: Row)
      requires Valid() && Key in row1 && Covers(row1, columns) && Covers(row2, columns)
      modifies this
      ensures Valid() && pairs == old(pairs) + [(row1, row2)]
    {
      var merged := CompareColumns(row1, row2);
      var p := (row1, row2);
      MergeAllExtend(pairs, p, columns, prefix1, prefix2);
      CellAgreementsExtend(pairs, p, columns);
      CountsExtend(pairs, p, columns);
      assert (|pairs| + 1) * Compared(columns, |columns|) == |pairs| * Compared(columns, |columns|) + Compared(columns, |columns|);
      mergedRows := mergedRows + [merged];
      pairs := pairs + [p];
    }

    /** The column loop of lines 77-87: for every column but 'ts', writes
        both values and the verdict into the merged row, counts the cell,
        and counts it as matching, globally and for its column, when the two
        values are equal. */
    method CompareColumns(row1: Row, row2: Row) returns (merged: Row)
      requires Key in row1 && Covers(row1, columns) && Covers(row2, columns)
      requires forall i :: 0 <= i < |columns| && columns[i] != Key ==> columns[i] in columnMatchingCounts
      modifies this`totalCells, this`matchingCells, this`columnMatchingCounts
      ensures merged == MergeRow(row1, row2, columns, prefix1, prefix2)
      ensures totalCells == old(totalCells) + Compared(columns, |columns|)
      ensures matchingCells == old(matchingCells) + RowAgreements(row1, row2, columns, |columns|)
      ensures columnMatchingCounts == Tally(old(columnMatchingCounts), row1, row2, columns, |columns|)
    {
      merged := map[Key := row1[Key]];
      var total, matching, counts := totalCells, matchingCells, columnMatchingCounts;
      var k := 0;
      while k < |columns|
        invariant 0 <= k <= |columns|
        invariant merged == MergeFields(row1, row2, columns, prefix1, prefix2, k)
        invariant total == old(totalCells) + Compared(columns, k)
        invariant matching == old(matchingCells) + RowAgreements(row1, row2, columns, k)
        invariant counts == Tally(old(columnMatchingCounts), row1, row2, columns, k)
      {
        var col := columns[k];
        ColumnNext(old(columnMatchingCounts), row1, row2, columns, prefix1, prefix2, k);
        if col != Key {
          merged := merged[Label(col, prefix1) := row1[col]];
          merged := merged[Label(col, prefix2) := row2[col]];
          total := total + 1;
          if row1[col] == row2[col] {
            matching := matching + 1;
            counts := counts[col := counts[col] + 1];
            merged := merged[Label(col, Comparison) := Str(Correct)];
          } else {
            merged := merged[Label(col, Comparison) := Str(Falsch)];
          }
        }
        k := k + 1;
      }
      totalCells, matchingCells, columnMatchingCounts := total, matching, counts;
    }

    /** The nested loop of lines 73-89: each left row is compared with the
        first right row of equal key, if there is one. */
    method CompareTables(left: seq<Row>, right: seq<Row>)
      requires Valid() && pairs == []
      requires RowsCover(left, columns) && RowsCover(right, columns)
      modifies this
      ensures Keyed(left) && Keyed(right)
      ensures Valid() && pairs == MatchPairs(left, right)
    {
      assert Keyed(left) && Keyed(right) by {
        var ki :| 0 <= ki < |columns| && columns[ki] == Key;
      }
      var i := 0;
      while i < |left|
        invariant 0 <= i <= |left|
        invariant Valid() && pairs == MatchPairs(left[..i], right)
      {
        MatchPairsStep(left, right, i);
        CompareRow(left[i], right);
        i := i + 1;
      }
      assert left[..i] == left;
    }

    /** The inner loop of lines 74-89 for one left row: the right rows are
        scanned in order, and the first one with the same key is compared
        with it, after which the scan stops. */
    method CompareRow(row1: Row, right: seq<Row>)
      requires Valid() && Key in row1 && Covers(row1, columns)
      requires Keyed(right) && RowsCover(right, columns)
      modifies this
      ensures Valid() && pairs == old(pairs) + PairsOf(row1, right)
    {
      var j := 0;
      while j < |right|
        invariant 0 <= j <= |right|
        invariant forall k :: 0 <= k < j ==> right[k][Key] != row1[Key]
      {
        var row2 := right[j];
        if row1[Key] == row2[Key] {
          assert PairsOf(row1, right) == [(row1, row2)];
          AddPair(row1, row2);
          return;
        }
        j := j + 1;
      }
    }
  }
}
