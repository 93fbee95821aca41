/** The records that the reconciliation reads: one table per database, each a
    sequence of rows keyed by column name, as the two sqlite snapshots arrive
    after their JSON round trip. */
module Tables {

  /** A scalar as it comes out of the JSON decoding of a sqlite row: null,
      a number (integers and floats alike, so that 1 and 1.0 are equal as in
      Python) or a string. */
  datatype Value = Null | Num(x: real) | Str(s: string)

  /** One record: column name to value. */
  type Row = map<string, Value>

  /** A table snapshot: the column names in database order and the rows in
      the order the database returned them. */
  datatype Table = Table(columns: seq<string>, rows: seq<Row>)

  /** The column that pairs rows across the two databases. */
  const Key: string := "ts"

  /** The three ways the script stops without a report. */
  datatype Error =
    | SchemaMismatch   // ValueError: the two tables do not have the same columns
    | MissingKey       // KeyError: a row has no 'ts' column to compare
    | NoComparedCells  // ZeroDivisionError: the overall ratio has denominator 0

  datatype Result<T> = Success(value: T) | Failure(error: Error)

  datatype Option<T> = None | Some(value: T)

  predicate Distinct<T(==)>(s: seq<T>) {
    forall i, j :: 0 <= i < j < |s| ==> s[i] != s[j]
  }

  /** Joining two sequences without repeats that share no element gives a
      sequence without repeats. */
  lemma DistinctConcat<T>(a: seq<T>, b: seq<T>)
    requires Distinct(a) && Distinct(b)
    requires forall k :: 0 <= k < |b| ==> b[k] !in a
    ensures Distinct(a + b)
  {
    forall i, j | 0 <= i < j < |a + b| ensures (a + b)[i] != (a + b)[j] {
      if j >= |a| && i < |a| {
        assert (a + b)[j] == b[j - |a|];
      }
    }
  }

  /** Every column of `cols` is present in row `r`. */
  predicate Covers(r: Row, cols: seq<string>) {
    forall i :: 0 <= i < |cols| ==> cols[i] in r
  }

  predicate RowsCover(rows: seq<Row>, cols: seq<string>) {
    forall i :: 0 <= i < |rows| ==> Covers(rows[i], cols)
  }

  function ColumnSet(t: Table): set<string> {
    set c | c in t.columns
  }

  /** What a data frame guarantees of its rows: distinct column names and
      every row keyed by exactly those names. */
  predicate WellFormed(t: Table) {
    && Distinct(t.columns)
    && forall i :: 0 <= i < |t.rows| ==> t.rows[i].Keys == ColumnSet(t)
  }

  /** How many of the first `n` columns are compared, that is, are not the
      key. */
  function Compared(cols: seq<string>, n: nat): (r: nat)
    requires n <= |cols|
    ensures r <= n
  {
    if n == 0 then 0 else Compared(cols, n - 1) + (if cols[n - 1] == Key then 0 else 1)
  }

  /** With distinct column names, every column but 'ts' is compared. */
  lemma {:induction false} ComparedCount(cols: seq<string>, n: nat)
    requires Distinct(cols) && n <= |cols|
    ensures Compared(cols, n) == n - (if Key in cols[..n] then 1 else 0)
  {
    if n > 0 {
      ComparedCount(cols, n - 1);
      assert cols[..n] == cols[..n - 1] + [cols[n - 1]];
    }
  }

  /** Every row of a well-formed table has every column of a table with
      the same column set. */
  lemma WellFormedCovers(t: Table, cols: seq<string>)
    requires WellFormed(t)
    requires forall i :: 0 <= i < |cols| ==> cols[i] in ColumnSet(t)
    ensures RowsCover(t.rows, cols)
  {
  }
}
