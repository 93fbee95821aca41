/** The written workbook: the merged rows and the summary row laid out as a
    grid under a header row, and the pass that colours every verdict cell
    below the header (lines 117-131). */
module Sheet {
  import opened Tables
  import opened Comparing

  /** A cell fill: none, or a solid fill of one colour. */
  datatype Fill = NoFill | Solid(color: string)

  const Red: Fill := Solid("FF0000")
  const Green: Fill := Solid("00FF00")

  /** The labels with later repeats dropped, in order of first occurrence:
      the columns of a data frame built from rows whose fields were written
      in the order `s`. */
  function Dedup(s: seq<string>): (r: seq<string>)
    ensures Distinct(r)
    ensures forall x :: x in r <==> x in s
    ensures Distinct(s) ==> r == s
  {
    if s == [] then []
    else
      var d := Dedup(s[..|s| - 1]);
      var x := s[|s| - 1];
      assert s == s[..|s| - 1] + [x];
      assert Distinct(s) ==> x !in s[..|s| - 1];
      if x in d then d else d + [x]
  }

  /** What a cell of a row shows under column `l`: the row's value, or an
      empty cell when the row has no such field. */
  function Cell(row: Row, l: string): Value {
    if l in row then row[l] else Null
  }

  /** The sheet as written: the header row of labels, then one line per row
      with its value under each label. */
  function Grid(header: seq<string>, rows: seq<Row>): (g: seq<seq<Value>>)
    ensures |g| == |rows| + 1
    ensures forall i :: 0 <= i < |g| ==> |g[i]| == |header|
  {
    [seq(|header|, j requires 0 <= j < |header| => Str(header[j]))] +
    seq(|rows|, i requires 0 <= i < |rows| => seq(|header|, j requires 0 <= j < |header| => Cell(rows[i], header[j])))
  }

  /** The cell of grid line `k + 1` under column `j` is row `k`'s value. */
  lemma GridAt(header: seq<string>, rows: seq<Row>, k: nat, j: nat)
    requires k < |rows| && j < |header|
    ensures Grid(header, rows)[k + 1][j] == Cell(rows[k], header[j])
  {
    var g := Grid(header, rows);
    assert g[k + 1] == seq(|header|, j requires 0 <= j < |header| => Cell(rows[k], header[j]));
  }

  /** The fill of a cell on line `i` with value `v` and fill `f` after the
      styling pass: the header line keeps its fill, "FALSCH" turns red,
      "Correct" turns green and any other value keeps its fill. */
  function StyleCell(i: nat, v: Value, f: Fill): Fill {
    if i == 0 then f
    else if v == Str(Falsch) then Red
    else if v == Str(Correct) then Green
    else f
  }

  /** A loaded worksheet: the cell values and, in parallel, the cell fills. */
  class Worksheet {
    const cells: array2<Value>
    const fills: array2<Fill>

    ghost predicate Valid()
      reads this
    {
      && cells.Length0 == fills.Length0 && cells.Length1 == fills.Length1
      && cells.Length0 >= 1
    }

    /** The workbook as read back from the written grid, nothing filled. */
    constructor Load(grid: seq<seq<Value>>)
      requires |grid| >= 1 && forall i :: 0 <= i < |grid| ==> |grid[i]| == |grid[0]|
      ensures Valid() && fresh(cells) && fresh(fills)
      ensures cells.Length0 == |grid| && cells.Length1 == |grid[0]|
      ensures forall i, j :: 0 <= i < |grid| && 0 <= j < |grid[0]| ==> cells[i, j] == grid[i][j]
      ensures forall i, j :: 0 <= i < |grid| && 0 <= j < |grid[0]| ==> fills[i, j] == NoFill
    {
      var w := |grid[0]|;
      cells := new Value[|grid|, w]((i, j) => if 0 <= i < |grid| && 0 <= j < |grid[i]| then grid[i][j] else Null);
      fills := new Fill[|grid|, w]((i, j) => NoFill);
    }

    /** The loop of lines 126-131: every cell from the second line down is
        filled by its value; the header line and the cells holding neither
        verdict keep their fill. */
    method StyleVerdicts()
      requires Valid()
      modifies fills
      ensures Valid()
      ensures forall i, j :: 0 <= i < fills.Length0 && 0 <= j < fills.Length1 ==>
        fills[i, j] == StyleCell(i, cells[i, j], old(fills[i, j]))
    {
      var i := 1;
      while i < fills.Length0
        invariant 1 <= i <= fills.Length0
        invariant forall r, c :: 0 <= r < fills.Length0 && 0 <= c < fills.Length1 ==>
          fills[r, c] == if r < i then StyleCell(r, cells[r, c], old(fills[r, c])) else old(fills[r, c])
      {
        var j := 0;
        while j < fills.Length1
          invariant 0 <= j <= fills.Length1
          invariant forall r, c :: 0 <= r < fills.Length0 && 0 <= c < fills.Length1 ==>
            fills[r, c] == if r < i || (r == i && c < j) then StyleCell(r, cells[r, c], old(fills[r, c])) else old(fills[r, c])
        {
          var v := cells[i, j];
          if v == Str(Falsch) {
            fills[i, j] := Red;
          } else if v == Str(Correct) {
            fills[i, j] := Green;
          }
          j := j + 1;
        }
        i := i + 1;
      }
    }
  }
}
