/**
 * The spreadsheet both recorders write to: a growable table of rows numbered
 * from 1, each row a map from column number to cell. `getLastRow()` is the
 * number of rows; a write may touch an existing row or append the next one.
 */
module Sheets {

  /** A calendar-day key: what formatting a date as "yyyy/MM/dd" in the script's
      time zone (or `Date.toDateString()`) determines, reduced to an integer. */
  type Day = int

  /** What a cell holds as the recorders see it. */
  datatype Cell =
    | Empty
    | Num(n: int)
    | Str(s: string)
    | DateV(day: Day)
      /** The formula `=IFERROR(cur - prev, "N/A")`, kept unevaluated. */
    | Diff(cur: int, prev: Cell)

  /** The literal "N/A" written where no difference applies. */
  const NotApplicable: Cell := Str("N/A")

  type Row = map<int, Cell>

  function CellIn(row: Row, col: int): Cell {
    if col in row then row[col] else Empty
  }

  /** `getRange(r, c).getValue()`: rows outside 1..|rows| read as empty. */
  function At(rows: seq<Row>, r: int, c: int): Cell {
    if 1 <= r <= |rows| then CellIn(rows[r - 1], c) else Empty
  }

  /** `getRange(r, c).setValue(v)` (or `setFormula`): only cell (r, c) changes;
      writing row |rows| + 1 appends a row. */
  function Put(rows: seq<Row>, r: int, c: int, v: Cell): (updated: seq<Row>)
    requires 1 <= r <= |rows| + 1
    ensures |updated| == if r <= |rows| then |rows| else |rows| + 1
    ensures forall i, j :: At(updated, i, j) == if i == r && j == c then v else At(rows, i, j)
    ensures forall i :: 0 <= i < |rows| && i != r - 1 ==> updated[i] == rows[i]
  {
    if r <= |rows| then rows[r - 1 := rows[r - 1][c := v]] else rows + [map[c := v]]
  }

  /** Writing into an existing row the non-empty value a cell already holds changes nothing. */
  lemma PutUnchanged(rows: seq<Row>, r: int, c: int, v: Cell)
    requires 1 <= r <= |rows| && v != Empty && At(rows, r, c) == v
    ensures Put(rows, r, c, v) == rows
  {
    assert c in rows[r - 1];
    assert rows[r - 1][c := v] == rows[r - 1];
  }

  /** The cell is a Date of the given day. */
  predicate IsDateOn(c: Cell, day: Day) {
    c.DateV? && c.day == day
  }

  function FirstRowOnFrom(rows: seq<Row>, col: int, day: Day, i: int): (r: int)
    requires 1 <= i <= |rows| + 1
    ensures i <= r <= |rows| + 1
    ensures r <= |rows| ==> IsDateOn(At(rows, r, col), day)
    ensures forall k :: i <= k < r ==> !IsDateOn(At(rows, k, col), day)
    decreases |rows| + 1 - i
  {
    if i > |rows| || IsDateOn(At(rows, i, col), day) then i
    else FirstRowOnFrom(rows, col, day, i + 1)
  }

  /** The first row whose cell in column `col` is a Date of `day`, or |rows| + 1
      when there is none. */
  function FirstRowOn(rows: seq<Row>, col: int, day: Day): (r: int)
    ensures 1 <= r <= |rows| + 1
    ensures r <= |rows| ==> IsDateOn(At(rows, r, col), day)
    ensures forall k :: 1 <= k < r ==> !IsDateOn(At(rows, k, col), day)
  {
    FirstRowOnFrom(rows, col, day, 1)
  }

  /** The three properties of FirstRowOn determine it. */
  lemma FirstRowOnUnique(rows: seq<Row>, col: int, day: Day, r: int)
    requires 1 <= r <= |rows| + 1
    requires r <= |rows| ==> IsDateOn(At(rows, r, col), day)
    requires forall k :: 1 <= k < r ==> !IsDateOn(At(rows, k, col), day)
    ensures FirstRowOn(rows, col, day) == r
  {
  }

  /** Two tables agree on every cell of rows 1..n. */
  ghost predicate AgreeUpTo(a: seq<Row>, b: seq<Row>, n: int) {
    forall i, j :: 1 <= i <= n ==> At(a, i, j) == At(b, i, j)
  }

  /** No two rows hold Dates of the same day in column `col`. */
  ghost predicate OneRowPerDay(rows: seq<Row>, col: int) {
    forall i, j :: 1 <= i < j <= |rows| && At(rows, i, col).DateV? ==> At(rows, j, col) != At(rows, i, col)
  }

  /** The table as the hosted sheet holds it; the recorders read and write it
      one cell at a time. */
  class Sheet {
    var rows: seq<Row>

    constructor (initial: seq<Row>)
      ensures rows == initial
    {
      rows := initial;
    }

    /** `getLastRow()`. */
    function LastRow(): nat
      reads this
    {
      |rows|
    }

    /** `getRange(r, c).getValue()`. */
    function GetValue(r: int, c: int): Cell
      reads this
    {
      At(rows, r, c)
    }

    /** `getRange(r, c).setValue(v)` and `setFormula(v)`. */
    method SetValue(r: int, c: int, v: Cell)
      requires 1 <= r <= |rows| + 1
      modifies this
      ensures rows == Put(old(rows), r, c, v)
    {
      rows := Put(rows, r, c, v);
    }
  }
}
