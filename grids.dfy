/** The puzzle grid (src/data/grid.rs): a flat row-major vector of cells with
    fixed dimensions. A row view walks the data with step 1, a column view
    walks it with step `numCols`. */
module Grids {
  import opened Wrappers
  import opened Cells

  /** Flat index arithmetic of the row-major layout. */
  lemma {:induction false} MulMonotone(a: nat, b: nat, c: nat)
    requires a <= b
    ensures a * c <= b * c
  {
    if a < b {
      MulMonotone(a, b - 1, c);
      assert b * c == (b - 1) * c + c;
    }
  }

  lemma {:induction false} FlatIndexBound(row: nat, col: nat, numRows: nat, numCols: nat)
    requires row < numRows && col < numCols
    ensures row * numCols + col < numRows * numCols
  {
    MulMonotone(row + 1, numRows, numCols);
    assert (row + 1) * numCols == row * numCols + numCols;
  }

  /** Distinct in-range coordinates have distinct flat indices. */
  lemma {:induction false} FlatIndexInjective(r1: nat, c1: nat, r2: nat, c2: nat, numCols: nat)
    requires c1 < numCols && c2 < numCols
    requires r1 * numCols + c1 == r2 * numCols + c2
    ensures r1 == r2 && c1 == c2
  {
    if r1 < r2 {
      MulMonotone(r1 + 1, r2, numCols);
    } else if r2 < r1 {
      MulMonotone(r2 + 1, r1, numCols);
    }
  }

  /** Every flat index of the grid is the index of some coordinate. */
  lemma {:induction false} FlatIndexSplit(i: nat, numRows: nat, numCols: nat)
    requires i < numRows * numCols
    ensures numCols > 0 && i / numCols < numRows && i % numCols < numCols
    ensures (i / numCols) * numCols + i % numCols == i
  {
    if numCols > 0 && i / numCols >= numRows {
      MulMonotone(numRows, i / numCols, numCols);
    }
  }

  /** What a stride iterator yields over the slice `s`: the first cell, then
      the walk resumed `step` cells further, the step clamped to what is left. */
  function Strided(s: seq<Cell>, step: nat): seq<Cell>
    requires step > 0 || s == []
    decreases |s|
  {
    if s == [] then []
    else
      var skip := if step < |s| then step else |s|;
      [s[0]] + Strided(s[skip..], step)
  }

  /** A walk with step `step` over a slice of more than (n - 1) * step and at
      most n * step cells yields n cells, the k-th being cell k * step. */
  lemma {:induction false} StridedAt(t: seq<Cell>, step: nat, n: nat)
    requires step > 0 && n > 0
    requires (n - 1) * step < |t| <= n * step
    ensures |Strided(t, step)| == n
    ensures forall k :: 0 <= k < n ==> k * step < |t| && Strided(t, step)[k] == t[k * step]
  {
    if n == 1 {
      assert Strided(t, step) == [t[0]] + Strided(t[|t|..], step);
    } else {
      MulMonotone(1, n - 1, step);
      assert step < |t|;
      var t' := t[step..];
      assert (n - 1) * step == (n - 2) * step + step;
      assert n * step == (n - 1) * step + step;
      assert (n - 2) * step < |t'| <= (n - 1) * step;
      StridedAt(t', step, n - 1);
      assert Strided(t, step) == [t[0]] + Strided(t', step);
      forall k | 1 <= k < n ensures k * step < |t| && Strided(t, step)[k] == t[k * step] {
        StridedShift(t, t', step, k);
      }
    }
  }

  lemma StridedShift(t: seq<Cell>, t': seq<Cell>, step: nat, k: nat)
    requires 1 <= k && step <= |t| && t' == t[step..] && (k - 1) * step < |t'|
    ensures k * step < |t| && t[k * step] == t'[(k - 1) * step]
  {
    assert k * step == (k - 1) * step + step;
  }

  /** A walk with step numCols from cell col of a row-major grid yields
      that column, top to bottom. */
  lemma StridedColumn(d: seq<Cell>, col: nat, numRows: nat, numCols: nat)
    requires |d| == numRows * numCols && col < numCols && col <= |d|
    ensures |Strided(d[col..], numCols)| == numRows
    ensures forall row :: 0 <= row < numRows ==>
      row * numCols + col < |d| && Strided(d[col..], numCols)[row] == d[row * numCols + col]
  {
    var t := d[col..];
    if numRows == 0 {
      assert t == [];
    } else {
      var R := numRows - 1;
      MulSucc(R, numCols);
      assert R * numCols < |t| <= numRows * numCols;
      StridedAt(t, numCols, numRows);
      forall row | 0 <= row < numRows
        ensures row * numCols + col < |d| && Strided(t, numCols)[row] == d[row * numCols + col]
      {
        var k := row * numCols;
        assert k < |t| && Strided(t, numCols)[row] == t[k];
      }
    }
  }

  lemma MulSucc(a: nat, b: nat)
    ensures (a + 1) * b == a * b + b
  {
  }

  /** The iterator a row or column view hands out (`GridIter`): the slice still
      to walk and the step between the cells it yields. */
  class GridIter {
    var data: seq<Cell>
    const step: nat

    ghost predicate Valid()
      reads this
    {
      step > 0 || data == []
    }

    /** The cells this iterator has still to yield. */
    ghost function Rest(): seq<Cell>
      reads this
      requires Valid()
    {
      Strided(data, step)
    }

    constructor (data: seq<Cell>, step: nat)
      requires step > 0 || data == []
      ensures Valid() && this.data == data && this.step == step
    {
      this.data := data;
      this.step := step;
    }

    /** Yield the first cell of the slice and drop `min(step, len)` cells. */
    method Next() returns (r: Option<Cell>)
      requires Valid()
      modifies this
      ensures Valid()
      ensures old(Rest()) == [] ==> r == None && Rest() == []
      ensures old(Rest()) != [] ==> r == Some(old(Rest())[0]) && Rest() == old(Rest())[1..]
    {
      r := if data == [] then None else Some(data[0]);
      var skip := if step < |data| then step else |data|;
      data := data[skip..];
    }

    /** `collect()`: drain the iterator into a list. */
    method Collect() returns (cells: seq<Cell>)
      requires Valid()
      modifies this
      ensures Valid() && Rest() == [] && cells == old(Rest())
    {
      cells := [];
      while true
        invariant Valid() && cells + Rest() == old(Rest())
        decreases |Rest()|
      {
        var c := Next();
        if c.None? {
          break;
        }
        cells := cells + [c.value];
      }
    }
  }

  class Grid {
    const numRows: nat
    const numCols: nat
    const data: array<Cell>

    ghost predicate Valid()
      reads this
    {
      data.Length == numRows * numCols
    }

    /** `Grid::new`: numRows * numCols UNKNOWN cells. */
    constructor (numRows: nat, numCols: nat)
      ensures Valid() && fresh(data)
      ensures this.numRows == numRows && this.numCols == numCols
      ensures forall i :: 0 <= i < data.Length ==> data[i] == UNKNOWN
    {
      this.numRows := numRows;
      this.numCols := numCols;
      data := new Cell[numRows * numCols](_ => UNKNOWN);
    }

    /** The flat position of cell (row, col) in the row-major data: the
        row is the quotient by the row length, the column the remainder. */
    function Index(row: nat, col: nat): (i: nat)
      reads this
      ensures col < numCols ==> i / numCols == row && i % numCols == col
    {
      var i := row * numCols + col;
      if col < numCols then
        FlatIndexInjective(row, col, i / numCols, i % numCols, numCols);
        i
      else
        i
    }

    /** `grid[(row, col)]`: the flat cell `Index(row, col)`. */
    function At(row: nat, col: nat): Cell
      reads this, data
      requires Index(row, col) < data.Length
    {
      data[Index(row, col)]
    }

    lemma InRange(row: nat, col: nat)
      requires Valid() && row < numRows && col < numCols
      ensures Index(row, col) < data.Length
    {
      FlatIndexBound(row, col, numRows, numCols);
    }

    /** Row `row`: the cells (row, 0) through (row, numCols - 1). */
    ghost function RowCells(row: nat): (r: seq<Cell>)
      reads this, data
      requires Valid() && row < numRows
      ensures |r| == numCols
      ensures forall col :: 0 <= col < numCols ==> Index(row, col) < data.Length && r[col] == At(row, col)
    {
      MulMonotone(row + 1, numRows, numCols);
      assert (row + 1) * numCols == row * numCols + numCols;
      data[row * numCols .. row * numCols + numCols]
    }

    /** Column `col`: the cells (0, col) through (numRows - 1, col). */
    ghost function ColCells(col: nat): (r: seq<Cell>)
      reads this, data
      requires Valid() && col < numCols
      ensures |r| == numRows
      ensures forall row :: 0 <= row < numRows ==> Index(row, col) < data.Length && r[row] == At(row, col)
    {
      var r := seq(numRows, row requires 0 <= row < numRows reads this, data =>
        if Index(row, col) < data.Length then data[Index(row, col)] else ERROR);
      assert forall row :: 0 <= row < numRows ==> Index(row, col) < data.Length by {
        forall row | 0 <= row < numRows ensures Index(row, col) < data.Length {
          InRange(row, col);
        }
      }
      r
    }

    /** `is_solved`: every cell of the grid is EMPTY or FILLED. */
    predicate IsSolved()
      reads this, data
      requires Valid()
      ensures IsSolved() <==> forall row: nat, col: nat :: row < numRows && col < numCols ==>
        Index(row, col) < data.Length && Cells.IsSolved(At(row, col))
    {
      SolvedByCoordinates();
      forall i :: 0 <= i < data.Length ==> Cells.IsSolved(data[i])
    }

    /** Every flat cell is solved exactly when every coordinate's cell is. */
    lemma SolvedByCoordinates()
      requires Valid()
      ensures forall row: nat, col: nat :: row < numRows && col < numCols ==> Index(row, col) < data.Length
      ensures (forall i :: 0 <= i < data.Length ==> Cells.IsSolved(data[i])) <==>
        forall row: nat, col: nat :: row < numRows && col < numCols ==> Cells.IsSolved(At(row, col))
    {
      assert forall row: nat, col: nat :: row < numRows && col < numCols ==> Index(row, col) < data.Length by {
        forall row: nat, col: nat | row < numRows && col < numCols ensures Index(row, col) < data.Length {
          InRange(row, col);
        }
      }
      assert (forall row: nat, col: nat :: row < numRows && col < numCols ==> Cells.IsSolved(At(row, col))) ==>
        (forall i :: 0 <= i < data.Length ==> Cells.IsSolved(data[i])) by {
        if forall row: nat, col: nat :: row < numRows && col < numCols ==> Cells.IsSolved(At(row, col)) {
          forall i | 0 <= i < data.Length ensures Cells.IsSolved(data[i]) {
            FlatIndexSplit(i, numRows, numCols);
            assert Index(i / numCols, i % numCols) == i;
            assert Cells.IsSolved(At(i / numCols, i % numCols));
          }
        }
      }
    }

    /** `row(row)`: a view over the contiguous slice of the row, step 1. */
    method Row(row: nat) returns (it: GridIter)
      requires Valid() && row < numRows
      ensures fresh(it) && it.Valid() && it.Rest() == RowCells(row)
    {
      MulMonotone(row + 1, numRows, numCols);
      var start := row * numCols;
      var end := start + numCols;
      it := new GridIter(data[start..end], 1);
      StridedContiguous(data[start..end]);
    }

    /** `col(col)`: a view over the data from `col` on, step `numCols`. Any
        `col` up to the data length is accepted; for an in-range column the
        view yields exactly that column. */
    method Col(col: nat) returns (it: GridIter)
      requires Valid() && col <= data.Length
      ensures fresh(it) && it.Valid()
      ensures col < numCols ==> it.Rest() == ColCells(col)
    {
      it := new GridIter(data[col..], numCols);
      if col < numCols {
        StridedColumn(data[..], col, numRows, numCols);
        assert data[..][col..] == data[col..];
        forall row | 0 <= row < numRows ensures it.Rest()[row] == ColCells(col)[row] {
          assert Index(row, col) == row * numCols + col;
        }
      }
    }

    /** `grid[(row, col)] = value`. */
    method Set(row: nat, col: nat, value: Cell)
      requires Index(row, col) < data.Length
      modifies data
      ensures data[Index(row, col)] == value
      ensures forall i :: 0 <= i < data.Length && i != Index(row, col) ==> data[i] == old(data[i])
    {
      data[Index(row, col)] := value;
    }

    /** `set_row`: write `line` cell by cell from (row, 0) on. */
    method SetRow(row: nat, line: seq<Cell>)
      requires Valid() && Index(row, |line|) <= data.Length
      modifies data
      ensures forall col :: 0 <= col < |line| ==> data[Index(row, col)] == line[col]
      ensures forall i :: 0 <= i < data.Length && !(Index(row, 0) <= i < Index(row, |line|)) ==>
        data[i] == old(data[i])
      ensures row < numRows && |line| == numCols ==> RowCells(row) == line
    {
      for k := 0 to |line|
        invariant forall j :: 0 <= j < k ==> data[Index(row, j)] == line[j]
        invariant forall i :: 0 <= i < data.Length && !(Index(row, 0) <= i < Index(row, k)) ==>
          data[i] == old(data[i])
      {
        Set(row, k, line[k]);
      }
    }

    /** `set_col`: write `line` cell by cell from (0, col) down. */
    method SetCol(col: nat, line: seq<Cell>)
      requires Valid() && col < numCols && |line| <= numRows
      modifies data
      ensures forall row :: 0 <= row < |line| ==> Index(row, col) < data.Length && At(row, col) == line[row]
      ensures forall i :: 0 <= i < data.Length && (forall row :: 0 <= row < |line| ==> i != Index(row, col)) ==>
        data[i] == old(data[i])
      ensures |line| == numRows ==> ColCells(col) == line
    {
      for k := 0 to |line|
        invariant forall row :: 0 <= row < k ==> Index(row, col) < data.Length && At(row, col) == line[row]
        invariant forall i :: 0 <= i < data.Length && (forall row :: 0 <= row < k ==> i != Index(row, col)) ==>
          data[i] == old(data[i])
      {
        InRange(k, col);
        forall row | 0 <= row < k ensures Index(row, col) != Index(k, col) {
          MulMonotone(row + 1, k, numCols);
        }
        Set(k, col, line[k]);
      }
    }
  }

  /** With step 1 a view yields its slice unchanged. */
  lemma {:induction false} StridedContiguous(s: seq<Cell>)
    ensures Strided(s, 1) == s
    decreases |s|
  {
    if s != [] {
      StridedContiguous(s[1..]);
    }
  }
}
