/** The clue totals of src/data/clues.rs:130-140. `is_consistent` compares
    the sum of all row clues with the sum of all column clues. Both count
    the FILLED cells of any solution of the puzzle, so a puzzle with a
    solution is consistent. */
module ClueTotals {
  import opened Cells
  import opened Placements
  import opened PuzzleClues
  import opened GridSolving
  import Grids

  /** The number of FILLED cells among the first n cells of a line. */
  function FilledBefore(line: seq<Cell>, n: nat): nat
    requires n <= |line|
  {
    if n == 0 then 0 else FilledBefore(line, n - 1) + (if line[n - 1] == FILLED then 1 else 0)
  }

  function Min(a: nat, b: nat): nat
  {
    if a <= b then a else b
  }

  /** Every cell is EMPTY or FILLED. */
  predicate Decided(line: seq<Cell>)
  {
    forall k :: 0 <= k < |line| ==> line[k] == EMPTY || line[k] == FILLED
  }

  /** Cells that are not FILLED add nothing to the count. */
  lemma {:induction false} FilledSkip(line: seq<Cell>, a: nat, b: nat)
    requires a <= b <= |line|
    requires forall k :: a <= k < b ==> line[k] != FILLED
    ensures FilledBefore(line, b) == FilledBefore(line, a)
    decreases b - a
  {
    if a < b {
      FilledSkip(line, a, b - 1);
    }
  }

  /** A run of FILLED cells adds its length. */
  lemma {:induction false} FilledRun(line: seq<Cell>, a: nat, b: nat)
    requires a <= b <= |line|
    requires forall k :: a <= k < b ==> line[k] == FILLED
    ensures FilledBefore(line, b) == FilledBefore(line, a) + (b - a)
    decreases b - a
  {
    if a < b {
      FilledRun(line, a, b - 1);
    }
  }

  /** In a decided line, a placement of clues d.. from offset o accounts
      for every FILLED cell from o on: there are as many as the clues add
      up to. */
  lemma {:induction false} PlacedFilled(line: seq<Cell>, clues: seq<nat>, d: nat, o: nat, r: seq<nat>)
    requires d <= |clues| && PlacedFrom(line, clues, d, o, r) && Decided(line)
    ensures FilledBefore(line, |line|) == FilledBefore(line, Min(o, |line|)) + Sum(clues[d..])
    decreases |clues| - d
  {
    if d == |clues| {
      forall k | Min(o, |line|) <= k < |line|
        ensures line[k] != FILLED
      {
        assert CanEmpty(line[k]);
      }
      FilledSkip(line, Min(o, |line|), |line|);
    } else {
      var c, p := clues[d], r[0];
      assert clues[d..][1..] == clues[d + 1..];
      assert FitsAt(line, o, c, p);
      forall k | o <= k < p
        ensures line[k] != FILLED
      {
        assert CanEmpty(line[k]);
      }
      FilledSkip(line, o, p);
      forall k | p <= k < p + c
        ensures line[k] == FILLED
      {
        assert CanFill(line[k]);
      }
      FilledRun(line, p, p + c);
      PlacedFilled(line, clues, d + 1, p + c + 1, r[1..]);
      if p + c < |line| {
        assert CanEmpty(line[p + c]);
        FilledSkip(line, p + c, p + c + 1);
      }
    }
  }

  /** A decided line with a legal placement has exactly as many FILLED
      cells as its clues add up to. */
  lemma LegalFilled(line: seq<Cell>, clues: seq<nat>, q: seq<nat>)
    requires Legal(line, clues, q) && Decided(line)
    ensures FilledBefore(line, |line|) == Sum(clues)
  {
    PlacedFilled(line, clues, 0, 0, q);
    assert clues[0..] == clues;
  }

  /** `iter().flatten().sum()` over two lists of lines adds up. */
  lemma {:induction false} SumAllAppend(a: seq<CluesLine>, b: seq<CluesLine>)
    ensures SumAll(a + b) == SumAll(a) + SumAll(b)
    decreases |a|
  {
    if a == [] {
      assert a + b == b;
    } else {
      assert (a + b)[1..] == a[1..] + b;
      SumAllAppend(a[1..], b);
    }
  }

  /** 1 when cell (r, c) of the row-major cells is FILLED, else 0. */
  function FilledAt(cells: seq<Cell>, numCols: nat, r: nat, c: nat): nat
  {
    if r * numCols + c < |cells| && cells[r * numCols + c] == FILLED then 1 else 0
  }

  /** FILLED cells in the first m columns of row r. */
  function RowFilled(cells: seq<Cell>, numCols: nat, r: nat, m: nat): nat
  {
    if m == 0 then 0 else RowFilled(cells, numCols, r, m - 1) + FilledAt(cells, numCols, r, m - 1)
  }

  /** FILLED cells in the first n rows of column c. */
  function ColFilled(cells: seq<Cell>, numCols: nat, c: nat, n: nat): nat
  {
    if n == 0 then 0 else ColFilled(cells, numCols, c, n - 1) + FilledAt(cells, numCols, n - 1, c)
  }

  /** FILLED cells of the n-by-m corner, counted row by row. */
  function ByRows(cells: seq<Cell>, numCols: nat, n: nat, m: nat): nat
  {
    if n == 0 then 0 else ByRows(cells, numCols, n - 1, m) + RowFilled(cells, numCols, n - 1, m)
  }

  /** The same corner, counted column by column. */
  function ByCols(cells: seq<Cell>, numCols: nat, n: nat, m: nat): nat
  {
    if m == 0 then 0 else ByCols(cells, numCols, n, m - 1) + ColFilled(cells, numCols, m - 1, n)
  }

  lemma {:induction false} ByColsNoRows(cells: seq<Cell>, numCols: nat, m: nat)
    ensures ByCols(cells, numCols, 0, m) == 0
  {
    if m > 0 {
      ByColsNoRows(cells, numCols, m - 1);
    }
  }

  /** One more row adds that row's count to the column-wise total. */
  lemma {:induction false} ByColsNextRow(cells: seq<Cell>, numCols: nat, n: nat, m: nat)
    ensures ByCols(cells, numCols, n + 1, m) == ByCols(cells, numCols, n, m) + RowFilled(cells, numCols, n, m)
  {
    if m > 0 {
      ByColsNextRow(cells, numCols, n, m - 1);
    }
  }

  /** Counting by rows and counting by columns agree. */
  lemma {:induction false} RowsColsSwap(cells: seq<Cell>, numCols: nat, n: nat, m: nat)
    ensures ByRows(cells, numCols, n, m) == ByCols(cells, numCols, n, m)
  {
    if n == 0 {
      ByColsNoRows(cells, numCols, m);
    } else {
      RowsColsSwap(cells, numCols, n - 1, m);
      ByColsNextRow(cells, numCols, n - 1, m);
    }
  }

  /** Row r of the row-major cells occupies the flat positions after
      r * numCols. */
  lemma {:induction false} RowPrefix(cells: seq<Cell>, numRows: nat, numCols: nat, r: nat, m: nat)
    requires |cells| == numRows * numCols && r < numRows && m <= numCols
    ensures r * numCols + m <= |cells|
    ensures FilledBefore(cells, r * numCols + m) == FilledBefore(cells, r * numCols) + RowFilled(cells, numCols, r, m)
  {
    Grids.MulMonotone(r + 1, numRows, numCols);
    Grids.MulSucc(r, numCols);
    if m > 0 {
      RowPrefix(cells, numRows, numCols, r, m - 1);
    }
  }

  /** Counting row by row counts the whole prefix of complete rows. */
  lemma {:induction false} ByRowsPrefix(cells: seq<Cell>, numRows: nat, numCols: nat, n: nat)
    requires |cells| == numRows * numCols && n <= numRows
    ensures n * numCols <= |cells|
    ensures ByRows(cells, numCols, n, numCols) == FilledBefore(cells, n * numCols)
  {
    Grids.MulMonotone(n, numRows, numCols);
    if n > 0 {
      ByRowsPrefix(cells, numRows, numCols, n - 1);
      RowPrefix(cells, numRows, numCols, n - 1, numCols);
      Grids.MulSucc(n - 1, numCols);
    }
  }

  /** A row of the grid, as the scheduler sees it, has the row's count. */
  lemma {:induction false} RowLine(cells: seq<Cell>, numRows: nat, numCols: nat, r: nat, m: nat)
    requires |cells| == numRows * numCols && r < numRows && m <= numCols
    ensures FilledBefore(LineOf(cells, numRows, numCols, false, r), m) == RowFilled(cells, numCols, r, m)
  {
    if m > 0 {
      RowLine(cells, numRows, numCols, r, m - 1);
      LineOfAt(cells, numRows, numCols, false, r, m - 1);
    }
  }

  /** A column of the grid, as the scheduler sees it, has the column's count. */
  lemma {:induction false} ColLine(cells: seq<Cell>, numRows: nat, numCols: nat, c: nat, n: nat)
    requires |cells| == numRows * numCols && c < numCols && n <= numRows
    ensures FilledBefore(LineOf(cells, numRows, numCols, true, c), n) == ColFilled(cells, numCols, c, n)
  {
    if n > 0 {
      ColLine(cells, numRows, numCols, c, n - 1);
      LineOfAt(cells, numRows, numCols, true, c, n - 1);
    }
  }

  /** Every row and column of a solution is decided. */
  lemma SolutionLineDecided(sol: seq<Cell>, numRows: nat, numCols: nat, clues: Clues, vertical: bool, index: nat)
    requires Solution(sol, numRows, numCols, clues)
    requires index < LineCount(numRows, numCols, vertical)
    ensures Decided(LineOf(sol, numRows, numCols, vertical, index))
  {
    var line := LineOf(sol, numRows, numCols, vertical, index);
    forall k | 0 <= k < |line|
      ensures line[k] == EMPTY || line[k] == FILLED
    {
      LineOfAt(sol, numRows, numCols, vertical, index, k);
    }
  }

  /** The row clues of a solution add up to its count, row by row. */
  lemma {:induction false} RowsTotal(sol: seq<Cell>, numRows: nat, numCols: nat, clues: Clues, n: nat)
    requires Solution(sol, numRows, numCols, clues) && n <= numRows
    ensures SumAll(clues.rows[..n]) == ByRows(sol, numCols, n, numCols)
  {
    if n == 0 {
      assert clues.rows[..0] == [];
    } else {
      RowsTotal(sol, numRows, numCols, clues, n - 1);
      var row := clues.rows[n - 1];
      assert clues.rows[..n] == clues.rows[..n - 1] + [row];
      SumAllAppend(clues.rows[..n - 1], [row]);
      assert SumAll([row]) == Sum(row) + SumAll([row][1..]);
      var line := LineOf(sol, numRows, numCols, false, n - 1);
      var q :| Legal(line, row, q);
      SolutionLineDecided(sol, numRows, numCols, clues, false, n - 1);
      LegalFilled(line, row, q);
      RowLine(sol, numRows, numCols, n - 1, numCols);
    }
  }

  /** The column clues of a solution add up to its count, column by column. */
  lemma {:induction false} ColsTotal(sol: seq<Cell>, numRows: nat, numCols: nat, clues: Clues, m: nat)
    requires Solution(sol, numRows, numCols, clues) && m <= numCols
    ensures SumAll(clues.cols[..m]) == ByCols(sol, numCols, numRows, m)
  {
    if m == 0 {
      assert clues.cols[..0] == [];
    } else {
      ColsTotal(sol, numRows, numCols, clues, m - 1);
      var col := clues.cols[m - 1];
      assert clues.cols[..m] == clues.cols[..m - 1] + [col];
      SumAllAppend(clues.cols[..m - 1], [col]);
      assert SumAll([col]) == Sum(col) + SumAll([col][1..]);
      var line := LineOf(sol, numRows, numCols, true, m - 1);
      var q :| Legal(line, col, q);
      SolutionLineDecided(sol, numRows, numCols, clues, true, m - 1);
      LegalFilled(line, col, q);
      ColLine(sol, numRows, numCols, m - 1, numRows);
    }
  }

  /** A puzzle with a solution is consistent: its row clues and its column
      clues both add up to the number of FILLED cells of the solution. */
  lemma SolutionConsistent(sol: seq<Cell>, numRows: nat, numCols: nat, clues: Clues)
    requires Solution(sol, numRows, numCols, clues)
    ensures RowsSum(clues) == FilledBefore(sol, |sol|)
    ensures ColsSum(clues) == FilledBefore(sol, |sol|)
    ensures IsConsistent(clues)
  {
    RowsTotal(sol, numRows, numCols, clues, numRows);
    ColsTotal(sol, numRows, numCols, clues, numCols);
    assert clues.rows[..numRows] == clues.rows;
    assert clues.cols[..numCols] == clues.cols;
    RowsColsSwap(sol, numCols, numRows, numCols);
    ByRowsPrefix(sol, numRows, numCols, numRows);
  }
}
