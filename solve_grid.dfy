/** The grid scheduler of src/solver/solve_grid.rs: a pull-style state
    machine that sweeps the rows, then the columns, then the rows again,
    skips every line whose cells are all solved, runs the line solver on
    the others and writes each newly decided cell into the grid, reporting
    what it does as events. */
module GridSolving {
  import opened Wrappers
  import opened Cells
  import opened Placements
  import opened LineSolving
  import Grids
  import PuzzleClues

  /** `SolveGridStats`: completed sweeps over rows and columns, and line
      solvers run to the end. */
  datatype Stats = Stats(gridIterations: nat, lineIterations: nat)

  /** `SolveGridEvent`. */
  datatype Event =
    | Row(index: nat)
    | Col(index: nat)
    | SolvedCell(rowIndex: nat, colIndex: nat, value: Cell)
    | SolvedRow(index: nat)   // declared by the source and never emitted
    | SolvedGrid
    | StatsEvent(stats: Stats)

  /** The panic of `solve_line(..).unwrap()`: the line the scheduler came
      to has no legal placement. */
  datatype Stuck = NoPlacement(vertical: bool, index: nat)

  /** Every clue of every row and column is a positive run length. */
  predicate PositiveClues(clues: PuzzleClues.Clues)
  {
    && (forall r, k :: 0 <= r < |clues.rows| && 0 <= k < |clues.rows[r]| ==> clues.rows[r][k] > 0)
    && (forall c, k :: 0 <= c < |clues.cols| && 0 <= k < |clues.cols[c]| ==> clues.cols[c][k] > 0)
  }

  /** `iter().all(Cell::is_solved)`: every cell is EMPTY or FILLED. */
  predicate AllSolved(line: seq<Cell>)
  {
    forall k :: 0 <= k < |line| ==> Cells.IsSolved(line[k])
  }

  /** The number of cells of a row (vertical false) or a column. */
  function LineSize(numRows: nat, numCols: nat, vertical: bool): nat
  {
    if vertical then numRows else numCols
  }

  /** The number of rows (vertical false) or columns. */
  function LineCount(numRows: nat, numCols: nat, vertical: bool): nat
  {
    if vertical then numCols else numRows
  }

  /** The row-major position of cell k of row (or column) `index`. */
  function FlatOf(numCols: nat, vertical: bool, index: nat, k: nat): nat
  {
    if !vertical then index * numCols + k else k * numCols + index
  }

  lemma FlatInRange(numRows: nat, numCols: nat, vertical: bool, index: nat, k: nat)
    requires index < LineCount(numRows, numCols, vertical) && k < LineSize(numRows, numCols, vertical)
    ensures FlatOf(numCols, vertical, index, k) < numRows * numCols
  {
    if vertical {
      Grids.FlatIndexBound(k, index, numRows, numCols);
    } else {
      Grids.FlatIndexBound(index, k, numRows, numCols);
    }
  }

  /** Two cells of one line have two positions in the grid. */
  lemma FlatDistinct(numCols: nat, vertical: bool, index: nat, j: nat, k: nat)
    requires vertical ==> index < numCols
    requires j != k
    ensures FlatOf(numCols, vertical, index, j) != FlatOf(numCols, vertical, index, k)
  {
    if vertical && FlatOf(numCols, vertical, index, j) == FlatOf(numCols, vertical, index, k) {
      Grids.FlatIndexInjective(j, index, k, index, numCols);
    }
  }

  /** Row (or column) `index` of a row-major sequence of cells. */
  function LineOf(cells: seq<Cell>, numRows: nat, numCols: nat, vertical: bool, index: nat): (r: seq<Cell>)
    ensures |r| == LineSize(numRows, numCols, vertical)
  {
    seq(LineSize(numRows, numCols, vertical), k requires 0 <= k =>
      if FlatOf(numCols, vertical, index, k) < |cells| then cells[FlatOf(numCols, vertical, index, k)] else ERROR)
  }

  lemma LineOfAt(cells: seq<Cell>, numRows: nat, numCols: nat, vertical: bool, index: nat, k: nat)
    requires |cells| == numRows * numCols
    requires index < LineCount(numRows, numCols, vertical) && k < LineSize(numRows, numCols, vertical)
    ensures FlatOf(numCols, vertical, index, k) < |cells|
    ensures LineOf(cells, numRows, numCols, vertical, index)[k] == cells[FlatOf(numCols, vertical, index, k)]
  {
    FlatInRange(numRows, numCols, vertical, index, k);
  }

  /** A solution of the puzzle: every cell decided, every row and every
      column with a legal placement of its clues. */
  ghost predicate Solution(sol: seq<Cell>, numRows: nat, numCols: nat, clues: PuzzleClues.Clues)
  {
    && |sol| == numRows * numCols
    && (forall i :: 0 <= i < |sol| ==> sol[i] == EMPTY || sol[i] == FILLED)
    && |clues.rows| == numRows && |clues.cols| == numCols
    && (forall r :: 0 <= r < numRows ==> exists q :: Legal(LineOf(sol, numRows, numCols, false, r), clues.rows[r], q))
    && (forall c :: 0 <= c < numCols ==> exists q :: Legal(LineOf(sol, numRows, numCols, true, c), clues.cols[c], q))
  }

  /** Every solution that agrees with the known cells before agrees with
      them after. */
  ghost predicate KeepsSolutions(before: seq<Cell>, after: seq<Cell>, numRows: nat, numCols: nat, clues: PuzzleClues.Clues)
  {
    forall sol :: Solution(sol, numRows, numCols, clues) && Refines(sol, before) ==> Refines(sol, after)
  }

  /** e reports the one cell in which after differs from before: it was
      UNKNOWN and is now EMPTY or FILLED. */
  ghost predicate CellWritten(before: seq<Cell>, after: seq<Cell>, numRows: nat, numCols: nat, e: Event)
  {
    && e.SolvedCell? && e.rowIndex < numRows && e.colIndex < numCols
    && e.rowIndex * numCols + e.colIndex < |before|
    && before[e.rowIndex * numCols + e.colIndex] == UNKNOWN
    && (e.value == EMPTY || e.value == FILLED)
    && after == before[e.rowIndex * numCols + e.colIndex := e.value]
  }

  /** The cells of a line are those a line solver started on input has
      yielded before `at`, followed by the rest of input. */
  ghost predicate Tracks(line: seq<Cell>, input: seq<Cell>, clues: seq<nat>, at: nat)
  {
    && |line| == |input| && at <= |input|
    && forall k :: 0 <= k < |input| ==> line[k] == if k < at then Expected(input, clues, k) else input[k]
  }

  /** The next cell a line solver yields is the one cell by which it moves
      on; it differs from the line only where the line was UNKNOWN and it
      is then EMPTY or FILLED. */
  lemma TracksNext(line: seq<Cell>, input: seq<Cell>, clues: seq<nat>, at: nat)
    requires Tracks(line, input, clues, at) && at < |input|
    ensures Tracks(line[at := Expected(input, clues, at)], input, clues, at + 1)
    ensures line[at] != Expected(input, clues, at) ==>
      line[at] == UNKNOWN && (Expected(input, clues, at) == EMPTY || Expected(input, clues, at) == FILLED)
  {
  }

  /** Writing one cell of a line into the grid writes that cell of the line. */
  lemma LineOfUpdate(cells: seq<Cell>, numRows: nat, numCols: nat, vertical: bool, index: nat, at: nat, v: Cell)
    requires |cells| == numRows * numCols
    requires index < LineCount(numRows, numCols, vertical) && at < LineSize(numRows, numCols, vertical)
    ensures FlatOf(numCols, vertical, index, at) < |cells|
    ensures LineOf(cells[FlatOf(numCols, vertical, index, at) := v], numRows, numCols, vertical, index)
      == LineOf(cells, numRows, numCols, vertical, index)[at := v]
  {
    var g := FlatOf(numCols, vertical, index, at);
    LineOfAt(cells, numRows, numCols, vertical, index, at);
    var after := cells[g := v];
    var line, line' := LineOf(cells, numRows, numCols, vertical, index), LineOf(after, numRows, numCols, vertical, index);
    forall k | 0 <= k < |line|
      ensures line'[k] == line[at := v][k]
    {
      LineOfAt(cells, numRows, numCols, vertical, index, k);
      LineOfAt(after, numRows, numCols, vertical, index, k);
      var f := FlatOf(numCols, vertical, index, k);
      if k != at {
        FlatDistinct(numCols, vertical, index, k, at);
        assert after[f] == cells[f];
      }
    }
    assert line' == line[at := v];
  }

  /** Writing into a line a cell the line solver decided, while the line's
      cells are those the solver has yielded so far followed by its input,
      keeps every solution. */
  lemma WriteKeepsSolutions(before: seq<Cell>, numRows: nat, numCols: nat, clues: PuzzleClues.Clues,
                            vertical: bool, index: nat, lineClues: seq<nat>, input: seq<Cell>, at: nat)
    requires |before| == numRows * numCols && |clues.rows| == numRows && |clues.cols| == numCols
    requires index < LineCount(numRows, numCols, vertical)
    requires lineClues == if vertical then clues.cols[index] else clues.rows[index]
    requires at < |input| && Tracks(LineOf(before, numRows, numCols, vertical, index), input, lineClues, at)
    requires Expected(input, lineClues, at) != UNKNOWN
    ensures FlatOf(numCols, vertical, index, at) < |before|
    ensures KeepsSolutions(before, before[FlatOf(numCols, vertical, index, at) := Expected(input, lineClues, at)],
      numRows, numCols, clues)
  {
    var v := Expected(input, lineClues, at);
    LineOfAt(before, numRows, numCols, vertical, index, at);
    var after := before[FlatOf(numCols, vertical, index, at) := v];
    forall sol | Solution(sol, numRows, numCols, clues) && Refines(sol, before)
      ensures Refines(sol, after)
    {
      var solLine := LineOf(sol, numRows, numCols, vertical, index);
      var q :| Legal(solLine, lineClues, q);
      forall k | 0 <= k < |input| && input[k] != UNKNOWN
        ensures solLine[k] == input[k]
      {
        LineOfAt(before, numRows, numCols, vertical, index, k);
        LineOfAt(sol, numRows, numCols, vertical, index, k);
      }
      forall k | 0 <= k < |solLine|
        ensures solLine[k] == EMPTY || solLine[k] == FILLED
      {
        LineOfAt(sol, numRows, numCols, vertical, index, k);
      }
      SolvedKeepsSolution(input, lineClues, solLine, q);
      assert Solved(input, lineClues)[at] == v;
      LineOfAt(sol, numRows, numCols, vertical, index, at);
    }
  }

  /** A line with no legal placement: no solution agrees with the grid. */
  lemma StuckHasNoSolution(cells: seq<Cell>, numRows: nat, numCols: nat, clues: PuzzleClues.Clues,
                           vertical: bool, index: nat, lineClues: seq<nat>)
    requires |cells| == numRows * numCols && |clues.rows| == numRows && |clues.cols| == numCols
    requires index < LineCount(numRows, numCols, vertical)
    requires lineClues == if vertical then clues.cols[index] else clues.rows[index]
    requires forall q :: !Legal(LineOf(cells, numRows, numCols, vertical, index), lineClues, q)
    ensures forall sol :: Solution(sol, numRows, numCols, clues) ==> !Refines(sol, cells)
  {
    var line := LineOf(cells, numRows, numCols, vertical, index);
    forall sol | Solution(sol, numRows, numCols, clues) && Refines(sol, cells)
      ensures false
    {
      var solLine := LineOf(sol, numRows, numCols, vertical, index);
      var q :| Legal(solLine, lineClues, q);
      forall k | 0 <= k < |line|
        ensures line[k] != UNKNOWN ==> solLine[k] == line[k]
        ensures solLine[k] == EMPTY || solLine[k] == FILLED
      {
        LineOfAt(cells, numRows, numCols, vertical, index, k);
        LineOfAt(sol, numRows, numCols, vertical, index, k);
      }
      SolvedKeepsSolution(line, lineClues, solLine, q);
    }
  }

  /** How many advances lead from position p to position t, counting the
      rows and then the columns round a cycle of n lines. */
  function Distance(p: nat, t: nat, n: nat): nat
    requires p <= n
  {
    if t >= p then t - p else n - p + t
  }

  /** The line at position p of the cycle: row p, or column p - numRows. */
  function LineAt(cells: seq<Cell>, numRows: nat, numCols: nat, p: nat): seq<Cell>
  {
    if p < numRows then LineOf(cells, numRows, numCols, false, p)
    else LineOf(cells, numRows, numCols, true, p - numRows)
  }

  /** Every line met going round the cycle from position `from` up to, but
      not including, position `to` has all its cells solved. */
  ghost predicate SolvedBetween(cells: seq<Cell>, numRows: nat, numCols: nat, from: nat, to: nat)
  {
    && from <= numRows + numCols
    && forall p: nat :: p < numRows + numCols && Distance(from, p, numRows + numCols) < Distance(from, to, numRows + numCols) ==>
         AllSolved(LineAt(cells, numRows, numCols, p))
  }

  /** The position after p in a cycle of n lines. */
  function Following(p: nat, n: nat): nat
  {
    if p + 1 == n then 0 else p + 1
  }

  /** One step round the cycle, short of a full turn, is one more step
      of distance, and wraps to row 0 exactly when it leaves the last
      column. */
  lemma StepDistance(from: nat, p: nat, n: nat)
    requires from < n && p < n && Distance(from, p, n) + 1 < n
    ensures Distance(from, Following(p, n), n) == Distance(from, p, n) + 1
    ensures (if Following(p, n) < from then 1 else 0) == (if p < from then 1 else 0) + (if p + 1 == n then 1 else 0)
  {
  }

  /** Passing one more solved line extends the run of solved lines by one
      step round the cycle. */
  lemma StepSolved(cells: seq<Cell>, numRows: nat, numCols: nat, from: nat, p: nat)
    requires from < numRows + numCols && p < numRows + numCols
    requires Distance(from, p, numRows + numCols) + 1 < numRows + numCols
    requires SolvedBetween(cells, numRows, numCols, from, p) && AllSolved(LineAt(cells, numRows, numCols, p))
    ensures Distance(from, Following(p, numRows + numCols), numRows + numCols) == Distance(from, p, numRows + numCols) + 1
    ensures (if Following(p, numRows + numCols) < from then 1 else 0)
      == (if p < from then 1 else 0) + (if p + 1 == numRows + numCols then 1 else 0)
    ensures SolvedBetween(cells, numRows, numCols, from, Following(p, numRows + numCols))
  {
    var n := numRows + numCols;
    StepDistance(from, p, n);
    forall t: nat | t < n && Distance(from, t, n) < Distance(from, Following(p, n), n)
      ensures AllSolved(LineAt(cells, numRows, numCols, t))
    {
      if t != p {
        assert Distance(from, t, n) < Distance(from, p, n);
      }
    }
  }

  /** Stopping on the first unsolved line after a run of solved ones
      determines the stopping place: two such places are the same. */
  lemma {:induction false} FirstUnsolvedUnique(cells: seq<Cell>, numRows: nat, numCols: nat, from: nat, t1: nat, t2: nat)
    requires t1 < numRows + numCols && t2 < numRows + numCols
    requires SolvedBetween(cells, numRows, numCols, from, t1) && !AllSolved(LineAt(cells, numRows, numCols, t1))
    requires SolvedBetween(cells, numRows, numCols, from, t2) && !AllSolved(LineAt(cells, numRows, numCols, t2))
    ensures t1 == t2
  {
    var n := numRows + numCols;
    assert Distance(from, t1, n) == Distance(from, t2, n);
  }

  /** `SolveGridIter`. The grid is owned by the scheduler. */
  class GridSolver {
    const grid: Grids.Grid
    const numRows: nat
    const numCols: nat
    const clues: PuzzleClues.Clues
    var index: nat
    var vertical: bool
    var stats: Stats
    var lineSolver: LineSolver?
    var indexChanged: bool
    var statsChanged: bool
    var complete: bool

    /** The current line's place in the cycle: the rows first, then the
        columns. */
    function Position(): nat
      reads this
    {
      if !vertical then index else numRows + index
    }

    /** The cells of the current line. */
    ghost function Line(): seq<Cell>
      reads this, grid.data
    {
      LineOf(grid.data[..], numRows, numCols, vertical, index)
    }

    /** The clues of the current line (`get_clues`). */
    function LineClues(): seq<nat>
      reads this
    {
      if !vertical then
        if index < |clues.rows| then clues.rows[index] else []
      else
        if index < |clues.cols| then clues.cols[index] else []
    }

    /** The grid matches its dimensions and the clues, and the index is
        inside the current orientation. */
    ghost predicate Shape()
      reads this, grid
    {
      && grid.Valid() && numRows == grid.numRows && numCols == grid.numCols
      && |clues.rows| == numRows && |clues.cols| == numCols
      && PositiveClues(clues)
      && (numRows > 0 && numCols > 0 ==> index < LineCount(numRows, numCols, vertical))
    }

    /** A running line solver was started on the current line, which was
        not all solved, and the line holds the cells it has yielded so far
        followed by the rest of its input. */
    ghost predicate TrackingAt(at: nat)
      reads this, grid, grid.data, lineSolver
    {
      && lineSolver != null && numRows > 0 && numCols > 0
      && lineSolver.Valid()
      && lineSolver.clues == LineClues()
      && |lineSolver.input| == LineSize(numRows, numCols, vertical)
      && !AllSolved(lineSolver.input)
      && Tracks(Line(), lineSolver.input, lineSolver.clues, at)
    }

    ghost predicate Tracking()
      reads this, grid, grid.data, lineSolver
    {
      lineSolver != null && TrackingAt(lineSolver.index)
    }

    ghost predicate Inv()
      reads this, grid, grid.data, lineSolver
    {
      && Shape()
      && (complete ==> lineSolver == null && grid.IsSolved())
      && (lineSolver != null ==> Tracking())
    }

    /** `SolveGridIter::new`: row 0, horizontal, a Stats event pending. */
    constructor(grid: Grids.Grid, clues: PuzzleClues.Clues)
      requires grid.Valid() && |clues.rows| == grid.numRows && |clues.cols| == grid.numCols
      requires PositiveClues(clues)
      ensures Inv() && this.grid == grid && this.clues == clues
      ensures index == 0 && !vertical && stats == Stats(0, 0) && lineSolver == null
      ensures indexChanged && statsChanged && !complete
    {
      this.grid := grid;
      this.numRows := grid.numRows;
      this.numCols := grid.numCols;
      this.clues := clues;
      index := 0;
      vertical := false;
      stats := Stats(0, 0);
      lineSolver := null;
      indexChanged := true;
      statsChanged := true;
      complete := false;
    }

    /** `advance`: the next line round the cycle; a completed sweep over
        the columns counts one grid iteration. */
    method Advance()
      requires Inv() && lineSolver == null && numRows > 0 && numCols > 0
      modifies this
      ensures Inv() && lineSolver == null && complete == old(complete) && indexChanged
      ensures Position() == Following(old(Position()), numRows + numCols)
      ensures stats.gridIterations == old(stats.gridIterations) + (if old(Position()) + 1 == numRows + numCols then 1 else 0)
      ensures stats.lineIterations == old(stats.lineIterations)
      ensures stats == if old(vertical) && !vertical then old(stats).(gridIterations := old(stats).gridIterations + 1) else old(stats)
      ensures statsChanged == (old(statsChanged) || (old(vertical) && !vertical))
    {
      var maxIndex := if !vertical then numRows else numCols;
      index := index + 1;
      if index == maxIndex {
        if vertical {
          stats := stats.(gridIterations := stats.gridIterations + 1);
          statsChanged := true;
        }
        vertical := !vertical;
        index := 0;
      }
      indexChanged := true;
    }

    /** `get_line(..).collect()`: the current line, read through the
        grid's row or column view. */
    method GetLine() returns (line: seq<Cell>)
      requires Shape() && numRows > 0 && numCols > 0
      ensures line == Line()
    {
      var it: Grids.GridIter;
      if !vertical {
        it := grid.Row(index);
        RowIsLine();
      } else {
        Grids.FlatIndexBound(0, index, numRows, numCols);
        it := grid.Col(index);
        ColIsLine();
      }
      line := it.Collect();
    }

    /** The grid's row view walks the current row. */
    lemma RowIsLine()
      requires Shape() && numRows > 0 && numCols > 0 && !vertical
      ensures grid.RowCells(index) == Line()
    {
      forall k | 0 <= k < numCols
        ensures grid.RowCells(index)[k] == Line()[k]
      {
        LineOfAt(grid.data[..], numRows, numCols, vertical, index, k);
      }
    }

    /** The grid's column view walks the current column. */
    lemma ColIsLine()
      requires Shape() && numRows > 0 && numCols > 0 && vertical
      ensures grid.ColCells(index) == Line()
    {
      forall k | 0 <= k < numRows
        ensures grid.ColCells(index)[k] == Line()[k]
      {
        LineOfAt(grid.data[..], numRows, numCols, vertical, index, k);
      }
    }

    /** `get_cell`: cell k of the current line. */
    method GetCell(k: nat) returns (c: Cell)
      requires Shape() && numRows > 0 && numCols > 0 && k < LineSize(numRows, numCols, vertical)
      ensures c == Line()[k]
    {
      LineOfAt(grid.data[..], numRows, numCols, vertical, index, k);
      if !vertical {
        c := grid.At(index, k);
      } else {
        c := grid.At(k, index);
      }
    }

    /** `set_cell`: write cell k of the current line. */
    method SetCell(k: nat, c: Cell)
      requires Shape() && numRows > 0 && numCols > 0 && k < LineSize(numRows, numCols, vertical)
      modifies grid.data
      ensures FlatOf(numCols, vertical, index, k) < grid.data.Length
      ensures grid.data[..] == old(grid.data[..])[FlatOf(numCols, vertical, index, k) := c]
    {
      FlatInRange(numRows, numCols, vertical, index, k);
      if !vertical {
        grid.Set(index, k, c);
      } else {
        grid.Set(k, index, c);
      }
    }

    /** The `while` of `next` that skips lines whose cells are all solved:
        it stops on the first line round the cycle, from the current one,
        with a cell that is not solved, which an unsolved grid has, and
        counts a grid iteration when it wraps from the columns to row 0. */
    method SkipSolved()
      requires Inv() && lineSolver == null && !complete && !grid.IsSolved()
      modifies this
      ensures Inv() && lineSolver == null && !complete
      ensures numRows > 0 && numCols > 0 && !AllSolved(Line())
      ensures SolvedBetween(grid.data[..], numRows, numCols, old(Position()), Position())
      ensures stats.lineIterations == old(stats.lineIterations)
      ensures stats.gridIterations == old(stats.gridIterations) + (if Position() < old(Position()) then 1 else 0)
      ensures indexChanged || (index == old(index) && vertical == old(vertical) && stats == old(stats)
        && statsChanged == old(statsChanged) && !old(indexChanged))
    {
      ghost var r0, c0 := UnsolvedCell();
      ghost var n := numRows + numCols;
      ghost var start := Position();
      var line := GetLine();
      while AllSolved(line)
        invariant Inv() && lineSolver == null && !complete && line == Line()
        invariant Position() < n && Distance(start, Position(), n) <= Distance(start, r0, n)
        invariant SolvedBetween(grid.data[..], numRows, numCols, start, Position())
        invariant stats.lineIterations == old(stats.lineIterations)
        invariant stats.gridIterations == old(stats.gridIterations) + (if Position() < start then 1 else 0)
        invariant indexChanged || (index == old(index) && vertical == old(vertical) && stats == old(stats)
          && statsChanged == old(statsChanged) && !old(indexChanged))
        decreases Distance(Position(), r0, n)
      {
        if Position() == r0 {
          LineOfAt(grid.data[..], numRows, numCols, vertical, index, c0);
          assert false;
        }
        assert LineAt(grid.data[..], numRows, numCols, Position()) == line;
        StepSolved(grid.data[..], numRows, numCols, start, Position());
        ghost var cells := grid.data[..];
        Advance();
        assert grid.data[..] == cells;
        line := GetLine();
      }
    }

    /** An unsolved grid has a cell that is not solved. */
    lemma UnsolvedCell() returns (r0: nat, c0: nat)
      requires Shape() && !grid.IsSolved()
      ensures r0 < numRows && c0 < numCols && grid.Index(r0, c0) < grid.data.Length
      ensures !Cells.IsSolved(grid.At(r0, c0))
    {
      var i :| 0 <= i < grid.data.Length && !Cells.IsSolved(grid.data[i]);
      Grids.FlatIndexSplit(i, numRows, numCols);
      r0, c0 := i / numCols, i % numCols;
      assert grid.Index(r0, c0) == i;
    }

    /** The end of `next`: `solve_line` on the current line and its clues,
        kept as the running line solver; a line with no placement is the
        panic of `unwrap`. */
    method StartLine() returns (ok: bool)
      requires Inv() && lineSolver == null && !complete
      requires numRows > 0 && numCols > 0 && !AllSolved(Line())
      modifies this
      ensures Inv() && !complete
      ensures index == old(index) && vertical == old(vertical) && stats == old(stats)
      ensures indexChanged == old(indexChanged) && statsChanged == old(statsChanged)
      ensures ok ==> lineSolver != null && fresh(lineSolver) && lineSolver.index == 0 && lineSolver.input == Line()
      ensures !ok ==> lineSolver == null && forall q :: !Legal(Line(), LineClues(), q)
      ensures !ok ==> forall sol :: Solution(sol, numRows, numCols, clues) ==> !Refines(sol, grid.data[..])
    {
      var existing := GetLine();
      var lineClues := if !vertical then clues.rows[index] else clues.cols[index];
      var first := FirstPlacement(existing, lineClues);
      if first.None? {
        StuckHasNoSolution(grid.data[..], numRows, numCols, clues, vertical, index, lineClues);
        return false;
      }
      lineSolver := new LineSolver(existing, lineClues, first.value);
      return true;
    }

    /** One turn of `next` with a running line solver: the next cell it
        yields is written into the grid and reported when it differs from
        the grid's cell; once it is exhausted, the scheduler moves to the
        next line and counts one line iteration. */
    method FeedLine() returns (r: Option<Event>)
      requires Inv() && lineSolver != null && !complete && !statsChanged
      modifies this, grid.data, lineSolver
      ensures Inv() && !complete
      ensures r.Some? ==> CellWritten(old(grid.data[..]), grid.data[..], numRows, numCols, r.value)
      ensures r.Some? ==> stats == old(stats) && !statsChanged
      ensures r.Some? ==> index == old(index) && vertical == old(vertical)
      ensures r.None? ==> grid.data[..] == old(grid.data[..])
      ensures KeepsSolutions(old(grid.data[..]), grid.data[..], numRows, numCols, clues)
      ensures r.None? && lineSolver != null ==>
        && lineSolver == old(lineSolver) && lineSolver.index == old(lineSolver.index) + 1
        && stats == old(stats) && !statsChanged && index == old(index) && vertical == old(vertical)
      ensures r.None? && lineSolver == null ==>
        && statsChanged && Position() == Following(old(Position()), numRows + numCols)
        && stats.lineIterations == old(stats.lineIterations) + 1
        && stats.gridIterations == old(stats.gridIterations) + (if old(Position()) + 1 == numRows + numCols then 1 else 0)
    {
      var cellIndex := lineSolver.index;
      var c := lineSolver.Next();
      if c.Some? {
        r := Report(cellIndex, c.value);
        return;
      }
      lineSolver := null;
      Advance();
      stats := stats.(lineIterations := stats.lineIterations + 1);
      statsChanged := true;
      return None;
    }

    /** The cell the line solver has just yielded: reported and written
        into the grid when it differs from the grid's cell. */
    method Report(cellIndex: nat, v: Cell) returns (r: Option<Event>)
      requires Shape() && !complete && lineSolver != null
      requires lineSolver.index == cellIndex + 1 && TrackingAt(cellIndex)
      requires v == Expected(lineSolver.input, lineSolver.clues, cellIndex)
      modifies grid.data
      ensures Inv()
      ensures r.Some? ==> CellWritten(old(grid.data[..]), grid.data[..], numRows, numCols, r.value)
      ensures r.None? ==> grid.data[..] == old(grid.data[..])
      ensures KeepsSolutions(old(grid.data[..]), grid.data[..], numRows, numCols, clues)
    {
      TracksNext(Line(), lineSolver.input, lineSolver.clues, cellIndex);
      var existing := GetCell(cellIndex);
      if v == existing {
        assert Line()[cellIndex := v] == Line();
        return None;
      }
      ghost var before := grid.data[..];
      WriteKeepsSolutions(before, numRows, numCols, clues, vertical, index, lineSolver.clues, lineSolver.input, cellIndex);
      LineOfUpdate(before, numRows, numCols, vertical, index, cellIndex, v);
      SetCell(cellIndex, v);
      return Some(if !vertical then SolvedCell(index, cellIndex, v) else SolvedCell(cellIndex, index, v));
    }

    /** `next`: the next event, nothing once the grid was reported solved,
        or Stuck where the source panics. A pending Stats event goes
        first; grid cells change only from UNKNOWN to EMPTY or FILLED,
        one per SolvedCell event, and no solution that agreed with the grid
        is lost. */
    method Next() returns (r: Result<Option<Event>, Stuck>)
      requires Inv()
      modifies this, grid.data, lineSolver
      ensures Inv()
      ensures old(complete) ==> r == Ok(None) && complete
      ensures r == Ok(None) ==> old(complete)
      ensures !old(complete) && old(statsChanged) ==> r == Ok(Some(StatsEvent(old(stats)))) && !statsChanged
      ensures r == Ok(Some(SolvedGrid)) ==> complete && grid.IsSolved()
      ensures r.Ok? && r.value.Some? && r.value.value.SolvedCell? ==>
        CellWritten(old(grid.data[..]), grid.data[..], numRows, numCols, r.value.value)
      ensures !(r.Ok? && r.value.Some? && r.value.value.SolvedCell?) ==> grid.data[..] == old(grid.data[..])
      ensures KeepsSolutions(old(grid.data[..]), grid.data[..], numRows, numCols, clues)
      ensures r.Ok? && r.value.Some? && (r.value.value.Row? || r.value.value.Col?) ==>
        && r.value.value.index == index && r.value.value.Col? == vertical
        && numRows > 0 && numCols > 0 && !AllSolved(Line())
      ensures r.Err? ==> r.error == NoPlacement(vertical, index)
      ensures r.Err? ==> forall sol :: Solution(sol, numRows, numCols, clues) ==> !Refines(sol, grid.data[..])
      ensures stats.gridIterations >= old(stats.gridIterations) && stats.lineIterations >= old(stats.lineIterations)
      ensures stats.lineIterations <= old(stats.lineIterations) + 1
      ensures stats.lineIterations == old(stats.lineIterations) + 1 ==>
        !old(statsChanged) && lineSolver == null && r == Ok(Some(StatsEvent(stats)))
      ensures stats.lineIterations == old(stats.lineIterations) + 1 ==>
        && Position() == Following(old(Position()), numRows + numCols)
        && stats.gridIterations == old(stats.gridIterations) + (if old(Position()) + 1 == numRows + numCols then 1 else 0)
      ensures r.Ok? && r.value.Some? && r.value.value.SolvedCell? ==>
        index == old(index) && vertical == old(vertical) && stats == old(stats)
      ensures r.Ok? && r.value.Some? && r.value.value.StatsEvent? && stats.lineIterations == old(stats.lineIterations) ==>
        index == old(index) && vertical == old(vertical) && stats == old(stats)
      ensures (r.Ok? && r.value.Some? && (r.value.value.Row? || r.value.value.Col?)) || r.Err? ==>
        && numRows > 0 && numCols > 0 && !AllSolved(Line())
        && SolvedBetween(grid.data[..], numRows, numCols, old(Position()), Position())
        && stats.lineIterations == old(stats.lineIterations)
        && stats.gridIterations == old(stats.gridIterations) + (if Position() < old(Position()) then 1 else 0)
    {
      ghost var before := grid.data[..];
      while true
        invariant Inv() && grid.data[..] == before && complete == old(complete)
        invariant lineSolver != null ==> lineSolver == old(lineSolver) || fresh(lineSolver)
        invariant old(statsChanged) ==> statsChanged && stats == old(stats)
        invariant stats.gridIterations >= old(stats.gridIterations) && stats.lineIterations >= old(stats.lineIterations)
        invariant stats.lineIterations <= old(stats.lineIterations) + 1
        invariant stats.lineIterations == old(stats.lineIterations) + 1 ==>
          !old(statsChanged) && lineSolver == null && statsChanged && !complete
        invariant stats.lineIterations == old(stats.lineIterations) ==>
          index == old(index) && vertical == old(vertical) && stats == old(stats)
        invariant stats.lineIterations == old(stats.lineIterations) + 1 ==>
          && Position() == Following(old(Position()), numRows + numCols)
          && stats.gridIterations == old(stats.gridIterations) + (if old(Position()) + 1 == numRows + numCols then 1 else 0)
        decreases (if statsChanged then 0 else 1), (if lineSolver == null then 1 else 0),
          (if lineSolver == null then 0 else |lineSolver.input| - lineSolver.index)
      {
        if complete {
          return Ok(None);
        }
        if statsChanged {
          statsChanged := false;
          return Ok(Some(StatsEvent(stats)));
        }
        if lineSolver != null {
          var e := FeedLine();
          if e.Some? {
            return Ok(e);
          }
          continue;
        }
        var found := SeekLine();
        if found.Some? {
          return if found.value.Ok? then Ok(Some(found.value.value)) else Err(found.value.error);
        }
      }
    }

    /** The turn of `next` with no running line solver: SolvedGrid once
        every cell is solved; otherwise skip the solved lines, report a
        change of line, or start the line solver on the line (nothing to
        report yet), or panic when that line has no placement. */
    method SeekLine() returns (r: Option<Result<Event, Stuck>>)
      requires Inv() && lineSolver == null && !complete && !statsChanged
      modifies this
      ensures Inv()
      ensures r.None? ==> lineSolver != null && fresh(lineSolver) && !statsChanged && stats == old(stats) && !complete
      ensures r.Some? ==> lineSolver == null
      ensures complete <==> r == Some(Ok(SolvedGrid))
      ensures r == Some(Ok(SolvedGrid)) ==> grid.IsSolved()
      ensures r.Some? && r.value.Ok? ==> r.value.value.SolvedGrid? || r.value.value.Row? || r.value.value.Col?
      ensures r.Some? && r.value.Ok? && (r.value.value.Row? || r.value.value.Col?) ==>
        && r.value.value.index == index && r.value.value.Col? == vertical
        && numRows > 0 && numCols > 0 && !AllSolved(Line())
      ensures r.Some? && r.value.Err? ==> r.value.error == NoPlacement(vertical, index)
      ensures r.Some? && r.value.Err? ==> forall sol :: Solution(sol, numRows, numCols, clues) ==> !Refines(sol, grid.data[..])
      ensures stats.lineIterations == old(stats.lineIterations)
      ensures r == Some(Ok(SolvedGrid)) ==> index == old(index) && vertical == old(vertical) && stats == old(stats)
      ensures r.None? ==> index == old(index) && vertical == old(vertical)
      ensures r != Some(Ok(SolvedGrid)) ==>
        && numRows > 0 && numCols > 0 && !AllSolved(Line())
        && SolvedBetween(grid.data[..], numRows, numCols, old(Position()), Position())
        && stats.gridIterations == old(stats.gridIterations) + (if Position() < old(Position()) then 1 else 0)
    {
      if grid.IsSolved() {
        complete := true;
        return Some(Ok(SolvedGrid));
      }
      SkipSolved();
      if indexChanged {
        indexChanged := false;
        return Some(Ok(if !vertical then Row(index) else Col(index)));
      }
      var ok := StartLine();
      if !ok {
        return Some(Err(NoPlacement(vertical, index)));
      }
      return None;
    }
  }
}
