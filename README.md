# nono — a verified model of the nonogram line and grid solver

This project models the solving core of the `nono` nonogram solver in Dafny.

A nonogram is a grid of cells. Each row and each column carries a list of clues: the lengths of the runs of filled cells in that line, in order. A cell is one of four values packed into two bits, with one bit each for "can be empty" and "can be filled":

- `ERROR` (no bits set)
- `EMPTY` (only the empty bit)
- `FILLED` (only the filled bit)
- `UNKNOWN` (both bits)

The model covers the solver's layers in order:

- **Cell algebra** (`Cells`).
- **Line views and line buffers** (`Lines`, `LineBufs`), including the debug rendering `[- #!]` and its parser.
- **Sequence helpers** (`Misc`).
- **Grid** (`Grids`): a row-major array with row and column iterators and row and column writers.
- **Clue-file loader** (`PuzzleClues`), and the clue totals behind `is_consistent` (`ClueTotals`). The model proves that the row clues and the column clues of any solvable puzzle both add up to the number of filled cells of a solution.
- **Single-run placer** (`CluePlacing.CluePlacer`). It lists, in increasing order, every start position where one run fits inside a line segment.
- **Multi-run placer** (`CluesPlacing.CluesPlacer`). It does a depth-first search with one frame per run and a dead-end cache. It lists every legal placement of all the runs, each exactly once and in strictly increasing lexicographic order.
- **Line solver** (`LineSolving`). It takes the first legal placement as a sample, then probes each unknown cell with the opposite value. It reports a cell's value exactly when every legal placement agrees on it.
- **Grid scheduler** (`GridSolving.GridSolver`). It sweeps rows, then columns, runs the line solver on each unsolved line and writes the changed cells back. It emits one event per step.

Placement legality is defined once, recursively, in `Placements.PlacedFrom`, as in the placer's own recursion: skip empty-capable cells, place a run where the cells can be filled, then leave a gap. `Placements.Arranged` is an equivalent whole-line form: runs in order, separated by gaps, and every cell agrees with whether it is covered. `Placements.LegalIffArranged` proves the two forms equal.

The line solver is specified by `LineSolving.Solved`. Its cell `k` is the value that every legal placement gives `k`, or `UNKNOWN` if two placements disagree. The properties proved about it are:

- It keeps the known cells.
- It has the same legal placements as its input.
- It is idempotent.
- It never loses a solution the input admitted.

The grid scheduler keeps one invariant on every step: every complete solution of the puzzle that agreed with the grid before the step still agrees with it afterwards. When a line admits no legal placement, the scheduler reports `Stuck`, and the model proves that the puzzle then has no solution consistent with the grid.

Integers are unbounded. Where the source truncates to its 16-bit `LineSize`, the model writes out the truncation (`Lines.Len`, `PuzzleClues.NumRows`, `PuzzleClues.NumCols`).

## Model

| member | source | states |
|---|---|---|
| Cells.CellCases | src/data/cell.rs:14-17 | every cell is one of the four constants ERROR, EMPTY, FILLED, UNKNOWN |
| Cells.IsError | src/data/cell.rs:19-21 | true exactly for ERROR |
| Cells.IsEmpty | src/data/cell.rs:23-25 | true exactly for EMPTY |
| Cells.IsFilled | src/data/cell.rs:27-29 | true exactly for FILLED |
| Cells.IsUnknown | src/data/cell.rs:31-33 | true exactly for UNKNOWN |
| Cells.IsSolved | src/data/cell.rs:35-41 | true exactly for EMPTY or FILLED, i.e. neither ERROR nor UNKNOWN |
| Cells.CanEmpty | src/data/cell.rs:43-45 | the empty bit is set: exactly EMPTY or UNKNOWN |
| Cells.CanFill | src/data/cell.rs:47-49 | the filled bit is set: exactly FILLED or UNKNOWN |
| Cells.Capabilities | src/data/cell.rs:1-49 | ERROR can be neither, UNKNOWN can be both, both bits mean UNKNOWN, neither bit means ERROR, and each cell satisfies exactly one of the four tests |
| Lines.Len | src/data/line.rs:35-37 | the length as a 16-bit LineSize: always below 65536, and equal to the true length when that fits |
| Lines.AnyUnknownFinds | src/data/line.rs:39-41 | the unknown scan is true iff some cell is UNKNOWN |
| Lines.IsSolved | src/data/line.rs:39-41 | a line is solved iff no cell is UNKNOWN |
| Lines.Range | src/data/line.rs:81-94 | `a..b` has length b - a and element i is cell a + i |
| Lines.RangeFrom | src/data/line.rs:96-108 | `s..` has length len - s and element i is cell s + i |
| Lines.RangeTo | src/data/line.rs:110-122 | `..e` has length e and is the first e cells |
| Lines.SetCell | src/data/line.rs:124-130 | writing cell i changes cell i to the new value and no other cell |
| Lines.DebugCells | src/data/line.rs:145-170 | one character per cell, each the cell's debug character |
| Lines.Debug | src/data/line.rs:145-170 | the rendering is `[`, one character from "- #!" per cell, then `]` |
| Lines.DebugExample | src/data/line.rs:177-193 | UNKNOWN, EMPTY, FILLED, ERROR render as `[- #!]` |
| Misc.IntoDefault | src/misc.rs:7-13 | the recycled vector is empty |
| Misc.IntoExtend | src/misc.rs:28-37 | the result is the original elements followed by the source's elements, in order |
| LineBufs.WithSize | src/data/line_buf.rs:31-37 | a buffer of n cells, all UNKNOWN |
| LineBufs.ParseCell | src/data/line_buf.rs:39-60 | a character parses iff it is one of "- #!", and never to ERROR |
| LineBufs.FromStr | src/data/line_buf.rs:39-60 | fails iff some character is outside "- #!"; otherwise one cell per character, '-' UNKNOWN, ' ' and '!' EMPTY, '#' FILLED |
| LineBufs.IntoCopyOf | src/data/line_buf.rs:18-29 | the reused buffer ends up holding exactly the copied cells |
| LineBufs.DebugFromStr | src/data/line_buf.rs:39-85 | a string over "- #" parses and renders back to itself between brackets |
| LineBufs.FromStrDebug | src/data/line_buf.rs:39-85 | any line without ERROR cells survives render-then-parse unchanged |
| CluePlacing.FitsBlocked | src/solver/clue_placer.rs:52-54 | no placement starts past a cell that cannot be empty |
| CluePlacing.CluePlacer.constructor | src/solver/clue_placer.rs:23-34 | a fresh placer over the segment starts searching at position 0 |
| CluePlacing.CluePlacer.Next | src/solver/clue_placer.rs:42-77 | returns the next start position where the run fits, skipping every non-fitting one; None exactly when no fit remains |
| CluePlacing.PlaceClue | src/solver/clue_placer.rs:3-13 | the positions produced are strictly increasing and are exactly the positions where the run fits |
| CluePlacing.IncreasingUnique | src/solver/clue_placer.rs:42-77 | an increasing enumeration of a set of positions is unique |
| CluePlacing.PlaceClueExample1 | src/solver/clue_placer.rs:87-98 | a run of 3 in ` -#---` fits at 1 and 2 only |
| CluePlacing.PlaceClueExample2 | src/solver/clue_placer.rs:100-112 | a run of 2 in `--- -#----` fits at 0, 1, 4 and 5 only |
| Placements.FitsAtSuffix | src/solver/clues_placer.rs:143-175 | fitting a run at p within the suffix starting at o is single-run fitting on that suffix |
| Placements.PlacedFromIff | src/solver/clues_placer.rs:143-175 | the recursive placement definition holds iff runs are ordered and gapped and every cell agrees with its coverage |
| Placements.LegalIffArranged | src/solver/clues_placer.rs:143-175 | a placement of all runs is legal iff it is arranged and the line agrees with it |
| Placements.PinCell | src/solver/line_solver.rs:134-164 | pinning an unknown cell to a value keeps exactly those legal placements that give the cell that value |
| Placements.LexLessIrreflexive | src/solver/clues_placer.rs:81-133 | no placement precedes itself |
| Placements.LexLessTransitive | src/solver/clues_placer.rs:81-133 | lexicographic order on placements is transitive |
| Placements.LexTotal | src/solver/clues_placer.rs:81-133 | two different placements of the same length are ordered one way or the other |
| Placements.FirstDifference | src/solver/clues_placer.rs:81-133 | two different placements of the same length have a first index where they differ |
| PlacementSearch.ChainLegal | src/solver/clues_placer.rs:143-175 | with the first j runs fixed by the stack, a placement is legal iff its remaining runs are placeable from the stack's next offset |
| PlacementSearch.Start | src/solver/clues_placer.rs:32-47 | the empty stack with nothing emitted satisfies the search invariant |
| PlacementSearch.Exhaust | src/solver/clues_placer.rs:81-111 | popping an exhausted frame keeps the invariant; a frame that never found a placement proves its offset dead |
| PlacementSearch.StepTop | src/solver/clue_placer.rs:42-77 | moving the top frame to its next fit keeps the invariant |
| PlacementSearch.Dead | src/solver/clues_placer.rs:100-111 | a sub-search proved dead leaves the invariant intact |
| PlacementSearch.Overrun | src/solver/clues_placer.rs:143-175 | a run that would overrun the line has no placement |
| PlacementSearch.Emit | src/solver/clues_placer.rs:113-129 | a complete stack is a legal placement, greater than everything emitted, and every legal placement is emitted or later |
| PlacementSearch.PushFresh | src/solver/clues_placer.rs:143-175 | pushing a fresh frame for the next run keeps the invariant |
| SearchMeasure.KeyPop | src/solver/clues_placer.rs:81-133 | popping a frame strictly decreases the termination measure |
| SearchMeasure.KeyAdvance | src/solver/clues_placer.rs:81-133 | advancing the top frame, with or without one fresh frame above, strictly decreases the measure |
| CluesPlacing.Cache.constructor | src/solver/clues_placer.rs:219-231 | a table of clues-times-cells entries, all clear |
| CluesPlacing.Cache.IntoNew | src/solver/clues_placer.rs:233-246 | a reused table is resized and all clear |
| CluesPlacing.Cache.IsBad | src/solver/clues_placer.rs:248-258 | reads entry clue * line length + offset |
| CluesPlacing.Cache.MarkBad | src/solver/clues_placer.rs:260-270 | sets exactly that entry |
| CluesPlacing.CluesPlacer.MarkSound | src/solver/clues_placer.rs:100-111 | marking a proved-dead (clue, offset) keeps every set entry sound |
| CluesPlacing.CluesPlacer.constructor | src/solver/clues_placer.rs:32-47 | a new placer has an empty stack, has not started and has emitted nothing |
| CluesPlacing.CluesPlacer.Current | src/solver/clues_placer.rs:135-141 | the positions of the stacked frames, in stack order |
| CluesPlacing.CluesPlacer.Push | src/solver/clues_placer.rs:143-175 | finds the first fit for the run at the given depth or proves the offset dead; a depth equal to the clue count succeeds iff the rest of the line can be empty |
| CluesPlacing.CluesPlacer.SetFound | src/solver/clues_placer.rs:118-129 | marks every frame as having found a placement |
| CluesPlacing.CluesPlacer.Advance | src/solver/clues_placer.rs:81-133 | true yields a legal placement lexicographically after all earlier ones, with every legal placement either emitted or still ahead; false means every legal placement has been emitted |
| CluesPlacing.CluesPlacer.Pop | src/solver/clues_placer.rs:81-111 | removes and returns the top frame and changes nothing else |
| CluesPlacing.CluesPlacer.Move | src/solver/clue_placer.rs:42-77 | moves the top frame's placer to its next fit, or reports none left |
| CluesPlacing.TurnBack | src/solver/clues_placer.rs:94-111 | backtracking over an exhausted frame keeps the invariant, decreases the measure and records dead offsets |
| CluesPlacing.TurnDone | src/solver/clues_placer.rs:113-129 | a full stack emits a legal placement in order, keeping the invariant |
| CluesPlacing.TurnPush | src/solver/clues_placer.rs:143-175 | descending to the next run keeps the invariant and decreases the measure |
| CluesPlacing.TurnDead | src/solver/clues_placer.rs:100-111 | a dead sub-search keeps the invariant and decreases the measure |
| CluesPlacing.PlacedBounded | src/solver/clues_placer.rs:143-175 | a placement from run d has one position per remaining run, each at most the line length |
| CluesPlacing.PlaceClues | src/solver/clues_placer.rs:5-13 | returns every legal placement exactly once, in strictly increasing lexicographic order |
| CluesPlacingExamples.LegalSingle | src/solver/clues_placer.rs:143-175 | a single run is legal at p iff it fits there and the cells outside it can be empty |
| CluesPlacingExamples.LegalPair | src/solver/clues_placer.rs:143-175 | the same for two runs separated by a gap |
| CluesPlacingExamples.PlaceCluesExample1 | src/solver/clues_placer.rs:280-293 | run 3 in ` ----` is placed at 1 and 2 only |
| CluesPlacingExamples.PlaceCluesExample2 | src/solver/clues_placer.rs:296-310 | runs 3, 4 in `----- ----` give [0,6], [1,6], [2,6] |
| CluesPlacingExamples.PlaceCluesExample3 | src/solver/clues_placer.rs:313-327 | runs 2, 3 in `--- #-----` give [0,4], [1,4], [4,7] |
| CluesPlacingExamples.PlaceCluesExample4 | src/solver/clues_placer.rs:330-342 | runs 3, 4 in `----# ----` give only [2,6] |
| CluesPlacingExamples.PlaceCluesExample5 | src/solver/clues_placer.rs:345-355 | run 3 in `-#- -#-` has no placement |
| CluesPlacingExamples.NoCluesPlacements | src/solver/clues_placer.rs:143-175 | with no clues there is the one empty placement iff every cell can be empty, otherwise none |
| CluesPlacingExamples.PlaceCluesExample8 | src/solver/clues_placer.rs:386-398 | no clues on an open line give one empty placement |
| CluesPlacingExamples.PlaceCluesExample9 | src/solver/clues_placer.rs:401-411 | no clues on a line with a filled cell give no placement |
| LineSolving.RenderCells | src/solver/line_solver.rs:222-250 | rendering a placement gives FILLED exactly on covered cells and EMPTY elsewhere, over the whole line |
| LineSolving.SolvedCells | src/solver/line_solver.rs:6-18 | a line whose every cell is the agreed value is the solved line |
| LineSolving.SolvedSameLegal | src/solver/line_solver.rs:6-18 | solving keeps every known cell and admits exactly the same legal placements |
| LineSolving.SolvedUndetermined | src/solver/line_solver.rs:122-190 | a cell stays UNKNOWN iff there is a legal placement and neither value is forced |
| LineSolving.SolvedIdempotent | src/solver/line_solver.rs:6-18 | solving a solved line changes nothing |
| LineSolving.SolvedKeepsSolution | src/solver/line_solver.rs:6-18 | every full solution agreeing with the input still agrees with the solved line |
| LineSolving.FirstPlacement | src/solver/line_solver.rs:60-106 | None iff no legal placement; otherwise the lexicographically first legal placement |
| LineSolving.LineSolver.constructor | src/solver/line_solver.rs:60-106 | the sample line is the rendered first placement and solving starts at cell 0 |
| LineSolving.LineSolver.Next | src/solver/line_solver.rs:108-120 | yields, cell by cell, exactly the solved line's value, then None |
| LineSolving.LineSolver.SolveCell | src/solver/line_solver.rs:122-190 | the returned value is the cell's agreed value over all legal placements |
| LineSolving.LineSolver.Pin | src/solver/line_solver.rs:155-164 | when the inverted probe has no placement, the cell is forced to the sample's value |
| LineSolving.LineSolver.Unpin | src/solver/line_solver.rs:168-188 | when the probe has a placement, the cell is undetermined |
| LineSolving.LineSolver.DemoteDisagreeing | src/solver/line_solver.rs:168-180 | every sample cell that differs from the alternative becomes UNKNOWN, others unchanged |
| LineSolving.Disagreeing | src/solver/line_solver.rs:168-180 | two legal placements that differ at a cell leave neither value forced there |
| LineSolving.Forcing | src/solver/line_solver.rs:134-164 | an inverted probe with no placement forces the sample's value, and pinning it keeps the legal set |
| LineSolving.Unforced | src/solver/line_solver.rs:134-188 | an inverted probe with a placement makes the cell UNKNOWN in the solved line |
| LineSolving.Demoted | src/solver/line_solver.rs:168-180 | demotion keeps the sample line sound: known cells match the sample, and UNKNOWN cells are truly undetermined |
| LineSolving.SolveLine | src/solver/line_solver.rs:6-18 | None iff the line has no legal placement; otherwise exactly the solved line |
| LineSolvingExamples.ForcedAmong | src/solver/line_solver.rs:122-190 | with a known list of legal placements, a value is forced iff all of them give it |
| LineSolvingExamples.LegalExample1 | src/solver/line_solver.rs:258-268 | runs 3, 2, 3 on ten open cells have the single placement [0,4,7] |
| LineSolvingExamples.SolveLineExample1 | src/solver/line_solver.rs:258-268 | solving gives `### ## ###` |
| LineSolvingExamples.LegalExample2Open | src/solver/line_solver.rs:271-281 | runs 3, 4 on ten open cells have exactly six placements |
| LineSolvingExamples.SolveLineExample2 | src/solver/line_solver.rs:271-281 | solving gives `--#---##--` |
| LineSolvingExamples.SolveLineExample3 | src/solver/line_solver.rs:284-294 | solving `----- ----` gives `--#-- ####` |
| LineSolvingExamples.SolveLineExample4 | src/solver/line_solver.rs:297-307 | solving `----# ----` gives `  ### ####` |
| LineSolvingExamples.LegalExample5 | src/solver/line_solver.rs:310-320 | runs 3, 4 on `-#---#----` have exactly their listed placements |
| LineSolvingExamples.SolveLineExample5 | src/solver/line_solver.rs:310-320 | solving `-#---#----` gives `-##--###- ` |
| LineSolvingExamples.SolveLineExample6 | src/solver/line_solver.rs:323-333 | solving `--- #-----` gives `--- ##----` |
| Grids.FlatIndexInjective | src/data/grid.rs:98-115 | distinct in-range coordinates have distinct flat indices |
| Grids.FlatIndexSplit | src/data/grid.rs:98-115 | every flat index is row * columns + column for one in-range coordinate |
| Grids.StridedColumn | src/data/grid.rs:62-72 | stepping by the column count from column c visits exactly column c's cells |
| Grids.GridIter.Next | src/data/grid.rs:139-154 | yields the first remaining cell and advances by the step, or None when done |
| Grids.GridIter.Collect | src/data/grid.rs:139-154 | draining an iterator yields exactly its remaining cells |
| Grids.Grid.constructor | src/data/grid.rs:16-29 | rows * columns cells, all UNKNOWN |
| Grids.Grid.Index | src/data/grid.rs:98-115 | `(row, col)` indexes flat cell row * columns + col: for an in-range column the quotient by the row length is the row and the remainder is the column |
| Grids.Grid.InRange | src/data/grid.rs:98-115 | an in-range coordinate indexes inside the data |
| Grids.Grid.IsSolved | src/data/grid.rs:41-45 | a grid is solved iff every cell is EMPTY or FILLED |
| Grids.Grid.SolvedByCoordinates | src/data/grid.rs:41-45 | the flat scan and the all-coordinates view of solvedness agree |
| Grids.Grid.Row | src/data/grid.rs:47-60 | iterates exactly the row's cells, left to right |
| Grids.Grid.Col | src/data/grid.rs:62-72 | iterates exactly the column's cells, top to bottom |
| Grids.Grid.Set | src/data/grid.rs:117-132 | writes one cell and no other |
| Grids.Grid.SetRow | src/data/grid.rs:76-84 | the row's cells become the line; all other cells are unchanged |
| Grids.Grid.SetCol | src/data/grid.rs:86-94 | the column's cells become the line; all other cells are unchanged |
| PuzzleClues.Trim | src/data/clues.rs:41-54 | removes exactly the leading and trailing whitespace |
| PuzzleClues.ContentLines | src/data/clues.rs:41-54 | keeps only non-empty trimmed lines |
| PuzzleClues.SplitSpaces | src/data/clues.rs:87-89 | splits on single spaces into space-free tokens |
| PuzzleClues.ParseU16 | src/data/clues.rs:87-89 | accepts only an optional '+' then decimal digits, with a value below 65536 |
| PuzzleClues.ParseCluesLine | src/data/clues.rs:87-95 | succeeds iff every token parses; the clues are the tokens' values in order |
| PuzzleClues.Load | src/data/clues.rs:33-104 | loads the clue file exactly as its declarative reading says: the first error, or all rows and columns |
| PuzzleClues.LoadContent | src/data/clues.rs:58-104 | the header and data loop matches that declarative reading |
| PuzzleClues.RejectHeader | src/data/clues.rs:67-85 | a misplaced or repeated header, or data before a header, is a header error |
| PuzzleClues.RejectNumber | src/data/clues.rs:87-89 | an unparsable number is a number error |
| PuzzleClues.AcceptData | src/data/clues.rs:91-95 | a data line is appended to the section of the current mode |
| PuzzleClues.LoadedAll | src/data/clues.rs:99-102 | a clean pass yields the collected rows and columns |
| PuzzleClues.NumRows | src/data/clues.rs:106-108 | the row count as a 16-bit value |
| PuzzleClues.NumCols | src/data/clues.rs:110-112 | the column count as a 16-bit value |
| ClueTotals.SumAllAppend | src/data/clues.rs:130-136 | the flattened sum of two lists of clue lines is the sum of their sums |
| ClueTotals.LegalFilled | src/data/clues.rs:130-136 | a decided line with a legal placement of its clues has exactly as many FILLED cells as the clues add up to |
| ClueTotals.RowsColsSwap | src/data/clues.rs:130-140 | counting the FILLED cells of a grid row by row and column by column gives the same total |
| ClueTotals.RowsTotal | src/data/clues.rs:130-132 | the row clues of a solution add up to its FILLED count, row by row |
| ClueTotals.ColsTotal | src/data/clues.rs:134-136 | the column clues of a solution add up to its FILLED count, column by column |
| ClueTotals.SolutionConsistent | src/data/clues.rs:130-140 | `rows_sum` and `cols_sum` of a solvable puzzle both equal the solution's FILLED count, so `is_consistent` holds |
| GridSolving.FlatDistinct | src/solver/solve_grid.rs:124-166 | distinct cells of one line map to distinct grid cells |
| GridSolving.LineOfAt | src/solver/solve_grid.rs:124-146 | cell k of the current line is the grid cell at the row-or-column flat index |
| GridSolving.LineOfUpdate | src/solver/solve_grid.rs:158-166 | writing through the line view changes exactly that line cell |
| GridSolving.TracksNext | src/solver/solve_grid.rs:189-231 | each reported cell is the solved line's value |
| GridSolving.WriteKeepsSolutions | src/solver/solve_grid.rs:194-198 | writing a solved cell back keeps every grid solution consistent with the grid |
| GridSolving.StuckHasNoSolution | src/solver/solve_grid.rs:262-268 | a line without legal placement means the grid admits no solution |
| GridSolving.GridSolver.constructor | src/solver/solve_grid.rs:62-86 | starts on row 0 with zero stats, pending stats and index events, and not complete |
| GridSolving.GridSolver.Advance | src/solver/solve_grid.rs:88-112 | moves to the next row, then wraps from the last row to columns and from the last column to rows; a full sweep counts a grid iteration |
| GridSolving.GridSolver.GetLine | src/solver/solve_grid.rs:124-146 | the current row or column's cells |
| GridSolving.GridSolver.GetCell | src/solver/solve_grid.rs:148-156 | cell k of the current line |
| GridSolving.GridSolver.SetCell | src/solver/solve_grid.rs:158-166 | writes the grid cell under cell k of the current line and nothing else |
| GridSolving.StepSolved | src/solver/solve_grid.rs:238-242 | passing one more solved line extends the solved run by one step round the row-then-column cycle, wrapping to row 0 exactly when it leaves the last column |
| GridSolving.FirstUnsolvedUnique | src/solver/solve_grid.rs:238-242 | the first unsolved line after a run of solved ones is unique, so the skip loop's stopping place is determined |
| GridSolving.GridSolver.SkipSolved | src/solver/solve_grid.rs:238-242 | stops on the first line, going round the row-then-column cycle from the current one, that has an unsolved cell; every line passed is all solved; the grid iteration count grows by one exactly when the walk wraps past the last column, and the line iteration count is unchanged |
| GridSolving.GridSolver.UnsolvedCell | src/data/grid.rs:41-45 | an unsolved grid has an unsolved cell at some coordinate |
| GridSolving.GridSolver.StartLine | src/solver/solve_grid.rs:258-270 | starts the line solver on the current line, or proves it has no placement and the grid no solution |
| GridSolving.GridSolver.FeedLine | src/solver/solve_grid.rs:189-231 | reports the next changed cell, writing it back, and keeps every solution; the position stays put while the line solver runs; once it runs out, the position moves one line on as in `advance` and the stats gain one line iteration, plus one grid iteration when leaving the last column |
| GridSolving.GridSolver.Report | src/solver/solve_grid.rs:194-218 | writes a changed solved cell and emits its event, or leaves the grid unchanged |
| GridSolving.GridSolver.Next | src/solver/solve_grid.rs:174-274 | the next event: None only once complete, pending stats first, SolvedGrid only on a solved grid, Stuck only when no solution exists, solutions kept on every step, and at most one more line iteration per call, only when the line solver ran out and the call reports the new stats. The position is unchanged after a SolvedCell event. After an exhausted line solver it is one line on. Before a Row, Col or Stuck result it is the first unsolved line at or after the old position, with every line passed all solved |
| GridSolving.GridSolver.SeekLine | src/solver/solve_grid.rs:233-270 | SolvedGrid exactly when the grid is solved, with nothing moved; otherwise stops on the first unsolved line at or after the old position, counting a wrap as a grid iteration, and reports it as Row or Col if the index changed, reports Stuck, or starts the line solver there without moving |

## Left out

- Reading a clue file from disk (`load_file`) and byte-level UTF-8 handling are not modelled. `PuzzleClues.Load` receives the file already split into lines.
- The GTK and command-line front ends, the grid printer and the sample puzzles are not part of this model.
- The standalone iterator wrappers (`place_clues` iterator, `LineSolverIter`, `CluesPlacerIter`) are not modelled separately. `CluesPlacing.PlaceClues` collects the iterator's output and `LineSolving.SolveLine` collects the line solver's.
- Buffer recycling (`into_default`, `into_new` reusing allocations through `mem::transmute` and `mem::swap`) is modelled as fresh allocation. Reuse is not observable in the results.
- Shared ownership of the grid (`Rc`/`RefCell`) is modelled as the solver holding the grid object.
- `IndexMut<Range>` on a line (src/data/line.rs:132-143) is not modelled. Slices are modelled through `Lines.Range` only.
- `line_buf.rs` conversions (`From<Vec>`, `FromIterator`, `Deref`, `Borrow`, `capacity`) are representation plumbing with nothing to state and are not modelled.
- The debug line printed by the multi-run placer's constructor (src/solver/clues_placer.rs:37) is not modelled.
- Clue placer tests 6 and 7 (24-cell lines) are not restated as example lemmas.
- `CluesPlacing.CluesPlacer.constructor` requires every clue to be positive. A zero-length run can make the dead-end cache index run past its table, which panics in the source.
- `LineSolving.SolveLine` requires every clue to be positive, for the same reason.
- `GridSolving.GridSolver.constructor` requires positive clues and matching row and column counts. The source assumes a consistent puzzle.
- `GridSolving.GridSolver.Next` models the `unwrap` on a line without a legal placement (src/solver/solve_grid.rs:262-270) as the error result `Stuck` rather than a panic.
- `GridSolving.GridSolver.Next` does not prove termination. Like the source, the scheduler keeps cycling over unsolved lines that make no progress.
- `GridSolving.GridSolver.Next` keeps no per-line dirty flags and has no terminal state for lack of progress: like src/solver/solve_grid.rs:238-256, it skips solved lines and cycles.
- The `SolvedRow` event is declared but never produced, as in the source.
- The `_ => panic!()` arm for an ERROR sample cell in the line solver (src/solver/line_solver.rs:134-141) cannot be reached, because a rendered placement contains only EMPTY and FILLED cells. The model has no such branch.
- Arithmetic on `LineSize` is unbounded. The source's 16-bit positions could overflow for lines longer than 65535 cells.
- `Lines.Range`, `Lines.RangeFrom`, `Lines.RangeTo` and `Lines.SetCell` require in-bounds indices. Out-of-bounds indices panic in the source (src/data/line.rs:81-130); the model excludes them by precondition and has no panic case.
- `Grids.Grid.Row`: requires `row < numRows`. With zero columns the source also accepts any row, giving an empty iterator.
- `Grids.Grid.SetCol`: requires `col < numCols`. The source only needs each flat index to fall inside the data.
