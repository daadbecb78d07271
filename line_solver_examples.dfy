/** The unit tests of src/solver/line_solver.rs, stated of the solved line. */
module LineSolvingExamples {
  import opened Cells
  import opened Placements
  import opened LineSolving
  import opened CluesPlacingExamples

  /** When the legal placements are exactly ps, a cell is forced to v
      exactly when every one of them draws it as v. */
  lemma ForcedAmong(line: seq<Cell>, clues: seq<nat>, ps: seq<seq<nat>>, k: nat, v: Cell)
    requires forall q :: Legal(line, clues, q) <==> q in ps
    ensures Forced(line, clues, k, v) <==> forall i :: 0 <= i < |ps| ==> CellOf(clues, ps[i], k) == v
  {
    if forall i :: 0 <= i < |ps| ==> CellOf(clues, ps[i], k) == v {
      forall q | Legal(line, clues, q)
        ensures CellOf(clues, q, k) == v
      {
        var i :| 0 <= i < |ps| && ps[i] == q;
      }
    }
  }

  /** The cell k drawn by two runs of c0 and c1 cells at p0 and p1. */
  lemma CellOfPair(c0: nat, c1: nat, p0: nat, p1: nat, k: nat)
    ensures CellOf([c0, c1], [p0, p1], k) == if p0 <= k < p0 + c0 || p1 <= k < p1 + c1 then FILLED else EMPTY
  {
    var clues, q := [c0, c1], [p0, p1];
    if p0 <= k < p0 + c0 {
      assert q[0] <= k < q[0] + clues[0];
    } else if p1 <= k < p1 + c1 {
      assert q[1] <= k < q[1] + clues[1];
    }
  }

  /** The one legal placement of ten unknown cells with runs of 3, 2
      and 3. */
  lemma LegalExample1(q: seq<nat>)
    ensures Legal(Unknowns10(), [3, 2, 3], q) <==> q == [0, 4, 7]
  {
    LegalTriple(Unknowns10(), 3, 2, 3, q);
  }

  function Unknowns10(): seq<Cell>
  {
    [UNKNOWN, UNKNOWN, UNKNOWN, UNKNOWN, UNKNOWN, UNKNOWN, UNKNOWN, UNKNOWN, UNKNOWN, UNKNOWN]
  }

  /** "----------" with runs of 3, 2 and 3 solves to "### ## ###". */
  lemma SolveLineExample1()
    ensures Solved(Unknowns10(), [3, 2, 3])
      == [FILLED, FILLED, FILLED, EMPTY, FILLED, FILLED, EMPTY, FILLED, FILLED, FILLED]
  {
    var line := Unknowns10();
    var clues, ps := [3, 2, 3], [[0, 4, 7]];
    var want := [FILLED, FILLED, FILLED, EMPTY, FILLED, FILLED, EMPTY, FILLED, FILLED, FILLED];
    forall q
      ensures Legal(line, clues, q) <==> q in ps
    {
      LegalExample1(q);
    }
    forall k | 0 <= k < |line|
      ensures Expected(line, clues, k) == want[k]
    {
      ForcedAmong(line, clues, ps, k, FILLED);
      ForcedAmong(line, clues, ps, k, EMPTY);
      var p := ps[0];
      if k < 3 {
        assert p[0] <= k < p[0] + clues[0];
      } else if 4 <= k < 6 {
        assert p[1] <= k < p[1] + clues[1];
      } else if 7 <= k {
        assert p[2] <= k < p[2] + clues[2];
      } else {
        assert !CoversFrom(clues, 0, p, k);
      }
    }
    SolvedCells(line, clues, want);
  }

  /** The legal placements of ten unknown cells with runs of 3 and 4. */
  lemma LegalExample2Open(q: seq<nat>)
    ensures Legal(Unknowns10(), [3, 4], q) <==>
      q in [[0, 4], [0, 5], [0, 6], [1, 5], [1, 6], [2, 6]]
  {
    var line := Unknowns10();
    LegalPair(line, 3, 4, q);
    if |q| == 2 && FitsAt(line, 0, 3, q[0]) && FitsAt(line, q[0] + 4, 4, q[1]) {
      assert q[0] + 4 <= q[1] <= 6;
      assert q == [q[0], q[1]];
    }
  }

  /** Each cell of "----------" solved with runs of 3 and 4: cells 2, 6
      and 7 lie in a run of every placement, and every other cell is drawn
      differently by two placements. */
  lemma {:induction false} Example2Cell(k: nat)
    requires k < 10
    ensures Expected(Unknowns10(), [3, 4], k)
      == [UNKNOWN, UNKNOWN, FILLED, UNKNOWN, UNKNOWN, UNKNOWN, FILLED, FILLED, UNKNOWN, UNKNOWN][k]
  {
    var line, clues := Unknowns10(), [3, 4];
    if k == 2 || k == 6 || k == 7 {
      forall q | Legal(line, clues, q)
        ensures CellOf(clues, q, k) == FILLED
      {
        LegalExample2Open(q);
        CellOfPair(3, 4, q[0], q[1], k);
        assert q == [q[0], q[1]];
      }
    } else {
      var a, b := [0, 4], [2, 6];
      if k == 3 {
        b := [1, 5];
      } else if k == 4 {
        b := [0, 6];
      } else if k == 5 {
        a, b := [1, 5], [0, 6];
      }
      LegalExample2Open(a);
      LegalExample2Open(b);
      assert a == [a[0], a[1]] && b == [b[0], b[1]];
      CellOfPair(3, 4, a[0], a[1], k);
      CellOfPair(3, 4, b[0], b[1], k);
      Disagreeing(line, clues, a, b, k);
    }
  }

  /** "----------" with runs of 3 and 4 solves to "--#---##--". */
  lemma SolveLineExample2()
    ensures Solved(Unknowns10(), [3, 4])
      == [UNKNOWN, UNKNOWN, FILLED, UNKNOWN, UNKNOWN, UNKNOWN, FILLED, FILLED, UNKNOWN, UNKNOWN]
  {
    var want := [UNKNOWN, UNKNOWN, FILLED, UNKNOWN, UNKNOWN, UNKNOWN, FILLED, FILLED, UNKNOWN, UNKNOWN];
    forall k | 0 <= k < 10
      ensures Expected(Unknowns10(), [3, 4], k) == want[k]
    {
      Example2Cell(k);
    }
    SolvedCells(Unknowns10(), [3, 4], want);
  }

  /** The legal placements of "-#---#----" with runs of 3 and 4. */
  lemma LegalExample5(q: seq<nat>)
    ensures Legal([UNKNOWN, FILLED, UNKNOWN, UNKNOWN, UNKNOWN, FILLED, UNKNOWN, UNKNOWN, UNKNOWN, UNKNOWN], [3, 4], q)
      <==> q == [0, 4] || q == [0, 5] || q == [1, 5]
  {
    var line := [UNKNOWN, FILLED, UNKNOWN, UNKNOWN, UNKNOWN, FILLED, UNKNOWN, UNKNOWN, UNKNOWN, UNKNOWN];
    LegalPair(line, 3, 4, q);
    if |q| == 2 {
      FitsAtCell(line, 0, 3, q[0], 1);
      FitsAtCell(line, 0, 3, q[0], 5);
      FitsAtCell(line, q[0] + 4, 4, q[1], 5);
    }
  }

  /** "-#---#----" with runs of 3 and 4 solves to "-##--###- ". */
  lemma SolveLineExample5()
    ensures Solved([UNKNOWN, FILLED, UNKNOWN, UNKNOWN, UNKNOWN, FILLED, UNKNOWN, UNKNOWN, UNKNOWN, UNKNOWN], [3, 4])
      == [UNKNOWN, FILLED, FILLED, UNKNOWN, UNKNOWN, FILLED, FILLED, FILLED, UNKNOWN, EMPTY]
  {
    var line := [UNKNOWN, FILLED, UNKNOWN, UNKNOWN, UNKNOWN, FILLED, UNKNOWN, UNKNOWN, UNKNOWN, UNKNOWN];
    var clues, ps := [3, 4], [[0, 4], [0, 5], [1, 5]];
    var want := [UNKNOWN, FILLED, FILLED, UNKNOWN, UNKNOWN, FILLED, FILLED, FILLED, UNKNOWN, EMPTY];
    forall q
      ensures Legal(line, clues, q) <==> q in ps
    {
      LegalExample5(q);
    }
    forall k | 0 <= k < |line|
      ensures Expected(line, clues, k) == want[k]
    {
      ForcedAmong(line, clues, ps, k, FILLED);
      ForcedAmong(line, clues, ps, k, EMPTY);
      CellOfPair(3, 4, 0, 4, k);
      CellOfPair(3, 4, 0, 5, k);
      CellOfPair(3, 4, 1, 5, k);
    }
    SolvedCells(line, clues, want);
  }

  /** "----- ----" with runs of 3 and 4 solves to "--#-- ####". */
  lemma SolveLineExample3()
    ensures Solved([UNKNOWN, UNKNOWN, UNKNOWN, UNKNOWN, UNKNOWN, EMPTY, UNKNOWN, UNKNOWN, UNKNOWN, UNKNOWN], [3, 4])
      == [UNKNOWN, UNKNOWN, FILLED, UNKNOWN, UNKNOWN, EMPTY, FILLED, FILLED, FILLED, FILLED]
  {
    var line := [UNKNOWN, UNKNOWN, UNKNOWN, UNKNOWN, UNKNOWN, EMPTY, UNKNOWN, UNKNOWN, UNKNOWN, UNKNOWN];
    var clues, ps := [3, 4], [[0, 6], [1, 6], [2, 6]];
    var want := [UNKNOWN, UNKNOWN, FILLED, UNKNOWN, UNKNOWN, EMPTY, FILLED, FILLED, FILLED, FILLED];
    forall q
      ensures Legal(line, clues, q) <==> q in ps
    {
      LegalExample2(q);
    }
    forall k | 0 <= k < |line|
      ensures Expected(line, clues, k) == want[k]
    {
      ForcedAmong(line, clues, ps, k, FILLED);
      ForcedAmong(line, clues, ps, k, EMPTY);
      CellOfPair(3, 4, 0, 6, k);
      CellOfPair(3, 4, 1, 6, k);
      CellOfPair(3, 4, 2, 6, k);
    }
    SolvedCells(line, clues, want);
  }

  /** "----# ----" with runs of 3 and 4 solves to "  ### ####". */
  lemma SolveLineExample4()
    ensures Solved([UNKNOWN, UNKNOWN, UNKNOWN, UNKNOWN, FILLED, EMPTY, UNKNOWN, UNKNOWN, UNKNOWN, UNKNOWN], [3, 4])
      == [EMPTY, EMPTY, FILLED, FILLED, FILLED, EMPTY, FILLED, FILLED, FILLED, FILLED]
  {
    var line := [UNKNOWN, UNKNOWN, UNKNOWN, UNKNOWN, FILLED, EMPTY, UNKNOWN, UNKNOWN, UNKNOWN, UNKNOWN];
    var clues, ps := [3, 4], [[2, 6]];
    var want := [EMPTY, EMPTY, FILLED, FILLED, FILLED, EMPTY, FILLED, FILLED, FILLED, FILLED];
    forall q
      ensures Legal(line, clues, q) <==> q in ps
    {
      LegalExample4(q);
    }
    forall k | 0 <= k < |line|
      ensures Expected(line, clues, k) == want[k]
    {
      ForcedAmong(line, clues, ps, k, FILLED);
      ForcedAmong(line, clues, ps, k, EMPTY);
      CellOfPair(3, 4, 2, 6, k);
    }
    SolvedCells(line, clues, want);
  }

  /** "--- #-----" with runs of 2 and 3 solves to "--- ##----". */
  lemma SolveLineExample6()
    ensures Solved([UNKNOWN, UNKNOWN, UNKNOWN, EMPTY, FILLED, UNKNOWN, UNKNOWN, UNKNOWN, UNKNOWN, UNKNOWN], [2, 3])
      == [UNKNOWN, UNKNOWN, UNKNOWN, EMPTY, FILLED, FILLED, UNKNOWN, UNKNOWN, UNKNOWN, UNKNOWN]
  {
    var line := [UNKNOWN, UNKNOWN, UNKNOWN, EMPTY, FILLED, UNKNOWN, UNKNOWN, UNKNOWN, UNKNOWN, UNKNOWN];
    var clues, ps := [2, 3], [[0, 4], [1, 4], [4, 7]];
    var want := [UNKNOWN, UNKNOWN, UNKNOWN, EMPTY, FILLED, FILLED, UNKNOWN, UNKNOWN, UNKNOWN, UNKNOWN];
    forall q
      ensures Legal(line, clues, q) <==> q in ps
    {
      LegalExample3(q);
    }
    forall k | 0 <= k < |line|
      ensures Expected(line, clues, k) == want[k]
    {
      ForcedAmong(line, clues, ps, k, FILLED);
      ForcedAmong(line, clues, ps, k, EMPTY);
      CellOfPair(2, 3, 0, 4, k);
      CellOfPair(2, 3, 1, 4, k);
      CellOfPair(2, 3, 4, 7, k);
    }
    SolvedCells(line, clues, want);
  }
}
