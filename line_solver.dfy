/** The line solver of src/solver/line_solver.rs: take the first legal
    placement of the clues as a sample line, then, cell by cell, invert the
    sample at an unknown cell and ask for a placement of the line so
    changed. When there is none, the cell is forced to the sample value;
    when there is one, every cell on which it disagrees with the sample is
    no longer certain. */
module LineSolving {
  import opened Wrappers
  import opened Cells
  import opened Placements
  import opened CluesPlacing

  /** k copies of one cell. */
  function Repeat(c: Cell, k: nat): (r: seq<Cell>)
    ensures |r| == k && forall i :: 0 <= i < k ==> r[i] == c
  {
    seq(k, _ => c)
  }

  /** The runs d.. of a placement, rendered from cell pos to the end of a
      line of n cells: empty cells up to each run, then the run filled. */
  function RenderFrom(clues: seq<nat>, q: seq<nat>, d: nat, pos: nat, n: nat): seq<Cell>
    requires d <= |clues| == |q| && pos <= n
    requires SpacedFrom(n, clues, d, pos, q[d..])
    decreases |clues| - d
  {
    if d == |clues| then
      Repeat(EMPTY, n - pos)
    else
      assert q[d..][0] == q[d] && q[d..][1..] == q[d + 1..];
      Repeat(EMPTY, q[d] - pos) + Repeat(FILLED, clues[d]) + RenderFrom(clues, q, d + 1, q[d] + clues[d], n)
  }

  /** `render_placed_clues(clues, placed, n)`: the line a placement draws. */
  function Render(clues: seq<nat>, q: seq<nat>, n: nat): seq<Cell>
    requires |q| == |clues| && SpacedFrom(n, clues, 0, 0, q)
  {
    RenderFrom(clues, q, 0, 0, n)
  }

  /** The cell k of the line a placement draws. */
  function CellOf(clues: seq<nat>, q: seq<nat>, k: nat): (c: Cell)
    ensures c == FILLED || c == EMPTY
  {
    if CoversFrom(clues, 0, q, k) then FILLED else EMPTY
  }

  /** The rendering from pos has one cell per cell of the line from pos,
      filled exactly where a run d.. covers it. */
  lemma {:induction false} RenderFromCells(clues: seq<nat>, q: seq<nat>, d: nat, pos: nat, n: nat)
    requires d <= |clues| == |q| && pos <= n
    requires SpacedFrom(n, clues, d, pos, q[d..])
    ensures |RenderFrom(clues, q, d, pos, n)| == n - pos
    ensures forall k :: pos <= k < n ==>
      RenderFrom(clues, q, d, pos, n)[k - pos] == if CoversFrom(clues, d, q[d..], k) then FILLED else EMPTY
    decreases |clues| - d
  {
    if d < |clues| {
      var r := q[d..];
      assert r[0] == q[d] && r[1..] == q[d + 1..];
      RenderFromCells(clues, q, d + 1, q[d] + clues[d], n);
      var head := Repeat(EMPTY, q[d] - pos) + Repeat(FILLED, clues[d]);
      var tail := RenderFrom(clues, q, d + 1, q[d] + clues[d], n);
      forall k | pos <= k < n
        ensures RenderFrom(clues, q, d, pos, n)[k - pos] == if CoversFrom(clues, d, r, k) then FILLED else EMPTY
      {
        CoversSplit(clues, d, r, k);
        if k < q[d] + clues[d] {
          CoversHead(n, clues, d, pos, r, k);
          assert RenderFrom(clues, q, d, pos, n)[k - pos] == head[k - pos];
        } else {
          assert RenderFrom(clues, q, d, pos, n)[k - pos] == tail[k - (q[d] + clues[d])];
          if CoversFrom(clues, d + 1, r[1..], k) {
          } else {
            assert !(r[0] <= k < r[0] + clues[d]);
          }
        }
      }
    } else {
      forall k | pos <= k < n
        ensures !CoversFrom(clues, d, q[d..], k)
      {
      }
    }
  }

  /** `render_placed_clues` draws exactly n cells, FILLED on each run of
      the placement and EMPTY elsewhere. */
  lemma RenderCells(clues: seq<nat>, q: seq<nat>, n: nat)
    requires |q| == |clues| && SpacedFrom(n, clues, 0, 0, q)
    ensures |Render(clues, q, n)| == n
    ensures forall k :: 0 <= k < n ==> Render(clues, q, n)[k] == CellOf(clues, q, k)
  {
    assert q[0..] == q;
    RenderFromCells(clues, q, 0, 0, n);
  }

  /** Every legal placement of the line draws cell k as v. */
  ghost predicate Forced(line: seq<Cell>, clues: seq<nat>, k: nat, v: Cell)
  {
    forall q :: Legal(line, clues, q) ==> CellOf(clues, q, k) == v
  }

  /** What the solver yields for cell k: the cell itself when it is known,
      else the value every legal placement gives it, else UNKNOWN. */
  ghost function Expected(line: seq<Cell>, clues: seq<nat>, k: nat): Cell
    requires k < |line|
  {
    if !IsUnknown(line[k]) then line[k]
    else if Forced(line, clues, k, FILLED) then FILLED
    else if Forced(line, clues, k, EMPTY) then EMPTY
    else UNKNOWN
  }

  /** The whole line the solver yields. */
  ghost function Solved(line: seq<Cell>, clues: seq<nat>): (r: seq<Cell>)
    ensures |r| == |line|
  {
    seq(|line|, k requires 0 <= k < |line| => Expected(line, clues, k))
  }

  /** A line that holds the expected value at every cell is the solved line. */
  lemma SolvedCells(line: seq<Cell>, clues: seq<nat>, out: seq<Cell>)
    requires |out| == |line|
    requires forall k :: 0 <= k < |out| ==> out[k] == Expected(line, clues, k)
    ensures out == Solved(line, clues)
  {
  }

  /** Two lines with the same legal placements. */
  ghost predicate SameLegal(a: seq<Cell>, b: seq<Cell>, clues: seq<nat>)
  {
    forall q :: Legal(a, clues, q) <==> Legal(b, clues, q)
  }

  /** Solving keeps every known cell, and the solved line has exactly the
      legal placements of the line it was solved from. */
  lemma SolvedSameLegal(line: seq<Cell>, clues: seq<nat>)
    ensures forall k :: 0 <= k < |line| && !IsUnknown(line[k]) ==> Solved(line, clues)[k] == line[k]
    ensures SameLegal(Solved(line, clues), line, clues)
  {
    var s := Solved(line, clues);
    forall q
      ensures Legal(s, clues, q) <==> Legal(line, clues, q)
    {
      LegalIffArranged(s, clues, q);
      LegalIffArranged(line, clues, q);
      if Legal(line, clues, q) {
        forall k | 0 <= k < |s|
          ensures if CoversFrom(clues, 0, q, k) then CanFill(s[k]) else CanEmpty(s[k])
        {
          assert s[k] == Expected(line, clues, k);
          assert CellOf(clues, q, k) == if CoversFrom(clues, 0, q, k) then FILLED else EMPTY;
        }
      }
      if Legal(s, clues, q) {
        forall k | 0 <= k < |line|
          ensures if CoversFrom(clues, 0, q, k) then CanFill(line[k]) else CanEmpty(line[k])
        {
          assert s[k] == Expected(line, clues, k);
        }
      }
    }
  }

  /** A cell solves to UNKNOWN exactly when it was unknown and two legal
      placements draw it differently. */
  lemma SolvedUndetermined(line: seq<Cell>, clues: seq<nat>, k: nat)
    requires k < |line|
    ensures Solved(line, clues)[k] == UNKNOWN <==>
      && line[k] == UNKNOWN
      && (exists a :: Legal(line, clues, a) && CellOf(clues, a, k) == FILLED)
      && (exists b :: Legal(line, clues, b) && CellOf(clues, b, k) == EMPTY)
  {
    assert Solved(line, clues)[k] == Expected(line, clues, k);
    if line[k] == UNKNOWN && !Forced(line, clues, k, FILLED) && !Forced(line, clues, k, EMPTY) {
      var b :| Legal(line, clues, b) && CellOf(clues, b, k) != FILLED;
      var a :| Legal(line, clues, a) && CellOf(clues, a, k) != EMPTY;
      assert CellOf(clues, a, k) == FILLED && CellOf(clues, b, k) == EMPTY;
    }
  }

  /** Solving a solved line changes nothing. */
  lemma SolvedIdempotent(line: seq<Cell>, clues: seq<nat>)
    ensures Solved(Solved(line, clues), clues) == Solved(line, clues)
  {
    var s := Solved(line, clues);
    SolvedSameLegal(line, clues);
    forall k | 0 <= k < |s|
      ensures Expected(s, clues, k) == s[k]
    {
      if s[k] == UNKNOWN {
        SolvedUndetermined(line, clues, k);
        var a :| Legal(line, clues, a) && CellOf(clues, a, k) == FILLED;
        var b :| Legal(line, clues, b) && CellOf(clues, b, k) == EMPTY;
        assert Legal(s, clues, a) && Legal(s, clues, b);
      }
    }
    SolvedCells(s, clues, s);
  }

  /** fine is the coarse line with some of its unknown cells decided. */
  predicate Refines(fine: seq<Cell>, coarse: seq<Cell>)
  {
    |fine| == |coarse| && forall k :: 0 <= k < |coarse| && coarse[k] != UNKNOWN ==> fine[k] == coarse[k]
  }

  /** A fully decided line with a legal placement, agreeing with the known
      cells of a line, is one of that line's placements and agrees with
      the solved line too: solving never rules out a solution. */
  lemma SolvedKeepsSolution(line: seq<Cell>, clues: seq<nat>, sol: seq<Cell>, q: seq<nat>)
    requires Refines(sol, line)
    requires forall k :: 0 <= k < |sol| ==> sol[k] == EMPTY || sol[k] == FILLED
    requires Legal(sol, clues, q)
    ensures Legal(line, clues, q)
    ensures Refines(sol, Solved(line, clues))
  {
    LegalIffArranged(sol, clues, q);
    LegalIffArranged(line, clues, q);
    forall k | 0 <= k < |line|
      ensures if CoversFrom(clues, 0, q, k) then CanFill(line[k]) else CanEmpty(line[k])
    {
      if line[k] != UNKNOWN {
        assert line[k] == sol[k];
      }
    }
    forall k | 0 <= k < |line| && Solved(line, clues)[k] != UNKNOWN
      ensures sol[k] == Solved(line, clues)[k]
    {
      assert Solved(line, clues)[k] == Expected(line, clues, k);
      assert sol[k] == CellOf(clues, q, k);
    }
  }

  /** The first placement of a fresh clues placer (the `into_new`,
      `advance`, `current` sequence): none exactly when the line has no
      legal placement, otherwise a legal one that comes first in
      lexicographic order. */
  method FirstPlacement(line: seq<Cell>, clues: seq<nat>) returns (r: Option<seq<nat>>)
    requires forall k :: 0 <= k < |clues| ==> clues[k] > 0
    ensures r.None? <==> forall q :: !Legal(line, clues, q)
    ensures r.Some? ==> Legal(line, clues, r.value)
    ensures r.Some? ==> forall q :: Legal(line, clues, q) ==> q == r.value || LexLess(r.value, q)
  {
    var placer := new CluesPlacer(line, clues);
    var found := placer.Advance();
    if !found {
      return None;
    }
    var q := placer.Current();
    return Some(q);
  }

  class LineSolver {
    const clues: seq<nat>
    /** The line the solver was built for. */
    ghost const input: seq<Cell>
    /** The line with the cells forced so far written in. */
    var line: seq<Cell>
    /** The sample placement's line, with the cells found uncertain
        set to UNKNOWN. */
    var sampleLine: seq<Cell>
    /** The line handed to the placer: `line`, with one cell inverted
        while a cell is being solved. */
    var proposedLine: seq<Cell>
    var index: nat
    /** The placement sampleLine was drawn from. */
    ghost var sample: seq<nat>

    /** The solver's state with every cell from `from` on still as in the
        input, whatever the line handed to the placer. */
    ghost predicate Sound(from: nat)
      reads this
    {
      && (forall k :: 0 <= k < |clues| ==> clues[k] > 0)
      && |line| == |input| == |sampleLine| == |proposedLine|
      && index <= |line| && from <= |line|
      && SameLegal(line, input, clues)
      && Legal(input, clues, sample)
      && (forall k :: from <= k < |line| ==> line[k] == input[k])
      && (forall k :: 0 <= k < |line| ==> sampleLine[k] == UNKNOWN || sampleLine[k] == CellOf(clues, sample, k))
      && (forall k :: 0 <= k < |line| && sampleLine[k] == UNKNOWN ==>
            !Forced(input, clues, k, FILLED) && !Forced(input, clues, k, EMPTY))
    }

    /** Between cells: the placer is handed the line itself. */
    ghost predicate ValidFrom(from: nat)
      reads this
    {
      Sound(from) && proposedLine == line
    }

    ghost predicate Valid()
      reads this
    {
      ValidFrom(index)
    }

    /** `into_new` once a first placement is found: the sample line is
        that placement drawn out, the cursor is at the first cell. */
    constructor(input: seq<Cell>, clues: seq<nat>, first: seq<nat>)
      requires forall k :: 0 <= k < |clues| ==> clues[k] > 0
      requires Legal(input, clues, first)
      ensures Valid()
      ensures this.input == input && this.clues == clues && line == input && index == 0
      ensures sample == first && |sampleLine| == |input|
      ensures forall k :: 0 <= k < |input| ==> sampleLine[k] == CellOf(clues, first, k)
    {
      LegalIffArranged(input, clues, first);
      RenderCells(clues, first, |input|);
      this.clues := clues;
      this.input := input;
      line := input;
      sampleLine := Render(clues, first, |input|);
      proposedLine := input;
      index := 0;
      sample := first;
    }

    /** `next`: the solved value of the cell under the cursor, which then
        moves on; nothing once every cell has been yielded. */
    method Next() returns (r: Option<Cell>)
      requires Valid()
      modifies this
      ensures Valid()
      ensures old(index) == |input| ==> r.None? && index == old(index) && line == old(line)
      ensures old(index) < |input| ==> r == Some(Expected(input, clues, old(index))) && index == old(index) + 1
      ensures forall k :: 0 <= k < |sampleLine| ==> sampleLine[k] == old(sampleLine[k]) || sampleLine[k] == UNKNOWN
    {
      if index == |line| {
        return None;
      }
      var cell := SolveCell();
      index := index + 1;
      return Some(cell);
    }

    /** `solve_cell`: the solved value of the cell under the cursor. */
    method SolveCell() returns (c: Cell)
      requires Valid() && index < |line|
      modifies this
      ensures ValidFrom(index + 1) && index == old(index)
      ensures c == Expected(input, clues, index)
      ensures forall k :: 0 <= k < |sampleLine| ==> sampleLine[k] == old(sampleLine[k]) || sampleLine[k] == UNKNOWN
    {
      var existing := line[index];
      if !IsUnknown(existing) {
        return existing;
      }
      var sampleCell := sampleLine[index];
      var inverse: Cell;
      if sampleCell == EMPTY {
        inverse := FILLED;
      } else if sampleCell == FILLED {
        inverse := EMPTY;
      } else {
        // UNKNOWN: some placement already disagrees with the sample here
        // (the sample line never holds ERROR, on which the source panics).
        return existing;
      }
      proposedLine := proposedLine[index := inverse];
      var alternative := FirstPlacement(proposedLine, clues);
      if alternative.None? {
        c := Pin(sampleCell);
      } else {
        Unpin(sampleCell, alternative.value);
        c := existing;
      }
    }

    /** No placement of the inverted line: the cell is forced to the
        sample's value, which is written into the line. */
    method Pin(v: Cell) returns (c: Cell)
      requires Sound(index) && index < |line| && line[index] == UNKNOWN
      requires v == CellOf(clues, sample, index)
      requires (v == EMPTY && proposedLine == line[index := FILLED]) || (v == FILLED && proposedLine == line[index := EMPTY])
      requires forall q :: !Legal(proposedLine, clues, q)
      modifies this
      ensures ValidFrom(index + 1) && index == old(index) && sampleLine == old(sampleLine)
      ensures c == v == Expected(input, clues, index)
    {
      Forcing(line, input, clues, sample, index, v, proposedLine);
      proposedLine := proposedLine[index := v];
      line := line[index := v];
      return v;
    }

    /** A placement of the inverted line: the cell stays unknown, and every
        sample cell that placement draws differently becomes UNKNOWN. */
    method Unpin(v: Cell, alternative: seq<nat>)
      requires Sound(index) && index < |line| && line[index] == UNKNOWN
      requires v == CellOf(clues, sample, index)
      requires (v == EMPTY && proposedLine == line[index := FILLED]) || (v == FILLED && proposedLine == line[index := EMPTY])
      requires Legal(proposedLine, clues, alternative)
      modifies this
      ensures ValidFrom(index + 1) && index == old(index)
      ensures UNKNOWN == Expected(input, clues, index)
      ensures forall k :: 0 <= k < |sampleLine| ==> sampleLine[k] == old(sampleLine[k]) || sampleLine[k] == UNKNOWN
    {
      Unforced(line, input, clues, sample, index, v, proposedLine, alternative);
      LegalIffArranged(input, clues, alternative);
      var rendered := Render(clues, alternative, |line|);
      RenderCells(clues, alternative, |line|);
      DemoteDisagreeing(rendered);
      Demoted(input, clues, sample, alternative, old(sampleLine), sampleLine);
      proposedLine := proposedLine[index := UNKNOWN];
    }

    /** The loop of `solve_cell` over the alternative placement's line:
        every sample cell it disagrees with becomes UNKNOWN. */
    method DemoteDisagreeing(rendered: seq<Cell>)
      requires |rendered| == |sampleLine|
      modifies this
      ensures |sampleLine| == |rendered|
      ensures forall k :: 0 <= k < |rendered| ==>
        sampleLine[k] == if rendered[k] != old(sampleLine[k]) then UNKNOWN else old(sampleLine[k])
      ensures line == old(line) && proposedLine == old(proposedLine) && index == old(index)
      ensures sample == old(sample)
    {
      var k := 0;
      while k < |rendered|
        invariant 0 <= k <= |rendered| == |sampleLine|
        invariant forall j :: 0 <= j < k ==>
          sampleLine[j] == if rendered[j] != old(sampleLine[j]) then UNKNOWN else old(sampleLine[j])
        invariant forall j :: k <= j < |rendered| ==> sampleLine[j] == old(sampleLine[j])
        invariant line == old(line) && proposedLine == old(proposedLine) && index == old(index)
        invariant sample == old(sample)
      {
        if rendered[k] != sampleLine[k] {
          sampleLine := sampleLine[k := UNKNOWN];
        }
        k := k + 1;
      }
    }
  }

  /** Two legal placements that draw cell k differently: the cell is
      forced neither way. */
  lemma Disagreeing(line: seq<Cell>, clues: seq<nat>, a: seq<nat>, b: seq<nat>, k: nat)
    requires Legal(line, clues, a) && Legal(line, clues, b)
    requires CellOf(clues, a, k) != CellOf(clues, b, k)
    ensures !Forced(line, clues, k, FILLED) && !Forced(line, clues, k, EMPTY)
  {
  }

  /** With no placement of the line inverted at cell i, every placement
      gives cell i the sample's value v, and writing v there keeps the
      legal placements. */
  lemma Forcing(line: seq<Cell>, input: seq<Cell>, clues: seq<nat>, sample: seq<nat>, i: nat, v: Cell, probe: seq<Cell>)
    requires i < |line| == |input| && line[i] == UNKNOWN && input[i] == UNKNOWN
    requires SameLegal(line, input, clues) && Legal(input, clues, sample)
    requires (v == EMPTY && probe == line[i := FILLED]) || (v == FILLED && probe == line[i := EMPTY])
    requires v == CellOf(clues, sample, i)
    requires forall q :: !Legal(probe, clues, q)
    ensures Forced(input, clues, i, v) && v == Expected(input, clues, i)
    ensures SameLegal(line[i := v], input, clues)
  {
    var inverse := if v == EMPTY then FILLED else EMPTY;
    forall q | Legal(input, clues, q)
      ensures CellOf(clues, q, i) == v
    {
      PinCell(line, clues, q, i, inverse);
    }
    forall q
      ensures Legal(line[i := v], clues, q) <==> Legal(input, clues, q)
    {
      PinCell(line, clues, q, i, v);
    }
    if v == EMPTY {
      assert CellOf(clues, sample, i) != FILLED;
    }
  }

  /** A placement of the line inverted at cell i is a placement of the
      line that disagrees with the sample at cell i: the cell is not
      forced either way. */
  lemma Unforced(line: seq<Cell>, input: seq<Cell>, clues: seq<nat>, sample: seq<nat>, i: nat, v: Cell, probe: seq<Cell>, alternative: seq<nat>)
    requires i < |line| == |input| && line[i] == UNKNOWN && input[i] == UNKNOWN
    requires SameLegal(line, input, clues) && Legal(input, clues, sample)
    requires (v == EMPTY && probe == line[i := FILLED]) || (v == FILLED && probe == line[i := EMPTY])
    requires v == CellOf(clues, sample, i)
    requires Legal(probe, clues, alternative)
    ensures Legal(input, clues, alternative)
    ensures UNKNOWN == Expected(input, clues, i)
  {
    var inverse := if v == EMPTY then FILLED else EMPTY;
    PinCell(line, clues, alternative, i, inverse);
    Disagreeing(input, clues, sample, alternative, i);
  }

  /** After demotion against a second legal placement, every UNKNOWN
      sample cell is still one that is forced neither way. */
  lemma Demoted(input: seq<Cell>, clues: seq<nat>, sample: seq<nat>, alternative: seq<nat>,
                before: seq<Cell>, after: seq<Cell>)
    requires Legal(input, clues, sample) && Legal(input, clues, alternative)
    requires |before| == |after| == |input|
    requires forall k :: 0 <= k < |before| ==> before[k] == UNKNOWN || before[k] == CellOf(clues, sample, k)
    requires forall k :: 0 <= k < |before| && before[k] == UNKNOWN ==>
      !Forced(input, clues, k, FILLED) && !Forced(input, clues, k, EMPTY)
    requires forall k :: 0 <= k < |after| ==>
      after[k] == if CellOf(clues, alternative, k) != before[k] then UNKNOWN else before[k]
    ensures forall k :: 0 <= k < |after| ==> after[k] == UNKNOWN || after[k] == CellOf(clues, sample, k)
    ensures forall k :: 0 <= k < |after| && after[k] == UNKNOWN ==>
      !Forced(input, clues, k, FILLED) && !Forced(input, clues, k, EMPTY)
  {
    forall k | 0 <= k < |after| && after[k] == UNKNOWN
      ensures !Forced(input, clues, k, FILLED) && !Forced(input, clues, k, EMPTY)
    {
      if before[k] != UNKNOWN {
        Disagreeing(input, clues, sample, alternative, k);
      }
    }
  }

  /** `solve_line(line, clues).map(collect)`: nothing when the line has no
      legal placement, otherwise the solved line. */
  method SolveLine(input: seq<Cell>, clues: seq<nat>) returns (r: Option<seq<Cell>>)
    requires forall k :: 0 <= k < |clues| ==> clues[k] > 0
    ensures r.None? <==> forall q :: !Legal(input, clues, q)
    ensures r.Some? ==> r.value == Solved(input, clues)
  {
    var first := FirstPlacement(input, clues);
    if first.None? {
      return None;
    }
    var solver := new LineSolver(input, clues, first.value);
    var out: seq<Cell> := [];
    while true
      invariant solver.Valid() && solver.input == input && solver.clues == clues
      invariant solver.index == |out| <= |input|
      invariant forall k :: 0 <= k < |out| ==> out[k] == Expected(input, clues, k)
      decreases |input| - solver.index
    {
      var c := solver.Next();
      if c.None? {
        SolvedCells(input, clues, out);
        return Some(out);
      }
      out := out + [c.value];
    }
  }
}
