/** The four-valued cell of a nonogram line (src/data/cell.rs). A cell is two
    bits: bit 0 says "may be empty", bit 1 says "may be filled". */
module Cells {

  datatype Cell = Cell(bits: bv2)

  const ERROR: Cell := Cell(0)
  const EMPTY: Cell := Cell(1)
  const FILLED: Cell := Cell(2)
  const UNKNOWN: Cell := Cell(3)

  /** The four constants are all the cells there are. */
  lemma {:induction false} CellCases(c: Cell)
    ensures c == ERROR || c == EMPTY || c == FILLED || c == UNKNOWN
  {
    var b := c.bits;
    if b == 0 {
    } else if b == 1 {
    } else if b == 2 {
    } else {
      assert b == 3;
    }
  }

  predicate IsError(c: Cell)
    ensures IsError(c) <==> c == ERROR
  {
    c.bits == ERROR.bits
  }

  predicate IsEmpty(c: Cell)
    ensures IsEmpty(c) <==> c == EMPTY
  {
    c.bits == EMPTY.bits
  }

  predicate IsFilled(c: Cell)
    ensures IsFilled(c) <==> c == FILLED
  {
    c.bits == FILLED.bits
  }

  predicate IsUnknown(c: Cell)
    ensures IsUnknown(c) <==> c == UNKNOWN
  {
    c.bits == UNKNOWN.bits
  }

  /** Solved means definitely empty or definitely filled. */
  predicate IsSolved(c: Cell)
    ensures IsSolved(c) <==> c == EMPTY || c == FILLED
    ensures IsSolved(c) <==> !IsError(c) && !IsUnknown(c)
  {
    match c.bits
    case 1 => true
    case 2 => true
    case _ => false
  }

  /** A cell can be empty when its "empty" bit is set: EMPTY and UNKNOWN. */
  predicate CanEmpty(c: Cell)
    ensures CanEmpty(c) <==> c == EMPTY || c == UNKNOWN
  {
    c.bits & EMPTY.bits != ERROR.bits
  }

  /** A cell can be filled when its "filled" bit is set: FILLED and UNKNOWN. */
  predicate CanFill(c: Cell)
    ensures CanFill(c) <==> c == FILLED || c == UNKNOWN
  {
    c.bits & FILLED.bits != ERROR.bits
  }

  /** ERROR admits neither value, UNKNOWN admits both, and exactly one of the
      four classification predicates holds of every cell. */
  lemma {:induction false} Capabilities(c: Cell)
    ensures !CanEmpty(ERROR) && !CanFill(ERROR)
    ensures CanEmpty(UNKNOWN) && CanFill(UNKNOWN)
    ensures CanEmpty(c) && CanFill(c) <==> IsUnknown(c)
    ensures !CanEmpty(c) && !CanFill(c) <==> IsError(c)
    ensures (if IsError(c) then 1 else 0) + (if IsEmpty(c) then 1 else 0)
          + (if IsFilled(c) then 1 else 0) + (if IsUnknown(c) then 1 else 0) == 1
  {
    CellCases(c);
  }
}
