/** Read-only views of a line of cells (src/data/line.rs). A line is a slice
    of cells; here it is the sequence of those cells. */
module Lines {
  import opened Cells

  /** Lengths are `LineSize` (u16) values: `len` truncates the slice length. */
  const LINE_SIZE_LIMIT: nat := 0x1_0000

  function Len(line: seq<Cell>): (n: nat)
    ensures n < LINE_SIZE_LIMIT
    ensures |line| < LINE_SIZE_LIMIT ==> n == |line|
  {
    |line| % LINE_SIZE_LIMIT
  }

  /** Short-circuiting scan for an UNKNOWN cell, as `iter().any(is_unknown)`. */
  function AnyUnknown(line: seq<Cell>): bool
  {
    if line == [] then false
    else IsUnknown(line[0]) || AnyUnknown(line[1..])
  }

  lemma {:induction false} AnyUnknownFinds(line: seq<Cell>)
    ensures AnyUnknown(line) <==> exists k :: 0 <= k < |line| && line[k] == UNKNOWN
  {
    if line != [] {
      AnyUnknownFinds(line[1..]);
      if AnyUnknown(line[1..]) {
        var k :| 0 <= k < |line[1..]| && line[1..][k] == UNKNOWN;
        assert line[k + 1] == UNKNOWN;
      }
      if exists k :: 0 <= k < |line| && line[k] == UNKNOWN {
        var k :| 0 <= k < |line| && line[k] == UNKNOWN;
        if k > 0 {
          assert line[1..][k - 1] == UNKNOWN;
        }
      }
    }
  }

  /** A line is solved when no cell is UNKNOWN (an ERROR cell does not stop it). */
  function IsSolved(line: seq<Cell>): (r: bool)
    ensures r <==> forall k :: 0 <= k < |line| ==> line[k] != UNKNOWN
  {
    AnyUnknownFinds(line);
    !AnyUnknown(line)
  }

  /** `line[a..b]`: the sub-view of the cells from a up to b. */
  function Range(line: seq<Cell>, a: nat, b: nat): (r: seq<Cell>)
    requires a <= b <= |line|
    ensures |r| == b - a
    ensures forall i :: 0 <= i < b - a ==> r[i] == line[a + i]
  {
    line[a..b]
  }

  /** `line[s..]`: the sub-view from s to the end. */
  function RangeFrom(line: seq<Cell>, s: nat): (r: seq<Cell>)
    requires s <= |line|
    ensures |r| == |line| - s
    ensures forall i :: 0 <= i < |line| - s ==> r[i] == line[s + i]
  {
    line[s..]
  }

  /** `line[..e]`: the sub-view of the first e cells. */
  function RangeTo(line: seq<Cell>, e: nat): (r: seq<Cell>)
    requires e <= |line|
    ensures |r| == e
    ensures forall i :: 0 <= i < e ==> r[i] == line[i]
  {
    line[..e]
  }

  /** `line[i] = c` through `IndexMut`: the slice is written in place at
      cell i and nowhere else. */
  method SetCell(line: array<Cell>, i: nat, c: Cell)
    requires i < line.Length
    modifies line
    ensures line[..] == old(line[..])[i := c]
    ensures forall k :: 0 <= k < line.Length && k != i ==> line[k] == old(line[k])
  {
    line[i] := c;
  }

  /** The character Debug prints for one cell. */
  function DebugChar(c: Cell): char
  {
    if c == UNKNOWN then '-'
    else if c == EMPTY then ' '
    else if c == FILLED then '#'
    else if c == ERROR then '!'
    else '?'
  }

  function DebugCells(line: seq<Cell>): (s: string)
    ensures |s| == |line|
    ensures forall i :: 0 <= i < |line| ==> s[i] == DebugChar(line[i])
  {
    if line == [] then "" else [DebugChar(line[0])] + DebugCells(line[1..])
  }

  /** Debug rendering: one character per cell, in brackets. No cell prints '?'. */
  function Debug(line: seq<Cell>): (s: string)
    ensures |s| == |line| + 2 && s[0] == '[' && s[|s| - 1] == ']'
    ensures forall i :: 0 <= i < |line| ==> s[i + 1] == DebugChar(line[i]) && s[i + 1] in "- #!"
  {
    forall i | 0 <= i < |line| ensures DebugChar(line[i]) in "- #!" {
      CellCases(line[i]);
    }
    "[" + DebugCells(line) + "]"
  }

  lemma DebugExample()
    ensures Debug([UNKNOWN, EMPTY, FILLED, ERROR]) == "[- #!]"
  {
    var s := Debug([UNKNOWN, EMPTY, FILLED, ERROR]);
    assert s[1] == '-' && s[2] == ' ' && s[3] == '#' && s[4] == '!';
  }
}
