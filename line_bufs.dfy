/** Owned line buffers (src/data/line_buf.rs). A `LineBuf` owns a vector of
    cells; its Debug output is that of the line it holds. */
module LineBufs {
  import opened Wrappers
  import opened Cells
  import opened Lines
  import Misc

  /** `with_size`: n UNKNOWN cells. */
  function WithSize(n: nat): (buf: seq<Cell>)
    ensures |buf| == n
    ensures forall i :: 0 <= i < n ==> buf[i] == UNKNOWN
  {
    seq(n, _ => UNKNOWN)
  }

  /** The cell a character of the textual form stands for; '!' is read as
      EMPTY, so parsing never produces ERROR. */
  function ParseCell(ch: char): (r: Option<Cell>)
    ensures r.Some? <==> ch in "- #!"
    ensures r.Some? ==> r.value != ERROR
  {
    match ch
    case '-' => Some(UNKNOWN)
    case ' ' => Some(EMPTY)
    case '#' => Some(FILLED)
    case '!' => Some(EMPTY)
    case _ => None
  }

  /** `from_str`: map every character, failing as soon as one is not a cell. */
  function FromStr(source: string): (r: Option<seq<Cell>>)
    ensures r.None? <==> exists i :: 0 <= i < |source| && source[i] !in "- #!"
    ensures r.Some? ==> |r.value| == |source|
    ensures r.Some? ==> forall i :: 0 <= i < |source| ==>
      Some(r.value[i]) == ParseCell(source[i]) && r.value[i] != ERROR
  {
    if source == [] then Some([])
    else
      match ParseCell(source[0])
      case None => None
      case Some(c) =>
        match FromStr(source[1..])
        case None =>
          var i :| 0 <= i < |source[1..]| && source[1..][i] !in "- #!";
          assert source[i + 1] !in "- #!";
          None
        case Some(rest) =>
          assert forall i :: 1 <= i < |source| ==> source[i] == source[1..][i - 1];
          Some([c] + rest)
  }

  /** `into_copy_of`: refill the buffer with exactly the given cells. */
  method IntoCopyOf(buf: seq<Cell>, cells: seq<Cell>) returns (r: seq<Cell>)
    ensures r == cells
  {
    var empty := Misc.IntoDefault(buf);
    r := Misc.IntoExtend(empty, cells);
  }

  /** Printing a parsed buffer gives back its text, for text without '!'. */
  lemma {:induction false} DebugFromStr(source: string)
    requires forall i :: 0 <= i < |source| ==> source[i] in "- #"
    ensures FromStr(source).Some?
    ensures Debug(FromStr(source).value) == "[" + source + "]"
  {
    var cells := FromStr(source).value;
    var s := Debug(cells);
    assert |s| == |source| + 2;
    forall i | 0 <= i < |s| ensures s[i] == ("[" + source + "]")[i] {
      if 0 < i < |s| - 1 {
        var ch := source[i - 1];
        assert ch == '-' || ch == ' ' || ch == '#';
      }
    }
  }

  /** Parsing the Debug text of a line without ERROR gives the line back. */
  lemma {:induction false} FromStrDebug(line: seq<Cell>)
    requires forall i :: 0 <= i < |line| ==> line[i] != ERROR
    ensures FromStr(DebugCells(line)) == Some(line)
  {
    var text := DebugCells(line);
    forall i | 0 <= i < |line| ensures text[i] in "- #!" && ParseCell(text[i]) == Some(line[i]) {
      CellCases(line[i]);
    }
    var r := FromStr(text);
    assert r.Some?;
    assert r.value == line;
  }
}
