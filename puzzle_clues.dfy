/** The clue set of a puzzle and its loader (src/data/clues.rs). The text is
    taken as a sequence of lines that have already been split at '\n' and
    decoded; each line is trimmed and blank lines are dropped. A "rows"
    header, one line of space-separated numbers per row, a "cols" header and
    one line per column follow. */
module PuzzleClues {
  import opened Wrappers

  /** One line's run lengths; each value is a u16. */
  type CluesLine = seq<nat>

  const U16_LIMIT: nat := 0x1_0000

  datatype Clues = Clues(rows: seq<CluesLine>, cols: seq<CluesLine>)

  datatype LoadError =
    | HeaderError   // the "parse error" of a misplaced header or data line
    | NumberError   // a token that is not a u16

  /** The characters Rust's `str::trim` removes (Unicode White_Space). */
  predicate IsWhitespace(c: char)
  {
    ('\U{0009}' <= c <= '\U{000D}') || c == '\U{0020}' || c == '\U{0085}' || c == '\U{00A0}'
    || c == '\U{1680}' || ('\U{2000}' <= c <= '\U{200A}') || c == '\U{2028}' || c == '\U{2029}'
    || c == '\U{202F}' || c == '\U{205F}' || c == '\U{3000}'
  }

  function TrimStart(s: string): (r: string)
    ensures |r| <= |s| && r == s[|s| - |r|..]
    ensures r == [] || !IsWhitespace(r[0])
    ensures forall i :: 0 <= i < |s| - |r| ==> IsWhitespace(s[i])
  {
    if s != [] && IsWhitespace(s[0]) then
      var r := TrimStart(s[1..]);
      assert forall i :: 1 <= i < |s| - |r| ==> s[i] == s[1..][i - 1];
      r
    else s
  }

  function TrimEnd(s: string): (r: string)
    ensures |r| <= |s| && r == s[..|r|]
    ensures r == [] || !IsWhitespace(r[|r| - 1])
    ensures forall i :: |r| <= i < |s| ==> IsWhitespace(s[i])
  {
    if s != [] && IsWhitespace(s[|s| - 1]) then TrimEnd(s[..|s| - 1]) else s
  }

  /** `trim`: the line without leading and trailing whitespace. */
  function Trim(s: string): (r: string)
    ensures r == [] || (!IsWhitespace(r[0]) && !IsWhitespace(r[|r| - 1]))
    ensures exists a, b ::
      && 0 <= a <= b <= |s| && r == s[a..b]
      && (forall i :: 0 <= i < a ==> IsWhitespace(s[i]))
      && (forall i :: b <= i < |s| ==> IsWhitespace(s[i]))
  {
    var t := TrimStart(s);
    var r := TrimEnd(t);
    TrimSpan(s, t, r);
    r
  }

  /** Trimming the end of the trimmed start leaves a slice of the line with
      only whitespace around it. */
  lemma TrimSpan(s: string, t: string, r: string)
    requires |t| <= |s| && t == s[|s| - |t|..]
    requires t == [] || !IsWhitespace(t[0])
    requires forall i :: 0 <= i < |s| - |t| ==> IsWhitespace(s[i])
    requires |r| <= |t| && r == t[..|r|]
    requires r == [] || !IsWhitespace(r[|r| - 1])
    requires forall i :: |r| <= i < |t| ==> IsWhitespace(t[i])
    ensures r == [] || (!IsWhitespace(r[0]) && !IsWhitespace(r[|r| - 1]))
    ensures exists a, b ::
      && 0 <= a <= b <= |s| && r == s[a..b]
      && (forall i :: 0 <= i < a ==> IsWhitespace(s[i]))
      && (forall i :: b <= i < |s| ==> IsWhitespace(s[i]))
  {
    var a := |s| - |t|;
    var b := a + |r|;
    assert r == [] || r[0] == t[0];
    forall i | b <= i < |s|
      ensures IsWhitespace(s[i])
    {
      assert s[i] == t[i - a];
    }
    assert r == s[a..b];
  }

  /** The content lines: every line trimmed, blank ones dropped, order kept. */
  function ContentLines(lines: seq<string>): (r: seq<string>)
    ensures forall k :: 0 <= k < |r| ==> r[k] != ""
    ensures |r| <= |lines|
  {
    if lines == [] then []
    else
      var t := Trim(lines[0]);
      if t == "" then ContentLines(lines[1..]) else [t] + ContentLines(lines[1..])
  }

  /** `line.split(" ")`: the pieces between single spaces; two spaces in a
      row give an empty piece. */
  function SplitSpaces(s: string): (r: seq<string>)
    ensures |r| >= 1
    ensures forall k :: 0 <= k < |r| ==> ' ' !in r[k]
  {
    if ' ' !in s then [s]
    else
      var i := FirstSpace(s);
      [s[..i]] + SplitSpaces(s[i + 1..])
  }

  function FirstSpace(s: string): (i: nat)
    requires ' ' in s
    ensures i < |s| && s[i] == ' ' && ' ' !in s[..i]
  {
    if s[0] == ' ' then 0
    else
      var i := FirstSpace(s[1..]);
      assert s[1..][..i] == s[1..i + 1];
      i + 1
  }

  function DigitsValue(s: string): nat
    requires forall k :: 0 <= k < |s| ==> '0' <= s[k] <= '9'
  {
    if s == [] then 0 else DigitsValue(s[..|s| - 1]) * 10 + (s[|s| - 1] as nat - '0' as nat)
  }

  /** `parse::<u16>()`: an optional '+', then one or more decimal digits,
      with a value below 65536. */
  function ParseU16(token: string): (r: Option<nat>)
    ensures r.Some? ==> r.value < U16_LIMIT
    ensures r.Some? ==> token != [] && token != "+"
    ensures r.Some? ==> forall k :: 0 <= k < |token| ==> ('0' <= token[k] <= '9') || (k == 0 && token[k] == '+')
  {
    var digits := if token != [] && token[0] == '+' then token[1..] else token;
    if digits == [] then None
    else if exists k :: 0 <= k < |digits| && !('0' <= digits[k] <= '9') then None
    else
      var v := DigitsValue(digits);
      if v < U16_LIMIT then
        assert forall k :: 0 < k < |token| && token[0] == '+' ==> token[k] == digits[k - 1];
        Some(v)
      else None
  }

  predicate AllTokensParse(tokens: seq<string>)
  {
    forall k :: 0 <= k < |tokens| ==> ParseU16(tokens[k]).Some?
  }

  /** The clue list of one data line; None when some token is not a u16. */
  function ParseCluesLine(line: string): (r: Option<CluesLine>)
    ensures r.Some? <==> AllTokensParse(SplitSpaces(line))
    ensures r.Some? ==>
      && |r.value| == |SplitSpaces(line)|
      && forall k :: 0 <= k < |r.value| ==> Some(r.value[k]) == ParseU16(SplitSpaces(line)[k])
  {
    if AllTokensParse(SplitSpaces(line)) then
      var tokens := SplitSpaces(line);
      Some(seq(|tokens|, k requires 0 <= k < |tokens| => ParseU16(tokens[k]).value))
    else None
  }

  /** Whether content line i is a header or data line that the loader rejects
      as out of place: a data line before "rows", "rows" anywhere but first,
      "cols" first or a second "cols". */
  ghost predicate BadHeaderAt(content: seq<string>, i: nat)
    requires i < |content|
  {
    if i == 0 then content[0] != "rows"
    else content[i] == "rows" || (content[i] == "cols" && "cols" in content[1..i])
  }

  ghost predicate IsHeader(line: string)
  {
    line == "rows" || line == "cols"
  }

  /** Whether content line i is a data line with a token that is not a u16. */
  ghost predicate BadNumberAt(content: seq<string>, i: nat)
    requires i < |content|
  {
    i > 0 && !IsHeader(content[i]) && ParseCluesLine(content[i]).None?
  }

  ghost predicate BadAt(content: seq<string>, i: nat)
    requires i < |content|
  {
    BadHeaderAt(content, i) || BadNumberAt(content, i)
  }

  /** Index of the "cols" header after the first line, or the end. */
  ghost function ColsIndex(content: seq<string>): (j: nat)
    ensures 1 <= j || content == []
    ensures j <= |content|
    ensures content != [] ==> "cols" !in content[1..j]
    ensures forall k :: 1 <= k < j ==> content[k] != "cols"
    ensures j < |content| ==> content[j] == "cols"
  {
    if |content| <= 1 then |content|
    else if content[|content| - 1] == "cols" && "cols" !in content[1..|content| - 1] then |content| - 1
    else
      var j := ColsIndex(content[..|content| - 1]);
      assert content[..|content| - 1][1..j] == content[1..j];
      if j < |content| - 1 then j
      else
        assert content[1..|content|] == content[1..|content| - 1] + [content[|content| - 1]];
        |content|
  }

  /** The clue lists of a run of data lines that all parse. */
  ghost function ParseAll(lines: seq<string>): (r: seq<CluesLine>)
    requires forall k :: 0 <= k < |lines| ==> ParseCluesLine(lines[k]).Some?
    ensures |r| == |lines|
    ensures forall k :: 0 <= k < |lines| ==> Some(r[k]) == ParseCluesLine(lines[k])
  {
    seq(|lines|, k requires 0 <= k < |lines| => ParseCluesLine(lines[k]).value)
  }

  /** No content line before index i is rejected. */
  ghost predicate NoBadBefore(content: seq<string>, i: nat)
    requires i <= |content|
  {
    forall k :: 0 <= k < i ==> !BadAt(content, k)
  }

  /** The outcome the loader promises for the content lines: success exactly
      when no line is rejected, then the lines between the headers parsed in
      order; otherwise the kind of error of the first rejected line. */
  ghost predicate LoadedFrom(content: seq<string>, r: Result<Clues, LoadError>)
  {
    && (r.Ok? <==> NoBadBefore(content, |content|))
    && (r.Err? ==> exists i ::
         && 0 <= i < |content| && BadAt(content, i) && NoBadBefore(content, i)
         && (r.error == HeaderError <==> BadHeaderAt(content, i)))
    && (r.Ok? && content == [] ==> r.value == Clues([], []))
    && (r.Ok? && content != [] ==>
         var j := ColsIndex(content);
         && (forall k :: 1 <= k < |content| && k != j ==> ParseCluesLine(content[k]).Some?)
         && r.value.rows == ParseAll(content[1..j])
         && r.value.cols == (if j < |content| then ParseAll(content[j + 1..]) else []))
  }

  /** `Clues::load` over already-split lines. */
  method Load(lines: seq<string>) returns (r: Result<Clues, LoadError>)
    ensures LoadedFrom(ContentLines(lines), r)
  {
    r := LoadContent(ContentLines(lines));
  }

  /** The header-and-data loop of `Clues::load`, over the content lines. */
  method LoadContent(content: seq<string>) returns (r: Result<Clues, LoadError>)
    ensures LoadedFrom(content, r)
  {
    var mode: Mode := NoMode;
    var rows: seq<CluesLine> := [];
    var cols: seq<CluesLine> := [];
    var i := 0;
    while i < |content|
      invariant 0 <= i <= |content|
      invariant LoadedUpTo(content, i, mode, rows, cols)
    {
      var line := content[i];
      if line == "rows" {
        if mode != NoMode {
          RejectHeader(content, i, mode, rows, cols);
          return Err(HeaderError);
        }
        AcceptHeader(content, i, mode, rows, cols, RowsMode);
        mode := RowsMode;
      } else if line == "cols" {
        if mode != RowsMode {
          RejectHeader(content, i, mode, rows, cols);
          return Err(HeaderError);
        }
        AcceptHeader(content, i, mode, rows, cols, ColsMode);
        mode := ColsMode;
      } else {
        if mode == NoMode {
          RejectHeader(content, i, mode, rows, cols);
          return Err(HeaderError);
        }
        var clues := ParseCluesLine(line);
        if clues.None? {
          RejectNumber(content, i, mode, rows, cols);
          return Err(NumberError);
        }
        if mode == RowsMode {
          AcceptData(content, i, mode, rows, cols, rows + [clues.value], cols);
          rows := rows + [clues.value];
        } else {
          AcceptData(content, i, mode, rows, cols, rows, cols + [clues.value]);
          cols := cols + [clues.value];
        }
      }
      i := i + 1;
    }
    LoadedAll(content, mode, rows, cols);
    r := Ok(Clues(rows, cols));
  }

  /** The loader's state after the first i content lines, none rejected:
      the mode those lines leave, and the data lines before and after the
      "cols" header parsed in order. */
  ghost predicate LoadedUpTo(content: seq<string>, i: nat, mode: Mode, rows: seq<CluesLine>, cols: seq<CluesLine>)
    requires i <= |content|
  {
    var j := ColsIndex(content);
    && NoBadBefore(content, i)
    && mode == (if i == 0 then NoMode else if j < i then ColsMode else RowsMode)
    && (forall k :: 1 <= k < i && k != j ==> ParseCluesLine(content[k]).Some?)
    && (i > 0 ==> rows == ParseAll(content[1..if i < j then i else j]))
    && (i > 0 ==> cols == (if i <= j + 1 then [] else ParseAll(content[j + 1..i])))
    && (i == 0 ==> rows == [] && cols == [])
  }

  /** A header out of place, or a data line before "rows", is a header error. */
  lemma RejectHeader(content: seq<string>, i: nat, mode: Mode, rows: seq<CluesLine>, cols: seq<CluesLine>)
    requires i < |content| && LoadedUpTo(content, i, mode, rows, cols)
    requires
      || (content[i] == "rows" && mode != NoMode)
      || (content[i] == "cols" && mode != RowsMode)
      || (!IsHeader(content[i]) && mode == NoMode)
    ensures LoadedFrom(content, Err(HeaderError))
  {
    if i > 0 {
      ColsIndexMode(content, i);
    }
    RejectedAt(content, i, HeaderError);
  }

  /** A data line in place whose tokens do not all parse is a number error. */
  lemma RejectNumber(content: seq<string>, i: nat, mode: Mode, rows: seq<CluesLine>, cols: seq<CluesLine>)
    requires i < |content| && LoadedUpTo(content, i, mode, rows, cols)
    requires !IsHeader(content[i]) && mode != NoMode && ParseCluesLine(content[i]).None?
    ensures LoadedFrom(content, Err(NumberError))
  {
    RejectedAt(content, i, NumberError);
  }

  /** A header in its place moves the loader on to the next mode. */
  lemma AcceptHeader(content: seq<string>, i: nat, mode: Mode, rows: seq<CluesLine>, cols: seq<CluesLine>, mode': Mode)
    requires i < |content| && LoadedUpTo(content, i, mode, rows, cols)
    requires
      || (content[i] == "rows" && mode == NoMode && mode' == RowsMode)
      || (content[i] == "cols" && mode == RowsMode && mode' == ColsMode)
    ensures LoadedUpTo(content, i + 1, mode', rows, cols)
  {
    var j := ColsIndex(content);
    if i > 0 {
      ColsIndexMode(content, i);
      assert j == i;
    }
  }

  /** A data line in place that parses joins the rows or the columns. */
  lemma AcceptData(content: seq<string>, i: nat, mode: Mode, rows: seq<CluesLine>, cols: seq<CluesLine>,
                   rows': seq<CluesLine>, cols': seq<CluesLine>)
    requires i < |content| && LoadedUpTo(content, i, mode, rows, cols)
    requires !IsHeader(content[i]) && mode != NoMode && ParseCluesLine(content[i]).Some?
    requires mode == RowsMode ==> rows' == rows + [ParseCluesLine(content[i]).value] && cols' == cols
    requires mode == ColsMode ==> cols' == cols + [ParseCluesLine(content[i]).value] && rows' == rows
    ensures LoadedUpTo(content, i + 1, mode, rows', cols')
  {
    var j := ColsIndex(content);
    ColsIndexMode(content, i);
    if mode == RowsMode {
      ParseAllExtend(content, 1, i);
    } else {
      ParseAllExtend(content, j + 1, i);
    }
  }

  /** Every content line read, none rejected: the load succeeds with what
      was read. */
  lemma LoadedAll(content: seq<string>, mode: Mode, rows: seq<CluesLine>, cols: seq<CluesLine>)
    requires LoadedUpTo(content, |content|, mode, rows, cols)
    ensures LoadedFrom(content, Ok(Clues(rows, cols)))
  {
  }

  /** A load that stops at the first rejected line meets LoadedFrom. */
  lemma RejectedAt(content: seq<string>, i: nat, e: LoadError)
    requires i < |content| && BadAt(content, i) && NoBadBefore(content, i)
    requires e == HeaderError <==> BadHeaderAt(content, i)
    ensures LoadedFrom(content, Err(e))
  {
    assert !NoBadBefore(content, |content|);
  }

  lemma ColsIndexMode(content: seq<string>, i: nat)
    requires 1 <= i <= |content|
    ensures ("cols" in content[1..i]) <==> ColsIndex(content) < i
  {
    var j := ColsIndex(content);
    if j < i {
      assert content[1..i][j - 1] == content[j];
    } else {
      assert content[1..i] == content[1..j][..i - 1];
    }
  }

  lemma ParseAllExtend(content: seq<string>, a: nat, i: nat)
    requires 1 <= a <= i < |content|
    requires forall k :: a <= k <= i ==> ParseCluesLine(content[k]).Some?
    ensures ParseAll(content[a..i + 1]) == ParseAll(content[a..i]) + [ParseCluesLine(content[i]).value]
  {
    assert content[a..i + 1] == content[a..i] + [content[i]];
  }

  /** The loader's state: before any header, reading rows, reading columns. */
  datatype Mode = NoMode | RowsMode | ColsMode

  /** `num_rows`, `num_cols`: list lengths, truncated to u16. */
  function NumRows(clues: Clues): (n: nat)
    ensures n < U16_LIMIT
    ensures |clues.rows| < U16_LIMIT ==> n == |clues.rows|
  {
    |clues.rows| % U16_LIMIT
  }

  function NumCols(clues: Clues): (n: nat)
    ensures n < U16_LIMIT
    ensures |clues.cols| < U16_LIMIT ==> n == |clues.cols|
  {
    |clues.cols| % U16_LIMIT
  }

  function Sum(line: CluesLine): nat
  {
    if line == [] then 0 else line[0] + Sum(line[1..])
  }

  /** The total of every value of every list, as `iter().flatten().sum()`. */
  function SumAll(lines: seq<CluesLine>): nat
  {
    if lines == [] then 0 else Sum(lines[0]) + SumAll(lines[1..])
  }

  function RowsSum(clues: Clues): nat
  {
    SumAll(clues.rows)
  }

  function ColsSum(clues: Clues): nat
  {
    SumAll(clues.cols)
  }

  /** `is_consistent`: row and column clues paint the same number of cells. */
  predicate IsConsistent(clues: Clues)
  {
    RowsSum(clues) == ColsSum(clues)
  }
}
