/** What a legal placement of a line's clues is. A placement gives, for each
    clue in order, the offset at which its run of filled cells starts. It is
    stated twice: run by run, as the depth-first search builds it, and as a
    whole, by the cells the runs cover. */
module Placements {
  import opened Cells
  import opened CluePlacing

  /** A run of c cells lies at p with no run in the cells from o up to p. */
  predicate FitsAt(line: seq<Cell>, o: nat, c: nat, p: nat)
  {
    && o <= p && p + c <= |line|
    && (forall k :: o <= k < p ==> CanEmpty(line[k]))
    && (forall k :: p <= k < p + c ==> CanFill(line[k]))
    && (p + c == |line| || CanEmpty(line[p + c]))
  }

  /** Placing a run in the rest of the line from o is placing it in the
      line from o: what a placer built on `line[o..]` yields, shifted. */
  lemma FitsAtSuffix(line: seq<Cell>, o: nat, c: nat, p: nat)
    requires o <= |line| && o <= p
    ensures FitsAt(line, o, c, p) <==> Fits(line[o..], c, p - o)
  {
    var sub := line[o..];
    assert forall k :: 0 <= k < |sub| ==> sub[k] == line[o + k];
    if Fits(sub, c, p - o) {
      forall k | o <= k < p
        ensures CanEmpty(line[k])
      {
        assert sub[k - o] == line[k];
      }
      forall k | p <= k < p + c
        ensures CanFill(line[k])
      {
        assert sub[k - o] == line[k];
      }
    }
    if FitsAt(line, o, c, p) {
      forall k | 0 <= k < p - o
        ensures CanEmpty(sub[k])
      {
        assert sub[k] == line[o + k];
      }
      forall k | p - o <= k < p - o + c
        ensures CanFill(sub[k])
      {
        assert sub[k] == line[o + k];
      }
    }
  }

  /** r places clues d.. in the line from offset o: each run fits after the
      previous one and its separating cell, and every cell after the last
      run can be empty. */
  predicate PlacedFrom(line: seq<Cell>, clues: seq<nat>, d: nat, o: nat, r: seq<nat>)
    requires d <= |clues|
    decreases |clues| - d
  {
    if d == |clues| then
      r == [] && forall k :: o <= k < |line| ==> CanEmpty(line[k])
    else
      && r != []
      && FitsAt(line, o, clues[d], r[0])
      && PlacedFrom(line, clues, d + 1, r[0] + clues[d] + 1, r[1..])
  }

  /** q is a legal placement of all the clues of the line. */
  predicate Legal(line: seq<Cell>, clues: seq<nat>, q: seq<nat>)
  {
    PlacedFrom(line, clues, 0, 0, q)
  }

  /** Cell k lies in one of the runs r places for clues d.. */
  predicate CoversFrom(clues: seq<nat>, d: nat, r: seq<nat>, k: nat)
  {
    exists i :: 0 <= i < |r| && d + i < |clues| && r[i] <= k < r[i] + clues[d + i]
  }

  /** r has one run per clue d.., in order from o, inside a line of n
      cells, each separated from the next by at least one cell. */
  predicate SpacedFrom(n: nat, clues: seq<nat>, d: nat, o: nat, r: seq<nat>)
    requires d <= |clues|
  {
    && |r| == |clues| - d
    && (forall i :: 0 <= i < |r| ==> r[i] + clues[d + i] <= n)
    && (|r| > 0 ==> o <= r[0])
    && (forall i :: 0 < i < |r| ==> r[i - 1] + clues[d + i - 1] < r[i])
  }

  /** Every cell from o agrees with r: covered cells can be filled, the
      others can be empty. */
  predicate AgreesFrom(line: seq<Cell>, clues: seq<nat>, d: nat, o: nat, r: seq<nat>)
  {
    forall k :: o <= k < |line| ==>
      if CoversFrom(clues, d, r, k) then CanFill(line[k]) else CanEmpty(line[k])
  }

  /** The whole-line reading of a legal placement. */
  predicate Arranged(line: seq<Cell>, clues: seq<nat>, q: seq<nat>)
  {
    SpacedFrom(|line|, clues, 0, 0, q) && AgreesFrom(line, clues, 0, 0, q)
  }

  /** In spaced runs, each run ends before the next one starts. */
  lemma {:induction false} SpacedOrdered(n: nat, clues: seq<nat>, d: nat, o: nat, r: seq<nat>, i: nat, j: nat)
    requires d <= |clues| && SpacedFrom(n, clues, d, o, r)
    requires i < j < |r|
    ensures r[i] + clues[d + i] < r[j]
    decreases j - i
  {
    if i + 1 < j {
      SpacedOrdered(n, clues, d, o, r, i + 1, j);
    }
  }

  /** Coverage by r is coverage by its first run or by the rest. */
  lemma CoversSplit(clues: seq<nat>, d: nat, r: seq<nat>, k: nat)
    requires r != [] && d < |clues|
    ensures CoversFrom(clues, d, r, k) <==>
      (r[0] <= k < r[0] + clues[d]) || CoversFrom(clues, d + 1, r[1..], k)
  {
    if CoversFrom(clues, d, r, k) {
      var i :| 0 <= i < |r| && d + i < |clues| && r[i] <= k < r[i] + clues[d + i];
      if i > 0 {
        assert r[1..][i - 1] == r[i];
      }
    }
    if CoversFrom(clues, d + 1, r[1..], k) {
      var i :| 0 <= i < |r[1..]| && d + 1 + i < |clues| && r[1..][i] <= k < r[1..][i] + clues[d + 1 + i];
      assert r[i + 1] == r[1..][i];
    }
  }

  /** No cell before the end of the first run, other than those of the
      first run, is covered by spaced runs. */
  lemma CoversHead(n: nat, clues: seq<nat>, d: nat, o: nat, r: seq<nat>, k: nat)
    requires d < |clues| && SpacedFrom(n, clues, d, o, r)
    requires k <= r[0] + clues[d]
    ensures CoversFrom(clues, d, r, k) <==> r[0] <= k < r[0] + clues[d]
  {
    if CoversFrom(clues, d, r, k) {
      var i :| 0 <= i < |r| && d + i < |clues| && r[i] <= k < r[i] + clues[d + i];
      if i > 0 {
        SpacedOrdered(n, clues, d, o, r, 0, i);
      }
    }
  }

  /** The run-by-run and the whole-line definitions agree. */
  lemma {:induction false} PlacedFromIff(line: seq<Cell>, clues: seq<nat>, d: nat, o: nat, r: seq<nat>)
    requires d <= |clues|
    ensures PlacedFrom(line, clues, d, o, r) <==> SpacedFrom(|line|, clues, d, o, r) && AgreesFrom(line, clues, d, o, r)
    decreases |clues| - d
  {
    if d == |clues| {
      assert forall k :: !CoversFrom(clues, d, r, k);
    } else if r == [] {
      assert !SpacedFrom(|line|, clues, d, o, r);
    } else {
      var c := clues[d];
      var p := r[0];
      var rest := r[1..];
      PlacedFromIff(line, clues, d + 1, p + c + 1, rest);
      if PlacedFrom(line, clues, d, o, r) {
        PlacedImpliesArranged(line, clues, d, o, r);
      }
      if SpacedFrom(|line|, clues, d, o, r) && AgreesFrom(line, clues, d, o, r) {
        ArrangedImpliesPlaced(line, clues, d, o, r);
      }
    }
  }

  lemma PlacedImpliesArranged(line: seq<Cell>, clues: seq<nat>, d: nat, o: nat, r: seq<nat>)
    requires d < |clues| && r != []
    requires PlacedFrom(line, clues, d, o, r)
    requires var rest := r[1..]; var e := r[0] + clues[d] + 1;
      SpacedFrom(|line|, clues, d + 1, e, rest) && AgreesFrom(line, clues, d + 1, e, rest)
    ensures SpacedFrom(|line|, clues, d, o, r) && AgreesFrom(line, clues, d, o, r)
  {
    var c := clues[d];
    var p := r[0];
    var rest := r[1..];
    assert forall i :: 0 < i < |r| ==> r[i] == rest[i - 1];
    assert SpacedFrom(|line|, clues, d, o, r);
    forall k | o <= k < |line|
      ensures if CoversFrom(clues, d, r, k) then CanFill(line[k]) else CanEmpty(line[k])
    {
      CoversSplit(clues, d, r, k);
      if k <= p + c {
        CoversHead(|line|, clues, d, o, r, k);
      } else {
        assert CoversFrom(clues, d, r, k) <==> CoversFrom(clues, d + 1, rest, k);
      }
    }
  }

  lemma ArrangedImpliesPlaced(line: seq<Cell>, clues: seq<nat>, d: nat, o: nat, r: seq<nat>)
    requires d < |clues| && r != []
    requires SpacedFrom(|line|, clues, d, o, r) && AgreesFrom(line, clues, d, o, r)
    requires var rest := r[1..]; var e := r[0] + clues[d] + 1;
      SpacedFrom(|line|, clues, d + 1, e, rest) && AgreesFrom(line, clues, d + 1, e, rest) ==>
      PlacedFrom(line, clues, d + 1, e, rest)
    ensures PlacedFrom(line, clues, d, o, r)
  {
    var c := clues[d];
    var p := r[0];
    var rest := r[1..];
    assert forall i :: 0 < i < |r| ==> r[i] == rest[i - 1];
    forall k | o <= k <= p + c && k < |line|
      ensures CoversFrom(clues, d, r, k) <==> p <= k < p + c
    {
      CoversHead(|line|, clues, d, o, r, k);
    }
    assert FitsAt(line, o, c, p);
    assert SpacedFrom(|line|, clues, d + 1, p + c + 1, rest);
    forall k | p + c + 1 <= k < |line|
      ensures if CoversFrom(clues, d + 1, rest, k) then CanFill(line[k]) else CanEmpty(line[k])
    {
      CoversSplit(clues, d, r, k);
    }
  }

  /** A placement is legal exactly when its runs are in order, spaced and
      inside the line, and every cell agrees with whether a run covers it. */
  lemma LegalIffArranged(line: seq<Cell>, clues: seq<nat>, q: seq<nat>)
    ensures Legal(line, clues, q) <==> Arranged(line, clues, q)
  {
    PlacedFromIff(line, clues, 0, 0, q);
  }

  /** Pinning an unknown cell to filled keeps exactly the legal placements
      that cover it; pinning it to empty keeps those that do not. */
  lemma PinCell(line: seq<Cell>, clues: seq<nat>, q: seq<nat>, i: nat, v: Cell)
    requires i < |line| && line[i] == UNKNOWN
    requires v == FILLED || v == EMPTY
    ensures Legal(line[i := v], clues, q) <==>
      Legal(line, clues, q) && (CoversFrom(clues, 0, q, i) <==> v == FILLED)
  {
    LegalIffArranged(line, clues, q);
    LegalIffArranged(line[i := v], clues, q);
    var pinned := line[i := v];
    if Arranged(pinned, clues, q) {
      forall k | 0 <= k < |line|
        ensures if CoversFrom(clues, 0, q, k) then CanFill(line[k]) else CanEmpty(line[k])
      {
        if k == i {
          Capabilities(UNKNOWN);
        }
      }
      assert CanFill(pinned[i]) <==> v == FILLED;
    }
    if Legal(line, clues, q) && (CoversFrom(clues, 0, q, i) <==> v == FILLED) {
      forall k | 0 <= k < |pinned|
        ensures if CoversFrom(clues, 0, q, k) then CanFill(pinned[k]) else CanEmpty(pinned[k])
      {
      }
    }
  }

  /** a comes before b in lexicographic order (used on equal lengths). */
  predicate LexLess(a: seq<nat>, b: seq<nat>)
  {
    exists i :: 0 <= i < |a| && i < |b| && a[..i] == b[..i] && a[i] < b[i]
  }

  lemma LexLessIrreflexive(a: seq<nat>)
    ensures !LexLess(a, a)
  {
  }

  lemma LexLessTransitive(a: seq<nat>, b: seq<nat>, c: seq<nat>)
    requires LexLess(a, b) && LexLess(b, c)
    ensures LexLess(a, c)
  {
    var i :| 0 <= i < |a| && i < |b| && a[..i] == b[..i] && a[i] < b[i];
    var j :| 0 <= j < |b| && j < |c| && b[..j] == c[..j] && b[j] < c[j];
    var m := if i < j then i else j;
    assert a[..m] == b[..m] == c[..m] by {
      assert a[..m] == a[..i][..m] && b[..m] == b[..i][..m];
      assert b[..m] == b[..j][..m] && c[..m] == c[..j][..m];
    }
    if i < j {
      assert b[i] == b[..j][i] == c[..j][i] == c[i];
    } else if j < i {
      assert b[j] == b[..i][j] == a[..i][j] == a[j];
    }
  }

  /** Distinct sequences of equal length are ordered one way or the other. */
  lemma LexTotal(a: seq<nat>, b: seq<nat>)
    requires |a| == |b| && a != b
    ensures LexLess(a, b) || LexLess(b, a)
  {
    var i :| 0 <= i < |a| && a[i] != b[i];
    var m := FirstDifference(a, b, i);
    assert a[m] < b[m] || b[m] < a[m];
  }

  /** The first index at which two equal-length sequences differ. */
  lemma FirstDifference(a: seq<nat>, b: seq<nat>, i: nat) returns (m: nat)
    requires |a| == |b| && i < |a| && a[i] != b[i]
    ensures m <= i && a[..m] == b[..m] && a[m] != b[m]
    decreases i
  {
    if a[..i] == b[..i] {
      m := i;
    } else {
      var j :| 0 <= j < i && a[j] != b[j];
      m := FirstDifference(a, b, j);
    }
  }
}
