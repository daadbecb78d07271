/** Placement of a single run of filled cells (src/solver/clue_placer.rs).
    A placer walks the start offsets of the run from left to right and yields
    each one at which the run can lie. */
module CluePlacing {
  import opened Wrappers
  import opened Cells

  /** Offset s is a place for a run of `size` cells: the run lies inside the
      line, every cell before it can be empty (no run lies there, so no
      filled cell may be passed over), every cell of the run can be filled,
      and the cell just after it, if any, can be empty. */
  predicate Fits(line: seq<Cell>, size: nat, s: nat)
  {
    && s + size <= |line|
    && (forall k :: 0 <= k < s ==> CanEmpty(line[k]))
    && (forall k :: s <= k < s + size ==> CanFill(line[k]))
    && (s + size == |line| || CanEmpty(line[s + size]))
  }

  /** `iter().skip(s).take(size).all(can_fill)`. */
  predicate AllCanFill(line: seq<Cell>, s: nat, size: nat)
    requires s + size <= |line|
  {
    forall k :: s <= k < s + size ==> CanFill(line[k])
  }

  /** A run never fits past a cell that cannot be empty. */
  lemma {:induction false} FitsBlocked(line: seq<Cell>, size: nat, k: nat, s: nat)
    requires k < s && k < |line| && !CanEmpty(line[k])
    ensures !Fits(line, size, s)
  {
  }

  class CluePlacer {
    const line: seq<Cell>
    const size: nat
    var start: nat

    /** Every cell before the one just ahead of `start` can be empty: the
        placer has only moved over cells that can be empty. */
    predicate Valid()
      reads this
    {
      && start <= |line| + 1
      && forall k :: 0 <= k && k + 1 < start ==> CanEmpty(line[k])
    }

    /** No offset from `start` onwards is a place for the run. */
    ghost predicate Exhausted()
      reads this
    {
      forall s :: start <= s ==> !Fits(line, size, s)
    }

    /** `place_clue` / `CluePlacer::new`: a placer at offset 0. */
    constructor(line: seq<Cell>, size: nat)
      ensures Valid()
      ensures this.line == line && this.size == size && start == 0
    {
      this.line := line;
      this.size := size;
      start := 0;
    }

    /** `next`: the smallest place at or after `start`, after which the
        placer moves one past it; None, with the placer left where it is,
        once no place remains; an exhausted placer stays exhausted. */
    method Next() returns (r: Option<nat>)
      requires Valid()
      modifies this
      ensures Valid()
      ensures r.None? <==> old(Exhausted())
      ensures r.None? ==> Exhausted()
      ensures r.Some? ==>
        && old(start) <= r.value
        && Fits(line, size, r.value)
        && (forall s :: old(start) <= s < r.value ==> !Fits(line, size, s))
        && start == r.value + 1
    {
      while true
        invariant Valid()
        invariant old(start) <= start
        invariant forall s :: old(start) <= s < start ==> !Fits(line, size, s)
        decreases |line| + 1 - start
      {
        if start + size > |line| {
          return None;
        }
        if start != 0 && !CanEmpty(line[start - 1]) {
          forall s | start <= s
            ensures !Fits(line, size, s)
          {
            FitsBlocked(line, size, start - 1, s);
          }
          return None;
        }
        var result :=
          if AllCanFill(line, start, size) && (|line| == start + size || CanEmpty(line[start + size]))
          then Some(start)
          else None;
        start := start + 1;
        if result.Some? {
          assert Fits(line, size, start - 1);
          return result;
        }
      }
    }
  }

  /** The offsets are exactly the places of the run, in increasing order. */
  ghost predicate EnumeratesPlaces(line: seq<Cell>, size: nat, offsets: seq<nat>)
  {
    && (forall i, j :: 0 <= i < j < |offsets| ==> offsets[i] < offsets[j])
    && (forall s :: s in offsets <==> Fits(line, size, s))
  }

  /** `place_clue(line, size).collect()`: every place of the run, in order. */
  method PlaceClue(line: seq<Cell>, size: nat) returns (offsets: seq<nat>)
    ensures EnumeratesPlaces(line, size, offsets)
  {
    var placer := new CluePlacer(line, size);
    offsets := [];
    while true
      invariant placer.Valid() && placer.line == line && placer.size == size
      invariant forall i, j :: 0 <= i < j < |offsets| ==> offsets[i] < offsets[j]
      invariant forall i :: 0 <= i < |offsets| ==> offsets[i] < placer.start
      invariant forall s: nat :: s < placer.start ==> (s in offsets <==> Fits(line, size, s))
      decreases |line| + 1 - placer.start
    {
      var next := placer.Next();
      if next.None? {
        forall s | placer.start <= s
          ensures s !in offsets && !Fits(line, size, s)
        {
        }
        return;
      }
      offsets := offsets + [next.value];
    }
  }

  /** Two increasing sequences holding the same values are equal. */
  lemma {:induction false} IncreasingUnique(a: seq<nat>, b: seq<nat>)
    requires forall i, j :: 0 <= i < j < |a| ==> a[i] < a[j]
    requires forall i, j :: 0 <= i < j < |b| ==> b[i] < b[j]
    requires forall x :: x in a <==> x in b
    ensures a == b
  {
    assert forall i :: 0 <= i < |a| ==> a[i] in b;
    assert forall i :: 0 <= i < |b| ==> b[i] in a;
    if a != [] && b != [] {
      IncreasingHead(a, b[0]);
      IncreasingHead(b, a[0]);
      forall x
        ensures x in a[1..] <==> x in b[1..]
      {
        IncreasingTail(a, x);
        IncreasingTail(b, x);
      }
      IncreasingUnique(a[1..], b[1..]);
      assert a == [a[0]] + a[1..] && b == [b[0]] + b[1..];
    }
  }

  /** The head of an increasing sequence is its least value. */
  lemma IncreasingHead(a: seq<nat>, x: nat)
    requires forall i, j :: 0 <= i < j < |a| ==> a[i] < a[j]
    requires x in a
    ensures a[0] <= x
  {
    var i :| 0 <= i < |a| && a[i] == x;
    if i > 0 {
      assert a[0] < a[i];
    }
  }

  /** The tail of an increasing sequence holds every value but the head. */
  lemma IncreasingTail(a: seq<nat>, x: nat)
    requires a != []
    requires forall i, j :: 0 <= i < j < |a| ==> a[i] < a[j]
    ensures x in a[1..] <==> x in a && x != a[0]
  {
    if x in a[1..] {
      var i :| 0 <= i < |a[1..]| && a[1..][i] == x;
      assert a[0] < a[i + 1];
    }
    if x in a && x != a[0] {
      var i :| 0 <= i < |a| && a[i] == x;
      assert a[1..][i - 1] == x;
    }
  }

  /** " -#---" with a run of 3 gives offsets 1 and 2. */
  lemma PlaceClueExample1(offsets: seq<nat>)
    requires EnumeratesPlaces([EMPTY, UNKNOWN, FILLED, UNKNOWN, UNKNOWN, UNKNOWN], 3, offsets)
    ensures offsets == [1, 2]
  {
    var line := [EMPTY, UNKNOWN, FILLED, UNKNOWN, UNKNOWN, UNKNOWN];
    forall s: nat
      ensures Fits(line, 3, s) <==> s == 1 || s == 2
    {
      if s == 0 {
        assert !CanFill(line[0]);
      } else if s >= 3 {
        FitsBlocked(line, 3, 2, s);
      }
    }
    IncreasingUnique(offsets, [1, 2]);
  }

  /** "--- -#----" with a run of 2 gives offsets 0, 1, 4 and 5. */
  lemma PlaceClueExample2(offsets: seq<nat>)
    requires EnumeratesPlaces([UNKNOWN, UNKNOWN, UNKNOWN, EMPTY, UNKNOWN, FILLED, UNKNOWN, UNKNOWN, UNKNOWN, UNKNOWN], 2, offsets)
    ensures offsets == [0, 1, 4, 5]
  {
    var line := [UNKNOWN, UNKNOWN, UNKNOWN, EMPTY, UNKNOWN, FILLED, UNKNOWN, UNKNOWN, UNKNOWN, UNKNOWN];
    forall s: nat
      ensures Fits(line, 2, s) <==> s == 0 || s == 1 || s == 4 || s == 5
    {
      if s == 2 || s == 3 {
        assert !CanFill(line[3]);
      } else if s >= 6 {
        FitsBlocked(line, 2, 5, s);
      }
    }
    IncreasingUnique(offsets, [0, 1, 4, 5]);
  }
}
