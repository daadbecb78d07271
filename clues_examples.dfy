/** The unit tests of src/solver/clues_placer.rs, stated of the list that
    `place_clues(line, clues).collect()` returns: any list that enumerates
    the placements of the line is the one the test expects. */
module CluesPlacingExamples {
  import opened Cells
  import opened Placements
  import opened CluesPlacing

  /** Two lists in strictly increasing lexicographic order that hold the
      same placements are the same list: an enumeration is unique. */
  lemma {:induction false} LexSortedUnique(a: seq<seq<nat>>, b: seq<seq<nat>>)
    requires forall i, j :: 0 <= i < j < |a| ==> LexLess(a[i], a[j])
    requires forall i, j :: 0 <= i < j < |b| ==> LexLess(b[i], b[j])
    requires forall x :: x in a <==> x in b
    ensures a == b
  {
    assert forall i :: 0 <= i < |a| ==> a[i] in b;
    assert forall i :: 0 <= i < |b| ==> b[i] in a;
    if a != [] && b != [] {
      LexSortedHead(a, b[0]);
      LexSortedHead(b, a[0]);
      var x, y := a[0], b[0];
      if x != y {
        assert false;
      }
      forall x
        ensures x in a[1..] <==> x in b[1..]
      {
        LexSortedTail(a, x);
        LexSortedTail(b, x);
      }
      LexSortedUnique(a[1..], b[1..]);
      assert a == [a[0]] + a[1..] && b == [b[0]] + b[1..];
    }
  }

  /** The head of a lexicographically sorted list comes first. */
  lemma LexSortedHead(a: seq<seq<nat>>, x: seq<nat>)
    requires forall i, j :: 0 <= i < j < |a| ==> LexLess(a[i], a[j])
    requires x in a
    ensures a[0] == x || LexLess(a[0], x)
  {
    var i :| 0 <= i < |a| && a[i] == x;
    if i > 0 {
      assert LexLess(a[0], a[i]);
    }
  }

  /** The tail of a lexicographically sorted list holds all but its head. */
  lemma LexSortedTail(a: seq<seq<nat>>, x: seq<nat>)
    requires a != []
    requires forall i, j :: 0 <= i < j < |a| ==> LexLess(a[i], a[j])
    ensures x in a[1..] <==> x in a && x != a[0]
  {
    if x in a[1..] {
      var i :| 0 <= i < |a[1..]| && a[1..][i] == x;
      assert LexLess(a[0], a[i + 1]);
      LexLessIrreflexive(x);
    }
    if x in a && x != a[0] {
      var i :| 0 <= i < |a| && a[i] == x;
      assert a[1..][i - 1] == x;
    }
  }

  /** A legal placement of a single clue: one run, and every cell after
      its separating cell can be empty. */
  lemma LegalSingle(line: seq<Cell>, c: nat, q: seq<nat>)
    ensures Legal(line, [c], q) <==>
      && |q| == 1 && FitsAt(line, 0, c, q[0])
      && forall k :: q[0] + c + 1 <= k < |line| ==> CanEmpty(line[k])
  {
    if q != [] {
      assert PlacedFrom(line, [c], 1, q[0] + c + 1, q[1..]) <==>
        q[1..] == [] && forall k :: q[0] + c + 1 <= k < |line| ==> CanEmpty(line[k]);
    }
  }

  /** A legal placement of two clues, run by run. */
  lemma LegalPair(line: seq<Cell>, c0: nat, c1: nat, q: seq<nat>)
    ensures Legal(line, [c0, c1], q) <==>
      && |q| == 2 && FitsAt(line, 0, c0, q[0]) && FitsAt(line, q[0] + c0 + 1, c1, q[1])
      && forall k :: q[1] + c1 + 1 <= k < |line| ==> CanEmpty(line[k])
  {
    var clues := [c0, c1];
    if q != [] {
      var o1 := q[0] + c0 + 1;
      assert Legal(line, clues, q) <==> FitsAt(line, 0, c0, q[0]) && PlacedFrom(line, clues, 1, o1, q[1..]);
      if |q| >= 2 {
        var o2 := q[1] + c1 + 1;
        assert q[1..][0] == q[1] && q[1..][1..] == q[2..];
        assert PlacedFrom(line, clues, 1, o1, q[1..]) <==>
          FitsAt(line, o1, c1, q[1]) && PlacedFrom(line, clues, 2, o2, q[2..]);
        assert PlacedFrom(line, clues, 2, o2, q[2..]) <==>
          q[2..] == [] && forall k :: o2 <= k < |line| ==> CanEmpty(line[k]);
      } else {
        assert !PlacedFrom(line, clues, 1, o1, q[1..]);
      }
    }
  }

  /** A legal placement of three clues, run by run. */
  lemma LegalTriple(line: seq<Cell>, c0: nat, c1: nat, c2: nat, q: seq<nat>)
    ensures Legal(line, [c0, c1, c2], q) <==>
      && |q| == 3 && FitsAt(line, 0, c0, q[0]) && FitsAt(line, q[0] + c0 + 1, c1, q[1])
      && FitsAt(line, q[1] + c1 + 1, c2, q[2])
      && forall k :: q[2] + c2 + 1 <= k < |line| ==> CanEmpty(line[k])
  {
    var clues := [c0, c1, c2];
    if q != [] {
      var o1 := q[0] + c0 + 1;
      assert Legal(line, clues, q) <==> FitsAt(line, 0, c0, q[0]) && PlacedFrom(line, clues, 1, o1, q[1..]);
      if |q| >= 2 {
        var o2 := q[1] + c1 + 1;
        assert q[1..][0] == q[1] && q[1..][1..] == q[2..];
        assert PlacedFrom(line, clues, 1, o1, q[1..]) <==>
          FitsAt(line, o1, c1, q[1]) && PlacedFrom(line, clues, 2, o2, q[2..]);
        if |q| >= 3 {
          var o3 := q[2] + c2 + 1;
          assert q[2..][0] == q[2] && q[2..][1..] == q[3..];
          assert PlacedFrom(line, clues, 2, o2, q[2..]) <==>
            FitsAt(line, o2, c2, q[2]) && PlacedFrom(line, clues, 3, o3, q[3..]);
          assert PlacedFrom(line, clues, 3, o3, q[3..]) <==>
            q[3..] == [] && forall k :: o3 <= k < |line| ==> CanEmpty(line[k]);
        } else {
          assert !PlacedFrom(line, clues, 2, o2, q[2..]);
        }
      } else {
        assert !PlacedFrom(line, clues, 1, o1, q[1..]);
      }
    }
  }

  /** What a run placed at p says of one cell: empty before it, filled in
      it, empty just after it. */
  lemma FitsAtCell(line: seq<Cell>, o: nat, c: nat, p: nat, k: nat)
    ensures FitsAt(line, o, c, p) && o <= k < p ==> CanEmpty(line[k])
    ensures FitsAt(line, o, c, p) && p <= k < p + c ==> CanFill(line[k])
    ensures FitsAt(line, o, c, p) && k == p + c < |line| ==> CanEmpty(line[k])
  {
  }

  /** " ----" with a run of 3: [1], then [2]. */
  lemma PlaceCluesExample1(placements: seq<seq<nat>>)
    requires EnumeratesPlacements([EMPTY, UNKNOWN, UNKNOWN, UNKNOWN, UNKNOWN], [3], placements)
    ensures placements == [[1], [2]]
  {
    var line := [EMPTY, UNKNOWN, UNKNOWN, UNKNOWN, UNKNOWN];
    forall q
      ensures Legal(line, [3], q) <==> q == [1] || q == [2]
    {
      LegalSingle(line, 3, q);
      if |q| == 1 && q[0] == 0 {
        assert !CanFill(line[0]);
      }
    }
    assert LexLess([1], [2]) by {
      assert [1][..0] == [2][..0];
    }
    LexSortedUnique(placements, [[1], [2]]);
  }

  /** The legal placements of "----- ----" with runs of 3 and 4. */
  lemma LegalExample2(q: seq<nat>)
    ensures Legal([UNKNOWN, UNKNOWN, UNKNOWN, UNKNOWN, UNKNOWN, EMPTY, UNKNOWN, UNKNOWN, UNKNOWN, UNKNOWN], [3, 4], q)
      <==> q == [0, 6] || q == [1, 6] || q == [2, 6]
  {
    var line := [UNKNOWN, UNKNOWN, UNKNOWN, UNKNOWN, UNKNOWN, EMPTY, UNKNOWN, UNKNOWN, UNKNOWN, UNKNOWN];
    LegalPair(line, 3, 4, q);
    if |q| == 2 {
      FitsAtCell(line, q[0] + 4, 4, q[1], 5);
    }
  }

  /** "----- ----" with runs of 3 and 4: [0, 6], [1, 6], then [2, 6]. */
  lemma PlaceCluesExample2(placements: seq<seq<nat>>)
    requires EnumeratesPlacements([UNKNOWN, UNKNOWN, UNKNOWN, UNKNOWN, UNKNOWN, EMPTY, UNKNOWN, UNKNOWN, UNKNOWN, UNKNOWN], [3, 4], placements)
    ensures placements == [[0, 6], [1, 6], [2, 6]]
  {
    forall q {
      LegalExample2(q);
    }
    assert LexLess([0, 6], [1, 6]) by {
      assert [0, 6][..0] == [1, 6][..0];
    }
    assert LexLess([1, 6], [2, 6]) by {
      assert [1, 6][..0] == [2, 6][..0];
    }
    LexLessTransitive([0, 6], [1, 6], [2, 6]);
    LexSortedUnique(placements, [[0, 6], [1, 6], [2, 6]]);
  }

  /** The legal placements of "--- #-----" with runs of 2 and 3. */
  lemma LegalExample3(q: seq<nat>)
    ensures Legal([UNKNOWN, UNKNOWN, UNKNOWN, EMPTY, FILLED, UNKNOWN, UNKNOWN, UNKNOWN, UNKNOWN, UNKNOWN], [2, 3], q)
      <==> q == [0, 4] || q == [1, 4] || q == [4, 7]
  {
    var line := [UNKNOWN, UNKNOWN, UNKNOWN, EMPTY, FILLED, UNKNOWN, UNKNOWN, UNKNOWN, UNKNOWN, UNKNOWN];
    LegalPair(line, 2, 3, q);
    if |q| == 2 {
      FitsAtCell(line, 0, 2, q[0], 3);
      FitsAtCell(line, 0, 2, q[0], 4);
      FitsAtCell(line, q[0] + 3, 3, q[1], 3);
      FitsAtCell(line, q[0] + 3, 3, q[1], 4);
    }
  }

  /** "--- #-----" with runs of 2 and 3: [0, 4], [1, 4], then [4, 7]. */
  lemma PlaceCluesExample3(placements: seq<seq<nat>>)
    requires EnumeratesPlacements([UNKNOWN, UNKNOWN, UNKNOWN, EMPTY, FILLED, UNKNOWN, UNKNOWN, UNKNOWN, UNKNOWN, UNKNOWN], [2, 3], placements)
    ensures placements == [[0, 4], [1, 4], [4, 7]]
  {
    forall q {
      LegalExample3(q);
    }
    assert LexLess([0, 4], [1, 4]) by {
      assert [0, 4][..0] == [1, 4][..0];
    }
    assert LexLess([1, 4], [4, 7]) by {
      assert [1, 4][..0] == [4, 7][..0];
    }
    LexLessTransitive([0, 4], [1, 4], [4, 7]);
    LexSortedUnique(placements, [[0, 4], [1, 4], [4, 7]]);
  }

  /** The one legal placement of "----# ----" with runs of 3 and 4: the
      filled cell belongs to the first run. */
  lemma LegalExample4(q: seq<nat>)
    ensures Legal([UNKNOWN, UNKNOWN, UNKNOWN, UNKNOWN, FILLED, EMPTY, UNKNOWN, UNKNOWN, UNKNOWN, UNKNOWN], [3, 4], q)
      <==> q == [2, 6]
  {
    var line := [UNKNOWN, UNKNOWN, UNKNOWN, UNKNOWN, FILLED, EMPTY, UNKNOWN, UNKNOWN, UNKNOWN, UNKNOWN];
    LegalPair(line, 3, 4, q);
    if |q| == 2 {
      FitsAtCell(line, 0, 3, q[0], 4);
      FitsAtCell(line, 0, 3, q[0], 5);
      FitsAtCell(line, q[0] + 4, 4, q[1], 4);
      FitsAtCell(line, q[0] + 4, 4, q[1], 5);
    }
  }

  /** "----# ----" with runs of 3 and 4: [2, 6] alone. */
  lemma PlaceCluesExample4(placements: seq<seq<nat>>)
    requires EnumeratesPlacements([UNKNOWN, UNKNOWN, UNKNOWN, UNKNOWN, FILLED, EMPTY, UNKNOWN, UNKNOWN, UNKNOWN, UNKNOWN], [3, 4], placements)
    ensures placements == [[2, 6]]
  {
    forall q {
      LegalExample4(q);
    }
    LexSortedUnique(placements, [[2, 6]]);
  }

  /** "-#- -#-" with a run of 3: nothing, since either place leaves a
      filled cell outside the run. */
  lemma PlaceCluesExample5(placements: seq<seq<nat>>)
    requires EnumeratesPlacements([UNKNOWN, FILLED, UNKNOWN, EMPTY, UNKNOWN, FILLED, UNKNOWN], [3], placements)
    ensures placements == []
  {
    var line := [UNKNOWN, FILLED, UNKNOWN, EMPTY, UNKNOWN, FILLED, UNKNOWN];
    assert !CanEmpty(line[5]);
    forall q
      ensures !Legal(line, [3], q)
    {
      LegalSingle(line, 3, q);
      if |q| == 1 {
        FitsAtCell(line, 0, 3, q[0], 1);
        FitsAtCell(line, 0, 3, q[0], 3);
      }
    }
    LexSortedUnique(placements, []);
  }

  /** With no clues, the one placement is the empty one, and it exists
      exactly when every cell can be empty. */
  lemma NoCluesPlacements(line: seq<Cell>, placements: seq<seq<nat>>)
    requires EnumeratesPlacements(line, [], placements)
    ensures (forall k :: 0 <= k < |line| ==> CanEmpty(line[k])) ==> placements == [[]]
    ensures (exists k :: 0 <= k < |line| && !CanEmpty(line[k])) ==> placements == []
  {
    if forall k :: 0 <= k < |line| ==> CanEmpty(line[k]) {
      assert forall q :: Legal(line, [], q) <==> q == [];
      LexSortedUnique(placements, [[]]);
    } else {
      assert forall q :: !Legal(line, [], q);
      LexSortedUnique(placements, []);
    }
  }

  /** "-----" with no clues: the one empty placement. */
  lemma PlaceCluesExample8(placements: seq<seq<nat>>)
    requires EnumeratesPlacements([UNKNOWN, UNKNOWN, UNKNOWN, UNKNOWN, UNKNOWN], [], placements)
    ensures placements == [[]]
  {
    var line := [UNKNOWN, UNKNOWN, UNKNOWN, UNKNOWN, UNKNOWN];
    assert forall q :: Legal(line, [], q) <==> q == [];
    LexSortedUnique(placements, [[]]);
  }

  /** "--#--" with no clues: nothing, since a cell is filled. */
  lemma PlaceCluesExample9(placements: seq<seq<nat>>)
    requires EnumeratesPlacements([UNKNOWN, UNKNOWN, FILLED, UNKNOWN, UNKNOWN], [], placements)
    ensures placements == []
  {
    var line := [UNKNOWN, UNKNOWN, FILLED, UNKNOWN, UNKNOWN];
    assert !CanEmpty(line[2]);
    LexSortedUnique(placements, []);
  }
}
