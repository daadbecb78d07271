/** The state of the depth-first search of src/solver/clues_placer.rs, seen
    as values: one FrameView per frame of the stack (its offset, the start of
    its clue placer, its position and its found flag), the placements
    emitted so far, and what each step of the search does to them. */
module PlacementSearch {
  import opened Cells
  import opened Placements

  datatype FrameView = FrameView(offset: nat, start: nat, position: nat, found: bool)

  /** The offset frame i searches from: 0, or one past the cell after the
      run of the frame below. */
  function Off(clues: seq<nat>, V: seq<FrameView>, i: nat): nat
    requires i <= |V| && i <= |clues|
  {
    if i == 0 then 0 else V[i - 1].position + clues[i - 1] + 1
  }

  /** The frame's placer has yielded the frame's position. */
  predicate Advanced(f: FrameView)
  {
    f.start >= 1 && f.position == f.offset + f.start - 1
  }

  /** Frame i holds a place of its run. */
  predicate Settled(line: seq<Cell>, clues: seq<nat>, V: seq<FrameView>, i: nat)
    requires i < |V| && i < |clues|
  {
    Advanced(V[i]) && FitsAt(line, V[i].offset, clues[i], V[i].position)
  }

  function Positions(V: seq<FrameView>): (P: seq<nat>)
    ensures |P| == |V|
    ensures forall i :: 0 <= i < |V| ==> P[i] == V[i].position
  {
    seq(|V|, i requires 0 <= i < |V| => V[i].position)
  }

  /** Frame i searches from where the frame below leaves off. */
  predicate LinkedAt(clues: seq<nat>, V: seq<FrameView>, i: nat)
    requires i < |V| && i < |clues|
  {
    V[i].offset == Off(clues, V, i)
  }

  /** Frame i's run fits in the line from its offset, and its placer is
      at most one past the end of that part of the line. */
  predicate InLine(line: seq<Cell>, clues: seq<nat>, V: seq<FrameView>, i: nat)
    requires i < |V| && i < |clues|
  {
    V[i].offset + clues[i] <= |line| && V[i].start <= |line| - V[i].offset + 1
  }

  /** The shape of the stack: one frame per clue at most, each searching
      from where the one below leaves off, every frame below the top on a
      place of its run, the top one on a place or not yet moved. */
  predicate Chained(line: seq<Cell>, clues: seq<nat>, V: seq<FrameView>)
  {
    && |V| <= |clues|
    && (forall i :: 0 <= i < |V| ==> LinkedAt(clues, V, i))
    && (forall i :: 0 <= i < |V| ==> InLine(line, clues, V, i))
    && (forall i :: 0 <= i < |V| - 1 ==> Settled(line, clues, V, i))
    && (|V| > 0 ==> V[|V| - 1].start == 0 || Settled(line, clues, V, |V| - 1))
  }

  /** q is still ahead of frame j: it agrees with the frames below j and puts
      run j at or after the place frame j's placer has reached. */
  predicate InComponent(V: seq<FrameView>, q: seq<nat>, j: nat)
  {
    j < |V| && j < |q| && q[..j] == Positions(V)[..j] && q[j] >= V[j].offset + V[j].start
  }

  /** q is still to be searched: ahead of some frame, or (in the middle of a
      step, `limbo`) an extension of the positions of the whole stack. */
  ghost predicate Pending(V: seq<FrameView>, q: seq<nat>, limbo: bool)
  {
    || (exists j :: InComponent(V, q, j))
    || (limbo && |V| <= |q| && q[..|V|] == Positions(V))
  }

  /** Every legal placement has been emitted or is still to be searched. */
  ghost predicate Complete(line: seq<Cell>, clues: seq<nat>, V: seq<FrameView>, emitted: seq<seq<nat>>, limbo: bool)
  {
    forall q :: Legal(line, clues, q) ==> q in emitted || Pending(V, q, limbo)
  }

  /** Whatever is still to be searched comes after everything emitted. */
  ghost predicate Before(line: seq<Cell>, clues: seq<nat>, V: seq<FrameView>, emitted: seq<seq<nat>>, limbo: bool)
  {
    forall e, q :: e in emitted && Legal(line, clues, q) && Pending(V, q, limbo) ==> LexLess(e, q)
  }

  /** A frame whose found flag is clear has no emitted placement through it. */
  ghost predicate FoundOk(V: seq<FrameView>, emitted: seq<seq<nat>>)
  {
    forall j, e :: 0 <= j < |V| && e in emitted && j <= |e| && e[..j] == Positions(V)[..j] ==> V[j].found
  }

  /** The emitted placements are legal and in increasing order. */
  predicate EmittedOk(line: seq<Cell>, clues: seq<nat>, emitted: seq<seq<nat>>)
  {
    && (forall e :: e in emitted ==> Legal(line, clues, e))
    && (forall a, b :: 0 <= a < b < |emitted| ==> LexLess(emitted[a], emitted[b]))
  }

  ghost predicate Inv(line: seq<Cell>, clues: seq<nat>, V: seq<FrameView>, emitted: seq<seq<nat>>, limbo: bool)
  {
    && Chained(line, clues, V)
    && (limbo && |V| > 0 ==> Settled(line, clues, V, |V| - 1))
    && Complete(line, clues, V, emitted, limbo)
    && Before(line, clues, V, emitted, limbo)
    && FoundOk(V, emitted)
    && EmittedOk(line, clues, emitted)
  }

  /** No placement of clues d.. exists in the line from o: what a cache
      entry marked bad records. */
  ghost predicate NoPlacementFrom(line: seq<Cell>, clues: seq<nat>, d: nat, o: nat)
    requires d <= |clues|
  {
    forall r :: !PlacedFrom(line, clues, d, o, r)
  }

  /** A placement through the frames below j is legal exactly when the
      rest of it places clues j.. from frame j's offset. */
  lemma {:induction false} ChainLegal(line: seq<Cell>, clues: seq<nat>, V: seq<FrameView>, j: nat, q: seq<nat>)
    requires Chained(line, clues, V)
    requires j <= |V| && (j == |V| && j > 0 ==> Settled(line, clues, V, j - 1))
    requires j <= |q| && q[..j] == Positions(V)[..j]
    ensures Legal(line, clues, q) <==> PlacedFrom(line, clues, j, Off(clues, V, j), q[j..])
    decreases j
  {
    if j > 0 {
      var k := j - 1;
      assert LinkedAt(clues, V, k);
      assert q[..k] == q[..j][..k] && Positions(V)[..k] == Positions(V)[..j][..k];
      ChainLegal(line, clues, V, k, q);
      assert q[k] == q[..j][k];
      assert Settled(line, clues, V, k);
      assert q[k..][1..] == q[j..];
    }
  }

  /** A legal placement through the frames below j puts run j on a place. */
  lemma LegalFits(line: seq<Cell>, clues: seq<nat>, V: seq<FrameView>, j: nat, q: seq<nat>)
    requires Chained(line, clues, V) && j < |V|
    requires Legal(line, clues, q) && j < |q| && q[..j] == Positions(V)[..j]
    ensures FitsAt(line, V[j].offset, clues[j], q[j])
  {
    ChainLegal(line, clues, V, j, q);
    assert LinkedAt(clues, V, j);
    assert q[j..][0] == q[j];
  }

  /** With the top frame exhausted, a legal placement through the frames
      below it is not ahead of any frame. */
  lemma ExhaustedNotPending(line: seq<Cell>, clues: seq<nat>, V: seq<FrameView>, j: nat, q: seq<nat>)
    requires Chained(line, clues, V) && j + 1 == |V|
    requires forall p :: p >= V[j].offset + V[j].start ==> !FitsAt(line, V[j].offset, clues[j], p)
    requires Legal(line, clues, q) && j < |q| && q[..j] == Positions(V)[..j]
    ensures !Pending(V, q, false)
  {
    forall i: nat
      ensures !InComponent(V, q, i)
    {
      if i < j {
        assert q[i] == q[..j][i];
        assert Settled(line, clues, V, i);
      } else if i == j {
        LegalFits(line, clues, V, j, q);
      }
    }
  }

  /** The state right after the search starts: nothing emitted, everything
      still to be searched. */
  lemma Start(line: seq<Cell>, clues: seq<nat>)
    ensures Inv(line, clues, [], [], true)
  {
    assert Positions([]) == [];
  }

  /** A stack frame whose placer is exhausted is dropped; if no placement
      was emitted through it, nothing can be placed from its offset. */
  lemma Exhaust(line: seq<Cell>, clues: seq<nat>, V: seq<FrameView>, emitted: seq<seq<nat>>, j: nat)
    requires Inv(line, clues, V, emitted, false) && j + 1 == |V|
    requires forall p :: p >= V[j].offset + V[j].start ==> !FitsAt(line, V[j].offset, clues[j], p)
    ensures Inv(line, clues, V[..j], emitted, false)
    ensures !V[j].found ==> NoPlacementFrom(line, clues, j, V[j].offset)
  {
    var W := V[..j];
    assert Positions(W) == Positions(V)[..j];
    assert forall i :: 0 <= i <= j ==> Off(clues, W, i) == Off(clues, V, i);
    forall i | 0 <= i < j
      ensures Settled(line, clues, W, i) && LinkedAt(clues, W, i) && InLine(line, clues, W, i)
    {
      assert Settled(line, clues, V, i) && LinkedAt(clues, V, i) && InLine(line, clues, V, i);
    }
    assert Chained(line, clues, W);
    assert LinkedAt(clues, V, j);
    forall q | Legal(line, clues, q) && q !in emitted
      ensures Pending(W, q, false)
    {
      var i: nat :| InComponent(V, q, i);
      if i == j {
        LegalFits(line, clues, V, j, q);
      }
      assert InComponent(W, q, i);
    }
    forall q | Pending(W, q, false)
      ensures Pending(V, q, false)
    {
      var i: nat :| InComponent(W, q, i);
      assert InComponent(V, q, i);
    }
    if !V[j].found {
      forall r
        ensures !PlacedFrom(line, clues, j, V[j].offset, r)
      {
        if PlacedFrom(line, clues, j, V[j].offset, r) {
          var q := Positions(V)[..j] + r;
          assert q[..j] == Positions(V)[..j] && q[j..] == r;
          ChainLegal(line, clues, V, j, q);
          ExhaustedNotPending(line, clues, V, j, q);
        }
      }
    }
  }

  /** The stack after its top frame has moved on to the place p. */
  function Moved(V: seq<FrameView>, p: nat): (r: seq<FrameView>)
    requires V != [] && p >= V[|V| - 1].offset
    ensures |r| == |V| && r[..|V| - 1] == V[..|V| - 1]
    ensures r[|V| - 1] == FrameView(V[|V| - 1].offset, p - V[|V| - 1].offset + 1, p, V[|V| - 1].found)
  {
    V[..|V| - 1] + [FrameView(V[|V| - 1].offset, p - V[|V| - 1].offset + 1, p, V[|V| - 1].found)]
  }

  /** The top frame moves to its next place p: the placements through p are
      now in the middle of being searched (limbo). */
  lemma StepTop(line: seq<Cell>, clues: seq<nat>, V: seq<FrameView>, emitted: seq<seq<nat>>, j: nat, p: nat)
    requires Inv(line, clues, V, emitted, false) && j + 1 == |V|
    requires p >= V[j].offset + V[j].start && FitsAt(line, V[j].offset, clues[j], p)
    requires forall t :: V[j].offset + V[j].start <= t < p ==> !FitsAt(line, V[j].offset, clues[j], t)
    ensures Inv(line, clues, Moved(V, p), emitted, true)
  {
    var W := Moved(V, p);
    assert W == V[..j] + [FrameView(V[j].offset, p - V[j].offset + 1, p, V[j].found)];
    StepTopChained(line, clues, V, emitted, j, p, W);
    StepTopComplete(line, clues, V, emitted, j, p, W);
    forall q | Pending(W, q, true)
      ensures Pending(V, q, false)
    {
      if i: nat :| InComponent(W, q, i) {
        assert InComponent(V, q, i);
      } else {
        assert q[..j] == q[..j + 1][..j];
        assert InComponent(V, q, j);
      }
    }
    forall k, e | 0 <= k < |W| && e in emitted && k <= |e| && e[..k] == Positions(W)[..k]
      ensures W[k].found
    {
      assert Positions(W)[..k] == Positions(V)[..k];
    }
  }

  /** Moving the top frame to a place of its run keeps the stack chained. */
  lemma StepTopChained(line: seq<Cell>, clues: seq<nat>, V: seq<FrameView>, emitted: seq<seq<nat>>, j: nat, p: nat, W: seq<FrameView>)
    requires Inv(line, clues, V, emitted, false) && j + 1 == |V|
    requires p >= V[j].offset + V[j].start && FitsAt(line, V[j].offset, clues[j], p)
    requires W == V[..j] + [FrameView(V[j].offset, p - V[j].offset + 1, p, V[j].found)]
    ensures Chained(line, clues, W) && Settled(line, clues, W, j)
  {
    assert forall i :: 0 <= i <= j ==> Off(clues, W, i) == Off(clues, V, i);
    forall i | 0 <= i < j
      ensures Settled(line, clues, W, i) && LinkedAt(clues, W, i) && InLine(line, clues, W, i)
    {
      assert Settled(line, clues, V, i) && LinkedAt(clues, V, i) && InLine(line, clues, V, i);
    }
    assert LinkedAt(clues, V, j) && InLine(line, clues, V, j);
    assert Settled(line, clues, W, j) && LinkedAt(clues, W, j) && InLine(line, clues, W, j);
  }

  /** Every legal placement not yet emitted is still ahead of a frame, or
      goes through the top frame's new place p. */
  lemma StepTopComplete(line: seq<Cell>, clues: seq<nat>, V: seq<FrameView>, emitted: seq<seq<nat>>, j: nat, p: nat, W: seq<FrameView>)
    requires Inv(line, clues, V, emitted, false) && j + 1 == |V|
    requires p >= V[j].offset + V[j].start
    requires forall t :: V[j].offset + V[j].start <= t < p ==> !FitsAt(line, V[j].offset, clues[j], t)
    requires W == V[..j] + [FrameView(V[j].offset, p - V[j].offset + 1, p, V[j].found)]
    ensures Complete(line, clues, W, emitted, true)
  {
    assert Positions(W)[..j] == Positions(V)[..j];
    forall q | Legal(line, clues, q) && q !in emitted
      ensures Pending(W, q, true)
    {
      var i: nat :| InComponent(V, q, i);
      if i == j {
        ChainLegal(line, clues, V, j, q);
        assert q[j..][0] == q[j];
        assert LinkedAt(clues, V, j);
        if q[j] == p {
          assert q[..j + 1] == Positions(W);
        } else {
          assert InComponent(W, q, j);
        }
      } else {
        assert InComponent(W, q, i);
      }
    }
  }

  /** The placements through the positions of the stack and the cells from
      `Off`: none when nothing can be placed from there. */
  lemma Dead(line: seq<Cell>, clues: seq<nat>, V: seq<FrameView>, emitted: seq<seq<nat>>)
    requires Inv(line, clues, V, emitted, true)
    requires NoPlacementFrom(line, clues, |V|, Off(clues, V, |V|))
    ensures Inv(line, clues, V, emitted, false)
  {
    forall q | Legal(line, clues, q) && q !in emitted
      ensures Pending(V, q, false)
    {
      if |V| <= |q| && q[..|V|] == Positions(V) {
        assert q[..|V|] == Positions(V)[..|V|];
        ChainLegal(line, clues, V, |V|, q);
        assert false;
      }
    }
  }

  /** A run that would overrun the line cannot be placed. */
  lemma Overrun(line: seq<Cell>, clues: seq<nat>, d: nat, o: nat)
    requires d < |clues| && o + clues[d] > |line|
    ensures NoPlacementFrom(line, clues, d, o)
  {
  }

  /** The whole stack is placed and the rest of the line can be empty: its
      positions are the next placement. */
  lemma Emit(line: seq<Cell>, clues: seq<nat>, V: seq<FrameView>, emitted: seq<seq<nat>>)
    requires Inv(line, clues, V, emitted, true) && |V| == |clues|
    requires PlacedFrom(line, clues, |V|, Off(clues, V, |V|), [])
    ensures Legal(line, clues, Positions(V))
    ensures forall e :: e in emitted ==> LexLess(e, Positions(V))
    ensures Inv(line, clues, AllFound(V), emitted + [Positions(V)], false)
    ensures forall q :: Legal(line, clues, q) ==> q in emitted + [Positions(V)] || LexLess(Positions(V), q)
  {
    var P := Positions(V);
    assert P[..|V|] == P && P[|V|..] == [];
    ChainLegal(line, clues, V, |V|, P);
    assert Pending(V, P, true);
    var E := emitted + [P];
    var W := AllFound(V);
    AllFoundSame(line, clues, V);
    EmitFrontier(line, clues, V, emitted);
    forall e, q | e in E && Legal(line, clues, q) && Pending(W, q, false)
      ensures LexLess(e, q)
    {
      var i: nat :| InComponent(W, q, i);
      assert InComponent(V, q, i);
      if e == P {
        AheadOfSettled(line, clues, V, q, i);
      }
    }
    forall a, b | 0 <= a < b < |E|
      ensures LexLess(E[a], E[b])
    {
      if b == |emitted| {
        assert E[a] in emitted;
      }
    }
  }

  /** A placement ahead of some frame of a stack of settled frames comes
      after the stack's positions. */
  lemma AheadOfSettled(line: seq<Cell>, clues: seq<nat>, V: seq<FrameView>, q: seq<nat>, i: nat)
    requires Chained(line, clues, V) && (|V| > 0 ==> Settled(line, clues, V, |V| - 1))
    requires InComponent(V, q, i)
    ensures LexLess(Positions(V), q)
  {
    assert Settled(line, clues, V, i);
    assert q[..i] == Positions(V)[..i] && Positions(V)[i] < q[i];
  }

  /** Setting the found flags changes neither the shape of the stack nor
      what is still to be searched. */
  lemma AllFoundSame(line: seq<Cell>, clues: seq<nat>, V: seq<FrameView>)
    requires Chained(line, clues, V)
    ensures Chained(line, clues, AllFound(V))
    ensures Positions(AllFound(V)) == Positions(V)
    ensures forall q, i :: InComponent(AllFound(V), q, i) <==> InComponent(V, q, i)
    ensures forall i :: 0 <= i < |V| ==> (Settled(line, clues, AllFound(V), i) <==> Settled(line, clues, V, i))
  {
    var W := AllFound(V);
    assert Positions(W) == Positions(V);
    assert forall i :: 0 <= i <= |V| ==> Off(clues, W, i) == Off(clues, V, i);
    forall i | 0 <= i < |V|
      ensures LinkedAt(clues, W, i) && InLine(line, clues, W, i)
      ensures Settled(line, clues, W, i) <==> Settled(line, clues, V, i)
    {
      assert LinkedAt(clues, V, i) && InLine(line, clues, V, i);
    }
  }

  /** After an emission, every legal placement not emitted is ahead of some
      frame, and so after the emitted one. */
  lemma EmitFrontier(line: seq<Cell>, clues: seq<nat>, V: seq<FrameView>, emitted: seq<seq<nat>>)
    requires Chained(line, clues, V) && |V| == |clues|
    requires |V| > 0 ==> Settled(line, clues, V, |V| - 1)
    requires Complete(line, clues, V, emitted, true)
    ensures forall q :: Legal(line, clues, q) && q !in emitted + [Positions(V)] ==>
      (exists i :: InComponent(V, q, i)) && LexLess(Positions(V), q)
  {
    var P := Positions(V);
    forall q | Legal(line, clues, q) && q !in emitted + [P]
      ensures (exists i :: InComponent(V, q, i)) && LexLess(P, q)
    {
      if i: nat :| InComponent(V, q, i) {
        AheadOfSettled(line, clues, V, q, i);
      } else {
        LimboIsWhole(line, clues, V, q);
      }
    }
  }

  /** With one frame per clue, a legal placement through all the stack's
      positions is those positions. */
  lemma LimboIsWhole(line: seq<Cell>, clues: seq<nat>, V: seq<FrameView>, q: seq<nat>)
    requires Legal(line, clues, q) && |V| == |clues|
    requires |V| <= |q| && q[..|V|] == Positions(V)
    ensures q == Positions(V)
  {
    LegalIffArranged(line, clues, q);
    assert q == q[..|V|];
  }

  function AllFound(V: seq<FrameView>): (W: seq<FrameView>)
    ensures |W| == |V|
    ensures forall i :: 0 <= i < |V| ==> W[i] == V[i].(found := true)
  {
    seq(|V|, i requires 0 <= i < |V| => V[i].(found := true))
  }

  /** Frame |V| is pushed, fresh, at the offset after the stack. */
  lemma PushFresh(line: seq<Cell>, clues: seq<nat>, V: seq<FrameView>, emitted: seq<seq<nat>>)
    requires Inv(line, clues, V, emitted, true) && |V| < |clues|
    requires Off(clues, V, |V|) + clues[|V|] <= |line|
    ensures Inv(line, clues, V + [FrameView(Off(clues, V, |V|), 0, 0, false)], emitted, false)
  {
    var d := |V|;
    var o := Off(clues, V, d);
    var W := V + [FrameView(o, 0, 0, false)];
    assert Positions(W)[..d] == Positions(V);
    assert forall i :: 0 <= i <= d ==> Off(clues, W, i) == Off(clues, V, i);
    forall i | 0 <= i < d
      ensures Settled(line, clues, W, i) && LinkedAt(clues, W, i) && InLine(line, clues, W, i)
    {
      assert Settled(line, clues, V, i) && LinkedAt(clues, V, i) && InLine(line, clues, V, i);
    }
    assert LinkedAt(clues, W, d) && InLine(line, clues, W, d);
    assert Chained(line, clues, W);
    forall q | Legal(line, clues, q) && q !in emitted
      ensures Pending(W, q, false)
    {
      if i: nat :| InComponent(V, q, i) {
        assert Positions(W)[..i] == Positions(V)[..i];
        assert InComponent(W, q, i);
      } else {
        assert q[..d] == Positions(V)[..d];
        ChainLegal(line, clues, V, d, q);
        assert InComponent(W, q, d);
      }
    }
    forall q | Pending(W, q, false)
      ensures Pending(V, q, true)
    {
      var i: nat :| InComponent(W, q, i);
      if i < d {
        assert Positions(W)[..i] == Positions(V)[..i];
        assert InComponent(V, q, i);
      } else {
        assert Positions(W)[..d] == Positions(V);
      }
    }
    forall k, e | 0 <= k < |W| && e in emitted && k <= |e| && e[..k] == Positions(W)[..k]
      ensures W[k].found
    {
      if k == d {
        assert Legal(line, clues, e);
        assert |e| == |clues| by {
          LegalIffArranged(line, clues, e);
        }
        assert Pending(V, e, true);
        LexLessIrreflexive(e);
        assert false;
      }
      assert Positions(W)[..k] == Positions(V)[..k];
    }
  }
}

/** A measure that every step of the search decreases: the frames' starts
    read as digits of a number in base W + 1, the deepest frame the least
    significant, each digit counted down from W. */
module SearchMeasure {
  import opened PlacementSearch
  import Grids

  function Pow(b: nat, e: nat): (r: nat)
    ensures b > 0 ==> r > 0
  {
    if e == 0 then 1 else b * Pow(b, e - 1)
  }

  /** The weight of frame f at depth i, in a search of n clues. */
  function Weight(f: FrameView, i: nat, n: nat, W: nat): nat
  {
    (if f.start <= W then W - f.start else 0) * Pow(W + 1, if i < n then n - i else 0)
  }

  function Key(V: seq<FrameView>, n: nat, W: nat): nat
  {
    if V == [] then 0 else Key(V[..|V| - 1], n, W) + Weight(V[|V| - 1], |V| - 1, n, W)
  }

  /** Dropping the top frame lowers the measure. */
  lemma KeyPop(V: seq<FrameView>, n: nat, W: nat)
    requires V != [] && V[|V| - 1].start < W
    ensures Key(V[..|V| - 1], n, W) < Key(V, n, W)
  {
  }

  /** The measure of a stack with one more frame on top. */
  lemma KeyAppend(U: seq<FrameView>, g: FrameView, n: nat, W: nat)
    ensures Key(U + [g], n, W) == Key(U, n, W) + Weight(g, |U|, n, W)
  {
    assert (U + [g])[..|U|] == U;
  }

  /** A frame moved forward by at least one weighs at least one unit of
      its depth less. */
  lemma WeightStep(g: FrameView, f: FrameView, j: nat, n: nat, W: nat)
    requires g.start < f.start < W && j < n
    ensures Weight(f, j, n, W) + Pow(W + 1, n - j) <= Weight(g, j, n, W)
  {
    var X := Pow(W + 1, n - j);
    var a, b := W - f.start, W - g.start;
    assert Weight(f, j, n, W) == a * X && Weight(g, j, n, W) == b * X;
    Grids.MulMonotone(a + 1, b, X);
    assert (a + 1) * X == a * X + X;
  }

  /** A fresh frame one level up weighs less than one unit of the level
      below it. */
  lemma FreshLighter(h: FrameView, j: nat, n: nat, W: nat)
    requires h.start == 0 && j + 1 < n
    ensures Weight(h, j + 1, n, W) < Pow(W + 1, n - j)
  {
    var m := n - j - 1;
    assert n - j == m + 1;
    assert Pow(W + 1, m + 1) == (W + 1) * Pow(W + 1, m);
    assert Weight(h, j + 1, n, W) == W * Pow(W + 1, m);
  }

  /** Moving the top frame forward, and then perhaps pushing a fresh frame
      above it, lowers the measure. */
  lemma KeyAdvance(V: seq<FrameView>, f: FrameView, above: seq<FrameView>, n: nat, W: nat)
    requires V != [] && |V| <= n
    requires V[|V| - 1].start < f.start < W
    requires above == [] || (|above| == 1 && above[0].start == 0 && |V| < n)
    ensures Key(V[..|V| - 1] + [f] + above, n, W) < Key(V, n, W)
  {
    var j := |V| - 1;
    var U := V[..j] + [f];
    assert V == V[..j] + [V[j]];
    KeyAppend(V[..j], V[j], n, W);
    KeyAppend(V[..j], f, n, W);
    WeightStep(V[j], f, j, n, W);
    if above != [] {
      assert U + above == U + [above[0]];
      KeyAppend(U, above[0], n, W);
      FreshLighter(above[0], j, n, W);
    } else {
      assert U + above == U;
    }
  }
}
