/** Placement of all the runs of a line (src/solver/clues_placer.rs): a
    depth-first search over a stack of frames, one per clue, each driving a
    single-run placer over the rest of the line, with a table of
    (clue, offset) pairs known to lead nowhere. */
module CluesPlacing {
  import opened Cells
  import opened CluePlacing
  import opened Placements
  import opened PlacementSearch
  import opened SearchMeasure
  import Grids
  import opened Wrappers

  /** The table of (clue index, cell offset) pairs from which no placement
      of the remaining clues exists, stored flat, one row per clue. */
  class Cache {
    var lineSize: nat
    var data: array<bool>

    /** `Cache::new`: an empty table sized for the clues and the line. */
    constructor(numClues: nat, lineSize: nat)
      ensures this.lineSize == lineSize && data.Length == numClues * lineSize
      ensures fresh(data) && forall i :: 0 <= i < data.Length ==> !data[i]
    {
      this.lineSize := lineSize;
      data := new bool[numClues * lineSize](_ => false);
    }

    /** `into_new`: the table cleared and resized for another line. */
    method IntoNew(numClues: nat, lineSize: nat)
      modifies this
      ensures this.lineSize == lineSize && data.Length == numClues * lineSize
      ensures fresh(data) && forall i :: 0 <= i < data.Length ==> !data[i]
    {
      this.lineSize := lineSize;
      data := new bool[numClues * lineSize](_ => false);
    }

    function Index(clueIndex: nat, cellIndex: nat): nat
      reads this
    {
      clueIndex * lineSize + cellIndex
    }

    /** `is_bad`: the entry for the pair (out of range is a panic). */
    function IsBad(clueIndex: nat, cellIndex: nat): bool
      reads this, data
      requires Index(clueIndex, cellIndex) < data.Length
    {
      data[Index(clueIndex, cellIndex)]
    }

    /** `mark_bad`: sets the entry for the pair and no other. */
    method MarkBad(clueIndex: nat, cellIndex: nat)
      requires Index(clueIndex, cellIndex) < data.Length
      modifies data
      ensures data[..] == old(data[..])[Index(clueIndex, cellIndex) := true]
    {
      data[Index(clueIndex, cellIndex)] := true;
    }
  }

  /** Every entry marked bad is a pair from which nothing can be placed. */
  ghost predicate CacheSound(line: seq<Cell>, clues: seq<nat>, data: seq<bool>)
  {
    forall d, o :: 0 <= d < |clues| && 0 <= o < |line| && d * |line| + o < |data| && data[d * |line| + o]
      ==> NoPlacementFrom(line, clues, d, o)
  }

  /** A stack frame: the offset its clue is searched from, the clue's
      placer, the position last taken and whether any full placement has
      gone through this frame. */
  datatype Frame = Frame(offset: nat, placer: CluePlacer, position: nat, found: bool)

  /** What the search invariant sees of a frame. */
  function ViewOf(f: Frame): FrameView
    reads f.placer
  {
    FrameView(f.offset, f.placer.start, f.position, f.found)
  }

  class CluesPlacer {
    const line: seq<Cell>
    const clues: seq<nat>
    const cache: Cache
    var stack: seq<Frame>
    var started: bool
    /** The stack seen as values, one view per frame. */
    ghost var views: seq<FrameView>
    /** The placements returned so far. */
    ghost var emitted: seq<seq<nat>>
    ghost var Repr: set<object>

    /** The frame's placer walks the rest of the line for clue i. */
    ghost predicate FrameOk(placer: CluePlacer, offset: nat, i: nat)
      reads placer
    {
      && placer.Valid()
      && offset <= |line| && i < |clues|
      && placer.line == line[offset..] && placer.size == clues[i]
    }

    /** The heap shape of the placer, at every point of a step. */
    ghost predicate Shell()
      reads this, Repr
    {
      && this in Repr && cache in Repr && cache.data in Repr
      && (forall i :: 0 <= i < |stack| ==> stack[i].placer in Repr)
      && (forall i, j :: 0 <= i < j < |stack| ==> stack[i].placer != stack[j].placer)
      && (forall i :: 0 <= i < |stack| ==> FrameOk(stack[i].placer, stack[i].offset, i))
      && |views| == |stack|
      && (forall i :: 0 <= i < |stack| ==> views[i] == ViewOf(stack[i]))
      && cache.lineSize == |line| && cache.data.Length == |clues| * |line|
      && (forall k :: 0 <= k < |clues| ==> clues[k] > 0)
      && CacheSound(line, clues, cache.data[..])
    }

    /** Between calls: before the first call nothing is on the stack and
        nothing has been returned; afterwards the search invariant holds. */
    ghost predicate Valid()
      reads this, Repr
    {
      && Shell()
      && (!started ==> stack == [] && emitted == [])
      && (started ==> Inv(line, clues, views, emitted, false))
    }

    /** `CluesPlacer::new`. */
    constructor(line: seq<Cell>, clues: seq<nat>)
      requires forall k :: 0 <= k < |clues| ==> clues[k] > 0
      ensures Valid() && fresh(Repr)
      ensures this.line == line && this.clues == clues
      ensures !started && stack == [] && emitted == []
    {
      this.line := line;
      this.clues := clues;
      var c := new Cache(|clues|, |line|);
      cache := c;
      stack := [];
      started := false;
      views := [];
      emitted := [];
      Repr := {this, c, c.data};
    }

    /** `current`: the position of every frame, bottom first. */
    function Current(): (c: seq<nat>)
      reads this
      ensures |c| == |stack|
      ensures forall i :: 0 <= i < |stack| ==> c[i] == stack[i].position
    {
      var st := stack;
      seq(|st|, i requires 0 <= i < |st| => st[i].position)
    }

    /** `push`: with every clue placed, succeeds exactly when every cell
        from offset can be empty; otherwise pushes a fresh frame for clue
        `depth` at `offset`, unless its run would overrun the line or the
        pair is marked bad, in which case nothing can be placed from there. */
    method Push(depth: nat, offset: nat) returns (r: bool)
      requires Shell() && depth == |stack| && depth <= |clues|
      modifies this
      ensures Shell() && started == old(started) && emitted == old(emitted)
      ensures fresh(Repr - old(Repr)) && old(Repr) <= Repr
      ensures r ==> depth == |clues| && PlacedFrom(line, clues, depth, offset, [])
      ensures stack == old(stack) || |stack| == depth + 1
      ensures |stack| == depth ==> stack == old(stack) && views == old(views)
      ensures |stack| == depth && !r ==> NoPlacementFrom(line, clues, depth, offset)
      ensures |stack| == depth + 1 ==>
        && !r && depth < |clues| && offset + clues[depth] <= |line|
        && stack[..depth] == old(stack)
        && views == old(views) + [FrameView(offset, 0, 0, false)]
    {
      if |clues| == depth {
        r := forall k :: offset <= k < |line| ==> CanEmpty(line[k]);
        if !r {
          forall q
            ensures !PlacedFrom(line, clues, depth, offset, q)
          {
          }
        }
        return;
      }
      r := false;
      if offset + clues[depth] > |line| {
        Overrun(line, clues, depth, offset);
        return;
      }
      Grids.FlatIndexBound(depth, offset, |clues|, |line|);
      if cache.IsBad(depth, offset) {
        assert cache.data[..][depth * |line| + offset];
        return;
      }
      var p := new CluePlacer(line[offset..], clues[depth]);
      stack := stack + [Frame(offset, p, 0, false)];
      views := views + [FrameView(offset, 0, 0, false)];
      Repr := Repr + {p};
    }

    /** Marks every frame on the stack as having found a placement. */
    method SetFound()
      requires Shell()
      modifies this
      ensures Shell()
      ensures |stack| == |old(stack)|
      ensures forall i :: 0 <= i < |stack| ==> stack[i] == old(stack)[i].(found := true)
      ensures views == AllFound(old(views))
      ensures started == old(started) && emitted == old(emitted) && Repr == old(Repr)
    {
      var i := 0;
      while i < |stack|
        invariant 0 <= i <= |stack| == |old(stack)| == |views|
        invariant forall k :: 0 <= k < i ==> stack[k] == old(stack)[k].(found := true)
        invariant forall k :: i <= k < |stack| ==> stack[k] == old(stack)[k]
        invariant forall k :: 0 <= k < i ==> views[k] == old(views)[k].(found := true)
        invariant forall k :: i <= k < |stack| ==> views[k] == old(views)[k]
        invariant started == old(started) && emitted == old(emitted) && Repr == old(Repr)
      {
        stack := stack[i := stack[i].(found := true)];
        views := views[i := views[i].(found := true)];
        i := i + 1;
      }
    }

    /** The stack holds a legal placement that comes after every placement
        returned before (`before`) and before every legal placement not yet
        returned, and it has been recorded as returned. */
    ghost predicate Returned(before: seq<seq<nat>>)
      reads this
    {
      && |Current()| == |clues|
      && Legal(line, clues, Current())
      && emitted == before + [Current()]
      && (forall e :: e in before ==> LexLess(e, Current()))
      && (forall q :: Legal(line, clues, q) ==> q in emitted || LexLess(Current(), q))
    }

    /** `advance`: moves to the next placement in lexicographic order.
        On success the stack holds a legal placement that comes after every
        placement returned before it and before every legal placement not
        yet returned; on failure every legal placement has been returned. */
    method Advance() returns (r: bool)
      requires Valid()
      modifies Repr
      ensures Valid() && started
      ensures fresh(Repr - old(Repr))
      ensures EmittedOk(line, clues, emitted)
      ensures r ==>
        && |Current()| == |clues|
        && Legal(line, clues, Current())
        && emitted == old(emitted) + [Current()]
        && (forall e :: e in old(emitted) ==> LexLess(e, Current()))
        && (forall q :: Legal(line, clues, q) ==> q in emitted || LexLess(Current(), q))
      ensures !r ==>
        && emitted == old(emitted)
        && (forall q :: Legal(line, clues, q) ==> q in emitted)
    {
      if !started {
        r := Begin();
        if r {
          return;
        }
      }
      while true
        invariant Valid() && started
        invariant emitted == old(emitted)
        invariant fresh(Repr - old(Repr))
        decreases Key(views, |clues|, |line| + 2)
      {
        if stack == [] {
          return false;
        }
        r := Step();
        if r {
          return;
        }
      }
    }

    /** The first call: the search starts from clue 0 at offset 0. */
    method Begin() returns (r: bool)
      requires Valid() && !started
      modifies this
      ensures Valid() && started && fresh(Repr - old(Repr))
      ensures r ==> Returned(old(emitted))
      ensures !r ==> emitted == old(emitted)
    {
      started := true;
      Start(line, clues);
      var done := Push(0, 0);
      if done {
        Emit(line, clues, [], emitted);
        emitted := emitted + [Current()];
        return true;
      }
      if stack == [] {
        Dead(line, clues, [], emitted);
      } else {
        PushFresh(line, clues, [], emitted);
      }
      r := false;
    }

    /** One turn of the loop of `advance`: pop the top frame and move its
        placer on; if it is exhausted, leave it popped (marking its pair bad
        when no placement went through it), otherwise put it back at the new
        position and push the next clue. */
    method Step() returns (r: bool)
      requires Valid() && started && stack != []
      modifies Repr
      ensures Valid() && started && fresh(Repr - old(Repr))
      ensures r ==> Returned(old(emitted))
      ensures !r ==> emitted == old(emitted)
      ensures !r ==> Key(views, |clues|, |line| + 2) < Key(old(views), |clues|, |line| + 2)
    {
      ghost var V := views;
      var j := |stack| - 1;
      var frame := Pop();
      var next := Move(frame);
      if next.None? {
        Retire(V, frame);
        return false;
      }
      var position := next.value + frame.offset;
      Replace(V, frame, position);
      r := Resume(V, position);
    }

    /** The rest of a step whose top frame, popped, is exhausted: leave it
        off the stack and, if no placement went through it, mark its pair
        bad. */
    method Retire(ghost V: seq<FrameView>, frame: Frame)
      requires Shell() && started && Inv(line, clues, V, emitted, false)
      requires V != [] && views == V[..|V| - 1]
      requires frame.offset == V[|V| - 1].offset && frame.found == V[|V| - 1].found
      requires NoFitFrom(line, V[|V| - 1].offset, clues[|V| - 1], V[|V| - 1].offset + V[|V| - 1].start)
      modifies cache.data
      ensures Valid() && started
      ensures Key(views, |clues|, |line| + 2) < Key(V, |clues|, |line| + 2)
    {
      TurnBack(line, clues, V, emitted);
      if !frame.found {
        MarkDead(|stack|, frame.offset);
      }
    }

    /** The rest of a step once the top frame is back on the stack at its
        new position p: push the next clue, and either return the
        placement completed or leave the search one step on. */
    method Resume(ghost V: seq<FrameView>, p: nat) returns (r: bool)
      requires Shell() && started && Inv(line, clues, V, emitted, false)
      requires MovesTo(line, clues, V, p) && views == Moved(V, p)
      modifies this
      ensures Valid() && started && fresh(Repr - old(Repr))
      ensures r ==> Returned(old(emitted))
      ensures !r ==> emitted == old(emitted)
      ensures !r ==> Key(views, |clues|, |line| + 2) < Key(V, |clues|, |line| + 2)
    {
      var j := |stack| - 1;
      r := Push(j + 1, p + clues[j] + 1);
      if r {
        Finish(V, p);
        return;
      }
      if |stack| == j + 2 {
        CarryPush(V, p);
      } else {
        CarryDead(V, p);
      }
    }

    /** The next clue was pushed after the top frame: the search invariant
        holds again and the measure has dropped. */
    lemma {:induction false} CarryPush(V: seq<FrameView>, p: nat)
      requires Inv(line, clues, V, emitted, false) && MovesTo(line, clues, V, p)
      requires |V| < |clues| && p + clues[|V| - 1] + 1 + clues[|V|] <= |line|
      requires views == Moved(V, p) + [FrameView(p + clues[|V| - 1] + 1, 0, 0, false)]
      ensures Inv(line, clues, views, emitted, false)
      ensures Key(views, |clues|, |line| + 2) < Key(V, |clues|, |line| + 2)
    {
      TurnPush(line, clues, V, emitted, p, views);
    }

    /** Nothing can be placed after the top frame: the placer is valid
        again and the measure has dropped. */
    lemma CarryDead(V: seq<FrameView>, p: nat)
      requires Shell() && started && Inv(line, clues, V, emitted, false) && MovesTo(line, clues, V, p)
      requires NoPlacementFrom(line, clues, |V|, p + clues[|V| - 1] + 1) && views == Moved(V, p)
      ensures Valid()
      ensures Key(views, |clues|, |line| + 2) < Key(V, |clues|, |line| + 2)
    {
      TurnDead(line, clues, V, emitted, p);
    }

    /** A placement is complete: mark every frame found and return it. */
    method Finish(ghost V: seq<FrameView>, p: nat)
      requires Shell() && started && Inv(line, clues, V, emitted, false)
      requires MovesTo(line, clues, V, p) && views == Moved(V, p) && |V| == |clues|
      requires PlacedFrom(line, clues, |V|, p + clues[|V| - 1] + 1, [])
      modifies this
      ensures Valid() && started && Repr == old(Repr)
      ensures Returned(old(emitted))
    {
      TurnDone(line, clues, V, emitted, p);
      SetFound();
      assert Current() == Positions(Moved(V, p));
      emitted := emitted + [Current()];
    }

    /** Takes the top frame off the stack. */
    method Pop() returns (frame: Frame)
      requires Shell() && stack != []
      modifies this
      ensures Shell() && started == old(started) && emitted == old(emitted) && Repr == old(Repr)
      ensures stack == old(stack[..|stack| - 1]) && views == old(views[..|views| - 1])
      ensures frame == old(stack[|stack| - 1]) && ViewOf(frame) == old(views[|views| - 1])
      ensures FrameOk(frame.placer, frame.offset, |stack|) && frame.placer in Repr
      ensures forall i :: 0 <= i < |stack| ==> stack[i].placer != frame.placer
    {
      var j := |stack| - 1;
      frame := stack[j];
      stack := stack[..j];
      views := views[..j];
    }

    /** Puts a popped frame back on the stack at its new position p. */
    method Replace(ghost V: seq<FrameView>, frame: Frame, p: nat)
      requires Shell() && FrameOk(frame.placer, frame.offset, |stack|) && frame.placer in Repr
      requires forall i :: 0 <= i < |stack| ==> stack[i].placer != frame.placer
      requires |V| == |stack| + 1 && views == V[..|stack|]
      requires frame.offset == V[|stack|].offset && frame.found == V[|stack|].found
      requires p >= frame.offset && frame.placer.start == p - frame.offset + 1
      modifies this
      ensures Shell() && started == old(started) && emitted == old(emitted) && Repr == old(Repr)
      ensures stack == old(stack) + [frame.(position := p)] && views == Moved(V, p)
    {
      stack := stack + [frame.(position := p)];
      views := views + [ViewOf(frame.(position := p))];
    }

    /** Moves the placer of a popped frame on to its next place: the next
        place of its run in the line at or after where the placer stood, if
        there is one. */
    method Move(frame: Frame) returns (next: Option<nat>)
      requires Shell() && FrameOk(frame.placer, frame.offset, |stack|) && frame.placer in Repr
      requires forall i :: 0 <= i < |stack| ==> stack[i].placer != frame.placer
      modifies frame.placer
      ensures Shell() && FrameOk(frame.placer, frame.offset, |stack|)
      ensures next.None? ==>
        NoFitFrom(line, frame.offset, clues[|stack|], frame.offset + old(frame.placer.start))
      ensures next.Some? ==>
        && old(frame.placer.start) <= next.value
        && FitsAt(line, frame.offset, clues[|stack|], frame.offset + next.value)
        && NoFitBetween(line, frame.offset, clues[|stack|], frame.offset + old(frame.placer.start), frame.offset + next.value)
        && frame.placer.start == next.value + 1
    {
      ghost var s0 := frame.placer.start;
      next := frame.placer.Next();
      if next.None? {
        SuffixExhausted(line, frame.offset, clues[|stack|], s0);
      } else {
        SuffixNext(line, frame.offset, clues[|stack|], s0, next.value);
      }
    }

    /** Marks the pair (d, o), from which nothing can be placed, bad. */
    method MarkDead(d: nat, o: nat)
      requires Shell() && d < |clues| && o <= |line| && NoPlacementFrom(line, clues, d, o)
      requires o < |line|
      modifies cache.data
      ensures Shell()
    {
      Grids.FlatIndexBound(d, o, |clues|, |line|);
      ghost var before := cache.data[..];
      cache.MarkBad(d, o);
      MarkSound(before, cache.data[..], d, o);
    }

    /** Marking a pair from which nothing can be placed keeps the table sound. */
    lemma MarkSound(before: seq<bool>, after: seq<bool>, d: nat, o: nat)
      requires d < |clues| && o < |line| && d * |line| + o < |before|
      requires CacheSound(line, clues, before) && NoPlacementFrom(line, clues, d, o)
      requires after == before[d * |line| + o := true]
      ensures CacheSound(line, clues, after)
    {
      forall d', o' | 0 <= d' < |clues| && 0 <= o' < |line| && d' * |line| + o' < |after| && after[d' * |line| + o']
        ensures NoPlacementFrom(line, clues, d', o')
      {
        if d' * |line| + o' == d * |line| + o {
          Grids.FlatIndexInjective(d', o', d, o, |line|);
        } else {
          assert before[d' * |line| + o'];
        }
      }
    }
  }

  /** No place for a run of c cells lies at or after lo, searching from o. */
  ghost predicate NoFitFrom(line: seq<Cell>, o: nat, c: nat, lo: nat)
  {
    forall p :: p >= lo ==> !FitsAt(line, o, c, p)
  }

  /** No place for a run of c cells lies in [lo, hi), searching from o. */
  ghost predicate NoFitBetween(line: seq<Cell>, o: nat, c: nat, lo: nat, hi: nat)
  {
    forall p :: lo <= p < hi ==> !FitsAt(line, o, c, p)
  }

  /** What an exhausted placer on the rest of the line says about the line. */
  lemma SuffixExhausted(line: seq<Cell>, o: nat, c: nat, s0: nat)
    requires o <= |line| && forall s :: s0 <= s ==> !Fits(line[o..], c, s)
    ensures NoFitFrom(line, o, c, o + s0)
  {
    forall p | p >= o + s0
      ensures !FitsAt(line, o, c, p)
    {
      FitsAtSuffix(line, o, c, p);
    }
  }

  /** What a place yielded by a placer on the rest of the line says about
      the line. */
  lemma SuffixNext(line: seq<Cell>, o: nat, c: nat, s0: nat, s: nat)
    requires o <= |line| && s0 <= s && Fits(line[o..], c, s)
    requires forall t :: s0 <= t < s ==> !Fits(line[o..], c, t)
    ensures FitsAt(line, o, c, o + s)
    ensures NoFitBetween(line, o, c, o + s0, o + s)
  {
    FitsAtSuffix(line, o, c, o + s);
    forall p | o + s0 <= p < o + s
      ensures !FitsAt(line, o, c, p)
    {
      FitsAtSuffix(line, o, c, p);
    }
  }

  /** p is the next place of the top frame's run after where its placer
      stands. */
  ghost predicate MovesTo(line: seq<Cell>, clues: seq<nat>, V: seq<FrameView>, p: nat)
  {
    && V != [] && |V| <= |clues|
    && p >= V[|V| - 1].offset + V[|V| - 1].start
    && FitsAt(line, V[|V| - 1].offset, clues[|V| - 1], p)
    && NoFitBetween(line, V[|V| - 1].offset, clues[|V| - 1], V[|V| - 1].offset + V[|V| - 1].start, p)
  }

  /** The top frame is exhausted and popped: the invariant holds of the rest,
      the measure drops, and without a placement through the frame its pair
      leads nowhere. */
  lemma TurnBack(line: seq<Cell>, clues: seq<nat>, V: seq<FrameView>, emitted: seq<seq<nat>>)
    requires Inv(line, clues, V, emitted, false) && V != []
    requires NoFitFrom(line, V[|V| - 1].offset, clues[|V| - 1], V[|V| - 1].offset + V[|V| - 1].start)
    ensures Inv(line, clues, V[..|V| - 1], emitted, false)
    ensures Key(V[..|V| - 1], |clues|, |line| + 2) < Key(V, |clues|, |line| + 2)
    ensures |V| <= |clues| && V[|V| - 1].offset + clues[|V| - 1] <= |line|
    ensures !V[|V| - 1].found ==> NoPlacementFrom(line, clues, |V| - 1, V[|V| - 1].offset)
  {
    var j := |V| - 1;
    assert InLine(line, clues, V, j);
    Exhaust(line, clues, V, emitted, j);
    KeyPop(V, |clues|, |line| + 2);
  }

  /** The top frame moved on to p and completed a placement: it is legal,
      after everything emitted, and before every legal placement not yet
      emitted. */
  lemma TurnDone(line: seq<Cell>, clues: seq<nat>, V: seq<FrameView>, emitted: seq<seq<nat>>, p: nat)
    requires Inv(line, clues, V, emitted, false) && MovesTo(line, clues, V, p) && |V| == |clues|
    requires PlacedFrom(line, clues, |V|, p + clues[|V| - 1] + 1, [])
    ensures Legal(line, clues, Positions(Moved(V, p)))
    ensures forall e :: e in emitted ==> LexLess(e, Positions(Moved(V, p)))
    ensures Inv(line, clues, AllFound(Moved(V, p)), emitted + [Positions(Moved(V, p))], false)
    ensures forall q :: Legal(line, clues, q) ==>
      q in emitted + [Positions(Moved(V, p))] || LexLess(Positions(Moved(V, p)), q)
  {
    var j := |V| - 1;
    StepTop(line, clues, V, emitted, j, p);
    var V1 := Moved(V, p);
    assert Off(clues, V1, |V1|) == p + clues[j] + 1;
    Emit(line, clues, V1, emitted);
  }

  /** The top frame moved on to p and a fresh frame was pushed for the next
      clue. */
  lemma TurnPush(line: seq<Cell>, clues: seq<nat>, V: seq<FrameView>, emitted: seq<seq<nat>>, p: nat, W: seq<FrameView>)
    requires Inv(line, clues, V, emitted, false) && MovesTo(line, clues, V, p)
    requires |V| < |clues| && p + clues[|V| - 1] + 1 + clues[|V|] <= |line|
    requires W == Moved(V, p) + [FrameView(p + clues[|V| - 1] + 1, 0, 0, false)]
    ensures Inv(line, clues, W, emitted, false)
    ensures Key(W, |clues|, |line| + 2) < Key(V, |clues|, |line| + 2)
  {
    var j := |V| - 1;
    var V1 := Moved(V, p);
    var g0 := FrameView(p + clues[j] + 1, 0, 0, false);
    assert W == V1 + [g0];
    assert Inv(line, clues, V1 + [g0], emitted, false) by {
      StepTop(line, clues, V, emitted, j, p);
      assert Off(clues, V1, |V1|) == p + clues[j] + 1;
      PushFresh(line, clues, V1, emitted);
    }
    assert Key(V1 + [g0], |clues|, |line| + 2) < Key(V, |clues|, |line| + 2) by {
      assert InLine(line, clues, V, j);
      assert V1 + [g0] == V[..j] + [V1[j]] + [g0];
      KeyAdvance(V, V1[j], [g0], |clues|, |line| + 2);
    }
  }

  /** The top frame moved on to p and nothing can be placed after it. */
  lemma TurnDead(line: seq<Cell>, clues: seq<nat>, V: seq<FrameView>, emitted: seq<seq<nat>>, p: nat)
    requires Inv(line, clues, V, emitted, false) && MovesTo(line, clues, V, p)
    requires NoPlacementFrom(line, clues, |V|, p + clues[|V| - 1] + 1)
    ensures Inv(line, clues, Moved(V, p), emitted, false)
    ensures Key(Moved(V, p), |clues|, |line| + 2) < Key(V, |clues|, |line| + 2)
  {
    var j := |V| - 1;
    var V1 := Moved(V, p);
    assert Inv(line, clues, V1, emitted, false) by {
      StepTop(line, clues, V, emitted, j, p);
      assert Off(clues, V1, |V1|) == p + clues[j] + 1;
      Dead(line, clues, V1, emitted);
    }
    assert Key(V1, |clues|, |line| + 2) < Key(V, |clues|, |line| + 2) by {
      assert InLine(line, clues, V, j);
      assert V1 == V[..j] + [V1[j]] + [];
      KeyAdvance(V, V1[j], [], |clues|, |line| + 2);
    }
  }

  /** The placements are exactly the legal ones, in strictly increasing
      lexicographic order. */
  ghost predicate EnumeratesPlacements(line: seq<Cell>, clues: seq<nat>, placements: seq<seq<nat>>)
  {
    && (forall a, b :: 0 <= a < b < |placements| ==> LexLess(placements[a], placements[b]))
    && (forall q :: q in placements <==> Legal(line, clues, q))
  }

  /** Every sequence of n offsets each below m. */
  ghost function Candidates(n: nat, m: nat): set<seq<nat>>
  {
    if n == 0 then {[]} else set x, t | 0 <= x < m && t in Candidates(n - 1, m) :: [x] + t
  }

  lemma {:induction false} InCandidates(q: seq<nat>, m: nat)
    requires forall i :: 0 <= i < |q| ==> q[i] < m
    ensures q in Candidates(|q|, m)
  {
    if q != [] {
      InCandidates(q[1..], m);
      assert q == [q[0]] + q[1..];
    }
  }

  /** A legal placement has one offset per clue, each inside the line. */
  lemma {:induction false} PlacedBounded(line: seq<Cell>, clues: seq<nat>, d: nat, o: nat, r: seq<nat>)
    requires d <= |clues| && PlacedFrom(line, clues, d, o, r)
    ensures |r| == |clues| - d && forall i :: 0 <= i < |r| ==> r[i] < |line| + 1
    decreases |clues| - d
  {
    if d < |clues| {
      PlacedBounded(line, clues, d + 1, r[0] + clues[d] + 1, r[1..]);
      assert forall i :: 1 <= i < |r| ==> r[i] == r[1..][i - 1];
    }
  }

  /** Appending a new member of `all` to a list of distinct members keeps
      them distinct and within `all`, so the list never outgrows it. */
  lemma Grow(placements: seq<seq<nat>>, q: seq<nat>, all: set<seq<nat>>)
    requires (set e | e in placements) <= all && |set e | e in placements| == |placements|
    requires q in all && q !in placements
    ensures (set e | e in placements + [q]) <= all
    ensures |set e | e in placements + [q]| == |placements + [q]| <= |all|
  {
    assert (set e | e in placements + [q]) == (set e | e in placements) + {q};
    SubsetCard((set e | e in placements + [q]), all);
  }

  lemma {:induction false} SubsetCard<T>(A: set<T>, B: set<T>)
    requires A <= B
    ensures |A| <= |B|
    decreases A
  {
    if A != {} {
      var x :| x in A;
      SubsetCard(A - {x}, B - {x});
    }
  }

  /** `place_clues(line, clues).collect()`: every legal placement, in
      lexicographic order, one per call of the iterator's `next`. */
  method PlaceClues(line: seq<Cell>, clues: seq<nat>) returns (placements: seq<seq<nat>>)
    requires forall k :: 0 <= k < |clues| ==> clues[k] > 0
    ensures EnumeratesPlacements(line, clues, placements)
  {
    var placer := new CluesPlacer(line, clues);
    placements := [];
    ghost var all := Candidates(|clues|, |line| + 1);
    while true
      invariant placer.Valid() && fresh(placer.Repr)
      invariant placer.line == line && placer.clues == clues
      invariant placements == placer.emitted
      invariant EmittedOk(line, clues, placements)
      invariant (set e | e in placements) <= all
      invariant |set e | e in placements| == |placements|
      decreases |all| - |placements|
    {
      var more := placer.Advance();
      if !more {
        return;
      }
      var q := placer.Current();
      LexLessIrreflexive(q);
      PlacedBounded(line, clues, 0, 0, q);
      InCandidates(q, |line| + 1);
      Grow(placements, q, all);
      placements := placements + [q];
    }
  }
}
