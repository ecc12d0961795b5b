/** How far apart the entries of the isolator's queues (dsp/peakfinder.hpp:249-422) are, and how far
    back they reach, on an unbounded clock. The spacing bounds the number of entries; where events
    come from bounds their ages. */
module PeakSpacing {
  import opened RingMath
  import opened PeakTypes
  import opened PeakDetector
  import opened Sequences
  import D = DominantPeaks

  // ----- The spacing of the queue entries, which bounds their number

  ghost predicate MemorySpaced(memory: seq<ValueAtPos>, window: nat) {
    forall i, j :: 0 <= i < j < |memory| ==>
      memory[i].streamPos <= memory[j].streamPos <= memory[i].streamPos + window
      && (1 <= i ==> memory[i].streamPos < memory[j].streamPos)
  }

  ghost predicate RightSpaced(right: seq<RawPeak>, window: nat) {
    D.Ascending(right) && (right != [] ==> Last(right).streamPos - right[0].streamPos < window)
  }

  /** Only a single entry may share the position of what follows it. */
  ghost predicate Before(memory: seq<ValueAtPos>, pos: int) {
    memory != [] ==> Last(memory).streamPos <= pos && (|memory| > 1 ==> Last(memory).streamPos < pos)
  }

  /** As between two flushes. */
  ghost predicate LooselySpaced(q: D.Queues, window: nat) {
    && MemorySpaced(q.memory, window)
    && D.Ascending(q.right)
    && (q.right != [] ==> Before(q.memory, q.right[0].streamPos))
  }

  /** As after every call. */
  ghost predicate Spaced(q: D.Queues, window: nat) {
    LooselySpaced(q, window) && RightSpaced(q.right, window)
  }

  lemma MemoryIsSmall(memory: seq<ValueAtPos>, window: nat)
    requires MemorySpaced(memory, window)
    ensures |memory| <= window + 2
  {
    if |memory| > 2 {
      MemoryGrows(memory, window, |memory| - 1);
      assert memory[0].streamPos <= memory[1].streamPos;
    }
  }

  lemma {:induction false} MemoryGrows(memory: seq<ValueAtPos>, window: nat, j: nat)
    requires MemorySpaced(memory, window) && 1 <= j < |memory|
    ensures memory[1].streamPos + j - 1 <= memory[j].streamPos
  {
    if j > 1 {
      MemoryGrows(memory, window, j - 1);
    }
  }

  lemma {:induction false} RightGrows(right: seq<RawPeak>, j: nat)
    requires D.Ascending(right) && j < |right|
    ensures right[0].streamPos + j <= right[j].streamPos
  {
    if j > 0 {
      RightGrows(right, j - 1);
    }
  }

  lemma RightIsSmall(right: seq<RawPeak>, window: nat)
    requires RightSpaced(right, window)
    ensures |right| <= window
  {
    if right != [] {
      RightGrows(right, |right| - 1);
    }
  }

  // ----- The calls keep the spacing

  lemma {:induction false} DropOldIsSuffix(memory: seq<ValueAtPos>, pos: int, limit: nat) returns (n: nat)
    ensures n <= |memory| && D.DropOld(memory, pos, limit) == memory[n..]
    ensures n < |memory| ==> pos - memory[n].streamPos <= limit
  {
    if memory != [] && pos - memory[0].streamPos > limit {
      var m := DropOldIsSuffix(memory[1..], pos, limit);
      n := m + 1;
    } else {
      n := 0;
    }
  }

  lemma {:induction false} DropSmallerIsPrefix(memory: seq<ValueAtPos>, value: int)
    ensures D.DropSmaller(memory, value) <= memory
  {
    if memory != [] && Last(memory).value < value {
      DropSmallerIsPrefix(DropLast(memory), value);
    }
  }

  lemma {:induction false} DropDominatedIsPrefix(right: seq<RawPeak>, e: RawPeak, window: nat)
    ensures D.DropDominated(right, e, window) <= right
  {
    if right != [] && Last(right).value < e.value && e.streamPos - Last(right).streamPos <= window {
      DropDominatedIsPrefix(DropLast(right), e, window);
    }
  }

  lemma SliceSpaced(memory: seq<ValueAtPos>, window: nat, n: nat, k: nat)
    requires MemorySpaced(memory, window) && n <= k <= |memory|
    ensures MemorySpaced(memory[n..k], window)
  {
    forall i, j | 0 <= i < j < k - n
      ensures memory[n..k][i].streamPos <= memory[n..k][j].streamPos <= memory[n..k][i].streamPos + window
      ensures 1 <= i ==> memory[n..k][i].streamPos < memory[n..k][j].streamPos
    {
      assert memory[n..k][i] == memory[n + i] && memory[n..k][j] == memory[n + j];
    }
  }

  lemma AppendSpaced(kept: seq<ValueAtPos>, m: ValueAtPos, window: nat)
    requires MemorySpaced(kept, window) && Before(kept, m.streamPos)
    requires kept != [] ==> m.streamPos - kept[0].streamPos <= window
    ensures MemorySpaced(kept + [m], window)
  {
    forall i | 0 <= i < |kept| ensures kept[0].streamPos <= kept[i].streamPos <= Last(kept).streamPos {
    }
  }

  /** Remembering p after dropping what it dominates. */
  lemma RememberSpaced(memory: seq<ValueAtPos>, p: RawPeak, window: nat)
    requires MemorySpaced(memory, window) && Before(memory, p.streamPos)
    ensures var memory' := D.LeftDominators(memory, p, window) + [p.AtPos()];
            MemorySpaced(memory', window) && |memory'| <= window + 2
    ensures forall m :: m in D.LeftDominators(memory, p, window) ==> m in memory
  {
    hide D.LeftDominators, MemorySpaced;
    var kept := D.LeftDominators(memory, p, window);
    var n := DominatorsAreSlice(memory, p, window);
    SliceSpaced(memory, window, n, n + |kept|);
    if kept != [] {
      assert kept[0] == memory[n] && Last(kept) == memory[n + |kept| - 1];
      LastIsLast(memory, window, n + |kept| - 1);
    }
    AppendSpaced(kept, p.AtPos(), window);
    MemoryIsSmall(kept + [p.AtPos()], window);
  }

  lemma LastIsLast(memory: seq<ValueAtPos>, window: nat, i: nat)
    requires MemorySpaced(memory, window) && i < |memory|
    ensures memory[i].streamPos <= Last(memory).streamPos
  {
  }

  lemma DominatorsAreSlice(memory: seq<ValueAtPos>, p: RawPeak, window: nat) returns (n: nat)
    ensures var kept := D.LeftDominators(memory, p, window);
            && n + |kept| <= |memory| && kept == memory[n..n + |kept|]
            && (kept != [] ==> p.streamPos - kept[0].streamPos <= window)
    ensures forall m :: m in D.LeftDominators(memory, p, window) ==> m in memory
  {
    n := DropOldIsSuffix(memory, p.streamPos, window);
    DropSmallerIsPrefix(memory[n..], p.value);
  }

  lemma FlushOneSpaced(q: D.Queues, window: nat)
    requires LooselySpaced(q, window) && q.right != []
    ensures var p := q.right[0];
            LooselySpaced(D.Queues(q.right[1..], D.LeftDominators(q.memory, p, window) + [p.AtPos()]), window)
  {
    RememberSpaced(q.memory, q.right[0], window);
  }

  lemma {:induction false} FlushSpaced(q: D.Queues, now: int, window: nat)
    requires LooselySpaced(q, window)
    requires forall e :: e in q.right ==> e.streamPos <= now
    ensures Spaced(D.Flush(q, now, window).0, window)
    decreases |q.right|
  {
    if q.right != [] && now - q.right[0].streamPos >= window {
      var p := q.right[0];
      FlushOneSpaced(q, window);
      FlushSpaced(D.Queues(q.right[1..], D.LeftDominators(q.memory, p, window) + [p.AtPos()]), now, window);
    } else if q.right != [] {
      assert Last(q.right) in q.right;
    }
  }

  lemma EnqueueSpaced(q: D.Queues, e: RawPeak, window: nat)
    requires Spaced(q, window) && Before(q.memory, e.streamPos)
    requires q.right != [] ==> Last(q.right).streamPos < e.streamPos
    ensures LooselySpaced(D.Queues(D.Enqueue(q.right, e, window), q.memory), window)
    ensures |D.DropDominated(q.right, e, window)| <= window
  {
    DropDominatedIsPrefix(q.right, e, window);
    RightIsSmall(q.right, window);
    var kept := D.DropDominated(q.right, e, window);
    forall i | 0 <= i < |kept| ensures kept[i].streamPos < e.streamPos {
      assert kept[i] == q.right[i];
    }
  }

  lemma PurgedSpaced(q: D.Queues, pos: int, window: nat)
    requires Spaced(q, window) && forall m :: m in q.memory ==> m.streamPos <= pos
    ensures LooselySpaced(q.(memory := D.DropAged(q.memory, pos, 3 * window + 1)), window)
    ensures forall m :: m in D.DropAged(q.memory, pos, 3 * window + 1) ==> m in q.memory
  {
    hide D.DropAged, MemorySpaced, D.Ascending;
    var n := D.DropAgedIsSuffix(q.memory, pos, 3 * window + 1);
    SliceSpaced(q.memory, window, n, |q.memory|);
    assert q.memory[n..|q.memory|] == q.memory[n..];
    if n < |q.memory| {
      assert Last(q.memory[n..]) == Last(q.memory);
    }
  }

  // ----- Events never come before what the queues hold, whatever the thresholds

  /** All queue entries precede `bound`; the lockout for the first sample may sit at 0 itself. */
  ghost predicate Behind(q: D.Queues, bound: int) {
    && 0 <= bound
    && (forall e :: e in q.right ==> 0 <= e.streamPos < bound)
    && (|| (forall m :: m in q.memory ==> 0 <= m.streamPos < bound)
        || (bound == 0 && q.right == [] && |q.memory| == 1 && q.memory[0].streamPos == 0))
  }

  /** The earliest clock of an event that may still come. */
  function EarliestEvent(d: DetectorState, n: nat, tooBig: Position): int {
    if 0 < d.plateauSize < tooBig then n - d.plateauSize
    else if n == 0 then 0 else n - 1
  }

  /** What the plateau size says about n samples. */
  ghost predicate PlateauFits(d: DetectorState, n: nat, tooBig: Position) {
    && (0 < d.plateauSize < tooBig ==> d.plateauSize < n)
    && (n == 0 ==> d == START)
  }

  /** The earliest event that may follow e. */
  ghost function BoundAfter(bound: int, e: RawPeak): int {
    if D.Stored(e) then e.streamPos + 1 else if bound < 1 then 1 else bound
  }

  ghost function BoundAfterAll(bound: int, events: seq<RawPeak>): int {
    if events == [] then bound else BoundAfter(BoundAfterAll(bound, DropLast(events)), Last(events))
  }

  ghost predicate Chained(bound: int, events: seq<RawPeak>) {
    events == []
    || (Chained(bound, DropLast(events)) && BoundAfterAll(bound, DropLast(events)) <= Last(events).streamPos
        && (!D.Stored(Last(events)) ==> 1 <= Last(events).streamPos))
  }

  lemma {:induction false} ChainedSplit(bound: int, a: seq<RawPeak>, b: seq<RawPeak>)
    ensures BoundAfterAll(bound, a + b) == BoundAfterAll(BoundAfterAll(bound, a), b)
    ensures Chained(bound, a) && Chained(BoundAfterAll(bound, a), b) ==> Chained(bound, a + b)
    decreases |b|
  {
    if b == [] {
      NothingAfter(a);
    } else {
      ChainedSplit(bound, a, DropLast(b));
      assert DropLast(a + b) == a + DropLast(b) && Last(a + b) == Last(b);
    }
  }

  lemma StepChained(d: DetectorState, x: Value, n: nat, threshold: int, tooBig: Position)
    requires 1 < tooBig < FIRST_SAMPLE && PlateauFits(d, n, tooBig)
    ensures var (d', events) := Step(d, x, n, threshold, tooBig);
            var bound := EarliestEvent(d, n, tooBig);
            && PlateauFits(d', n + 1, tooBig)
            && Chained(bound, events)
            && BoundAfterAll(bound, events) <= EarliestEvent(d', n + 1, tooBig)
            && forall e :: e in events ==> e.streamPos <= n
  {
    var (d', events) := Step(d, x, n, threshold, tooBig);
    var bound := EarliestEvent(d, n, tooBig);
    if |events| == 1 {
      ChainedOne(bound, events[0]);
      assert events == [events[0]];
    } else if |events| == 2 {
      ChainedTwo(bound, events);
    }
  }

  lemma ChainedOne(bound: int, e: RawPeak)
    ensures Chained(bound, [e]) <==> bound <= e.streamPos && (!D.Stored(e) ==> 1 <= e.streamPos)
    ensures BoundAfterAll(bound, [e]) == BoundAfter(bound, e)
  {
    assert DropLast([e]) == [];
  }

  lemma ChainedTwo(bound: int, events: seq<RawPeak>)
    requires |events| == 2 && D.Stored(events[0]) && D.Stored(events[1])
    ensures Chained(bound, events) <==> bound <= events[0].streamPos < events[1].streamPos
    ensures BoundAfterAll(bound, events) == events[1].streamPos + 1
  {
    assert DropLast(events) == [events[0]];
    ChainedOne(bound, events[0]);
  }

  lemma {:induction false} DetectChained(d: DetectorState, data: seq<Value>, n: nat, threshold: int, tooBig: Position)
    requires 1 < tooBig < FIRST_SAMPLE && PlateauFits(d, n, tooBig)
    ensures var (d', events) := Detect(d, data, n, threshold, tooBig);
            var bound := EarliestEvent(d, n, tooBig);
            && PlateauFits(d', n + |data|, tooBig)
            && Chained(bound, events)
            && BoundAfterAll(bound, events) <= EarliestEvent(d', n + |data|, tooBig)
            && forall e :: e in events ==> e.streamPos < n + |data|
    decreases |data|
  {
    hide Detect, Step, EarliestEvent, PlateauFits;
    var bound := EarliestEvent(d, n, tooBig);
    if data == [] {
      DetectNothing(d, n, threshold, tooBig);
    } else {
      hide Chained, BoundAfterAll;
      var (d1, first) := Detect(d, DropLast(data), n, threshold, tooBig);
      DetectChained(d, DropLast(data), n, threshold, tooBig);
      StepAfterChained(d1, Last(data), n + |data| - 1, threshold, tooBig, bound, first);
      DetectLast(d, data, n, threshold, tooBig);
    }
  }

  lemma StepAfterChained(d: DetectorState, x: Value, n: nat, threshold: int, tooBig: Position, bound: int, first: seq<RawPeak>)
    requires 1 < tooBig < FIRST_SAMPLE && PlateauFits(d, n, tooBig)
    requires Chained(bound, first) && BoundAfterAll(bound, first) <= EarliestEvent(d, n, tooBig)
    ensures var (d', more) := Step(d, x, n, threshold, tooBig);
            && PlateauFits(d', n + 1, tooBig)
            && Chained(bound, first + more)
            && BoundAfterAll(bound, first + more) <= EarliestEvent(d', n + 1, tooBig)
            && forall e :: e in more ==> e.streamPos <= n
  {
    StepChained(d, x, n, threshold, tooBig);
    hide Step, EarliestEvent, Chained, BoundAfterAll, PlateauFits;
    var more := Step(d, x, n, threshold, tooBig).1;
    ChainedLater(BoundAfterAll(bound, first), EarliestEvent(d, n, tooBig), more);
    ChainedSplit(bound, first, more);
  }

  /** A chain that fits a later bound fits an earlier one. */
  lemma {:induction false} ChainedLater(bound: int, later: int, events: seq<RawPeak>)
    requires bound <= later && Chained(later, events)
    ensures Chained(bound, events)
    ensures BoundAfterAll(bound, events) <= BoundAfterAll(later, events)
    decreases |events|
  {
    if events != [] {
      ChainedLater(bound, later, DropLast(events));
    }
  }

  // ----- The queues stay behind

  ghost predicate Queued(right: seq<RawPeak>, m: ValueAtPos) {
    exists e :: e in right && m == e.AtPos()
  }

  /** A flush only moves entries from the right queue to the memory. */
  lemma {:induction false} FlushMoves(q: D.Queues, now: int, window: nat)
    ensures var q' := D.Flush(q, now, window).0;
            && (forall e :: e in q'.right ==> e in q.right)
            && (forall m :: m in q'.memory ==> m in q.memory || Queued(q.right, m))
    decreases |q.right|
  {
    if q.right != [] && now - q.right[0].streamPos >= window {
      var p := q.right[0];
      assert q.right == [p] + q.right[1..];
      var kept := D.LeftDominators(q.memory, p, window);
      var n := DominatorsAreSlice(q.memory, p, window);
      FlushMoves(D.Queues(q.right[1..], kept + [p.AtPos()]), now, window);
      forall m | m in kept + [p.AtPos()] || Queued(q.right[1..], m) ensures m in q.memory || Queued(q.right, m) {
        if m == p.AtPos() {
          assert p in q.right;
        }
      }
    }
  }

  lemma FlushBehind(q: D.Queues, now: int, window: nat, bound: int)
    requires Behind(q, bound) && 1 <= bound
    ensures Behind(D.Flush(q, now, window).0, bound)
  {
    FlushMoves(q, now, window);
  }

  /** The memory ends before the right queue begins. */
  lemma MemoryFirst(q: D.Queues, window: nat)
    requires Spaced(q, window) && q.right != []
    ensures forall e :: e in q.right ==> q.right[0].streamPos <= e.streamPos <= Last(q.right).streamPos
    ensures forall m :: m in q.memory ==> m.streamPos <= q.right[0].streamPos
  {
    forall m | m in q.memory ensures m.streamPos <= q.right[0].streamPos {
      var i :| 0 <= i < |q.memory| && q.memory[i] == m;
      LastIsLast(q.memory, window, i);
    }
  }

  ghost predicate Recent(right: seq<RawPeak>, low: int) {
    forall e :: e in right ==> low <= e.streamPos
  }

  /** Spaced, behind the next event, and with nothing pending that is older than `low`. */
  ghost predicate Orderly(q: D.Queues, window: nat, bound: int, low: int) {
    Spaced(q, window) && Behind(q, bound) && Recent(q.right, low)
  }

  lemma BehindEvent(q: D.Queues, e: RawPeak, bound: int)
    requires Behind(q, bound) && bound <= e.streamPos
    ensures Before(q.memory, e.streamPos)
    ensures q.right != [] ==> Last(q.right).streamPos < e.streamPos
    ensures forall x :: x in q.right ==> 0 <= x.streamPos < e.streamPos
    ensures forall m :: m in q.memory ==> 0 <= m.streamPos <= e.streamPos
  {
    if q.right != [] {
      assert Last(q.right) in q.right;
    }
    if q.memory != [] {
      assert Last(q.memory) in q.memory;
    }
  }

  lemma EventKeepsOrder(q: D.Queues, e: RawPeak, window: nat, bound: int, low: int)
    requires Orderly(q, window, bound, low) && bound <= e.streamPos && low <= e.streamPos
    requires !D.Stored(e) ==> 1 <= e.streamPos
    ensures Orderly(D.OnRawPeakEvent(q, e, window).0, window, BoundAfter(bound, e), low)
  {
    hide D.DropDominated, MemorySpaced, D.Ascending, RightSpaced, Behind, D.Enqueue, D.Flush;
    var admitted := D.Queues(D.Enqueue(q.right, e, window), q.memory);
    BehindEvent(q, e, bound);
    EnqueueSpaced(q, e, window);
    EnqueuedBehind(q, e, window, bound);
    FlushMoves(admitted, e.streamPos, window);
    FlushBehind(admitted, e.streamPos, window, BoundAfter(bound, e));
    FlushSpaced(admitted, e.streamPos, window);
  }

  lemma EnqueuedBehind(q: D.Queues, e: RawPeak, window: nat, bound: int)
    requires Behind(q, bound) && bound <= e.streamPos
    requires !D.Stored(e) ==> 1 <= e.streamPos
    ensures forall x :: x in D.Enqueue(q.right, e, window) ==> x in q.right || x == e
    ensures forall x :: x in D.Enqueue(q.right, e, window) ==> x.streamPos <= e.streamPos
    ensures Behind(D.Queues(D.Enqueue(q.right, e, window), q.memory), BoundAfter(bound, e)) && 1 <= BoundAfter(bound, e)
  {
    hide D.DropDominated;
    DropDominatedIsPrefix(q.right, e, window);
  }

  /** What a flush leaves is younger than a window. */
  lemma {:induction false} FlushLeavesYoung(q: D.Queues, now: int, window: nat)
    requires D.Ascending(q.right)
    ensures Recent(D.Flush(q, now, window).0.right, now - window + 1)
    decreases |q.right|
  {
    if q.right != [] && now - q.right[0].streamPos >= window {
      FlushLeavesYoung(D.Queues(q.right[1..], D.LeftDominators(q.memory, q.right[0], window) + [q.right[0].AtPos()]), now, window);
    }
  }

  lemma PurgeKeepsOrder(q: D.Queues, pos: int, window: nat, bound: int)
    requires Spaced(q, window) && Behind(q, bound)
    ensures Orderly(D.PurgeUpUntil(q, pos, window).0, window, bound, pos - window + 1)
  {
    if q.right != [] {
      assert q.right[0] in q.right;
      MemoryFirst(q, window);
      if Last(q.right).streamPos < pos {
        PurgedSpaced(q, pos, window);
        var purged := q.(memory := D.DropAged(q.memory, pos, 3 * window + 1));
        hide D.DropAged, MemorySpaced, D.Flush;
        FlushBehind(purged, pos, window, bound);
        FlushSpaced(purged, pos, window);
        FlushLeavesYoung(purged, pos, window);
      }
    }
  }

  lemma BehindLater(q: D.Queues, bound: int, later: int)
    requires Behind(q, bound) && bound <= later
    ensures Behind(q, later)
  {
  }
}
