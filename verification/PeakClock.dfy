/** Stored positions against an unbounded clock: for streams of up to one turn of the 64-bit
    position and one lockout distance, the peak finder does on its stored positions what it does
    on a clock that never wraps. The explicit purge of the memory (dsp/peakfinder.hpp:328-334)
    alone cannot promise this, since it returns early while nothing is pending. */
module PeakClock {
  import opened RingMath
  import opened PeakTypes
  import opened PeakDetector
  import opened PeakPipeline
  import opened PeakSpacing
  import opened Sequences
  import D = DominantPeaks
  import S = StoredPeaks

  // ----- Stored queues

  /** The stored form of both queues. */
  function Store(origin: int, q: D.Queues): D.Queues {
    D.Queues(StampAll(origin, q.right), StampPlaces(origin, q.memory))
  }

  // ----- Ages

  /** The age that a stored position shows. */
  lemma AgeShown(origin: int, now: int, pos: int)
    ensures S.Age(Wrap(origin + now), Wrap(origin + pos)) == Wrap(now - pos)
  {
    MinusOfWraps(origin + now, origin + pos);
  }

  /** Ages below a turn are shown as they are. */
  lemma AgeIsShown(origin: int, now: int, pos: int)
    requires 0 <= now - pos < RING
    ensures S.Age(Wrap(origin + now), Wrap(origin + pos)) == now - pos
    ensures Wrap(origin + now) == Wrap(origin + pos) <==> now == pos
  {
    AgeShown(origin, now, pos);
    SamePosition(origin + now, origin + pos);
  }

  lemma SamePosition(a: int, b: int)
    requires 0 <= a - b < RING
    ensures Wrap(a) == Wrap(b) <==> a == b
  {
    MinusIsElapsed(a, b);
  }

  // ----- One call

  lemma {:induction false} DropDominatedStored(origin: int, right: seq<RawPeak>, e: RawPeak, window: nat)
    requires forall x :: x in right ==> 0 <= e.streamPos - x.streamPos < RING
    ensures S.DropDominated(StampAll(origin, right), Stamp(origin, e), window) == StampAll(origin, D.DropDominated(right, e, window))
    decreases |right|
  {
    hide Wrap;
    if right != [] {
      assert Last(right) in right;
      AgeIsShown(origin, e.streamPos, Last(right).streamPos);
      StampDropLast(origin, right);
      if Last(right).value < e.value && e.streamPos - Last(right).streamPos <= window {
        DropDominatedStored(origin, DropLast(right), e, window);
      }
    }
  }

  lemma {:induction false} DropOldStored(origin: int, memory: seq<ValueAtPos>, pos: int, limit: nat)
    requires forall m :: m in memory ==> 0 <= pos - m.streamPos < RING
    ensures S.DropOld(StampPlaces(origin, memory), Wrap(origin + pos), limit) == StampPlaces(origin, D.DropOld(memory, pos, limit))
    decreases |memory|
  {
    hide Wrap;
    if memory != [] {
      AgeIsShown(origin, pos, memory[0].streamPos);
      StampPlacesTail(origin, memory);
      if pos - memory[0].streamPos > limit {
        DropOldStored(origin, memory[1..], pos, limit);
      }
    }
  }

  lemma {:induction false} DropAgedStored(origin: int, memory: seq<ValueAtPos>, pos: int, limit: nat)
    ensures S.DropOld(StampPlaces(origin, memory), Wrap(origin + pos), limit) == StampPlaces(origin, D.DropAged(memory, pos, limit))
    decreases |memory|
  {
    hide Wrap;
    if memory != [] {
      AgeShown(origin, pos, memory[0].streamPos);
      StampPlacesTail(origin, memory);
      if Wrap(pos - memory[0].streamPos) > limit {
        DropAgedStored(origin, memory[1..], pos, limit);
      }
    }
  }

  lemma {:induction false} DropSmallerStored(origin: int, memory: seq<ValueAtPos>, value: int)
    ensures D.DropSmaller(StampPlaces(origin, memory), value) == StampPlaces(origin, D.DropSmaller(memory, value))
    decreases |memory|
  {
    hide Wrap;
    if memory != [] {
      StampPlacesDropLast(origin, memory);
      if Last(memory).value < value {
        DropSmallerStored(origin, DropLast(memory), value);
      }
    }
  }

  lemma LeftDominatorsStored(origin: int, memory: seq<ValueAtPos>, p: RawPeak, window: nat)
    requires forall m :: m in memory ==> 0 <= p.streamPos - m.streamPos < RING
    ensures S.LeftDominators(StampPlaces(origin, memory), Stamp(origin, p), window)
         == StampPlaces(origin, D.LeftDominators(memory, p, window))
  {
    hide Wrap, D.DropSmaller, D.DropOld, S.DropOld;
    DropOldStored(origin, memory, p.streamPos, window);
    DropSmallerStored(origin, D.DropOld(memory, p.streamPos, window), p.value);
  }

  /** No pending entry is a turn old at `now`, and none of the memory when its turn to judge comes. */
  ghost predicate WithinTurn(q: D.Queues, now: int, window: nat) {
    && now < RING + window
    && (forall e :: e in q.right ==> 0 <= e.streamPos && 0 <= now - e.streamPos < RING)
    && (forall m :: m in q.memory ==> 0 <= m.streamPos)
  }

  function FlushedFront(q: D.Queues, window: nat): D.Queues
    requires q.right != []
  {
    D.Queues(q.right[1..], D.LeftDominators(q.memory, q.right[0], window) + [q.right[0].AtPos()])
  }

  function FrontVerdict(q: D.Queues, window: nat): seq<RawPeak>
    requires q.right != []
  {
    D.Accepted(q.right[0], D.LeftDominators(q.memory, q.right[0], window))
  }

  lemma FrontStored(origin: int, q: D.Queues, now: int, window: nat)
    requires 1 <= window && LooselySpaced(q, window) && WithinTurn(q, now, window)
    requires q.right != [] && now - q.right[0].streamPos >= window
    ensures S.FlushedFront(Store(origin, q), window) == Store(origin, FlushedFront(q, window))
    ensures S.FrontVerdict(Store(origin, q), window) == StampAll(origin, FrontVerdict(q, window))
    ensures S.RoomToRemember(Store(origin, q), window)
    ensures LooselySpaced(FlushedFront(q, window), window) && WithinTurn(FlushedFront(q, window), now, window)
  {
    hide Wrap, D.LeftDominators, S.LeftDominators, LooselySpaced, WithinTurn, StampAll, StampPlaces, MemorySpaced, Before, D.Accepted;
    var p := q.right[0];
    var kept := D.LeftDominators(q.memory, p, window);
    FrontWithinTurn(q, now, window);
    LeftDominatorsStored(origin, q.memory, p, window);
    StampTail(origin, q.right);
    StampPlacesAppend(origin, kept, p.AtPos());
    VerdictStored(origin, p, kept);
  }

  lemma VerdictStored(origin: int, p: RawPeak, kept: seq<ValueAtPos>)
    ensures D.Accepted(Stamp(origin, p), StampPlaces(origin, kept)) == StampAll(origin, D.Accepted(p, kept))
  {
  }

  lemma FrontWithinTurn(q: D.Queues, now: int, window: nat)
    requires 1 <= window && LooselySpaced(q, window) && WithinTurn(q, now, window)
    requires q.right != [] && now - q.right[0].streamPos >= window
    ensures forall m :: m in q.memory ==> 0 <= q.right[0].streamPos - m.streamPos < RING
    ensures LooselySpaced(FlushedFront(q, window), window) && WithinTurn(FlushedFront(q, window), now, window)
    ensures |D.LeftDominators(q.memory, q.right[0], window)| < S.Capacity(window)
  {
    hide D.LeftDominators;
    var p := q.right[0];
    FlushOneSpaced(q, window);
    RememberSpaced(q.memory, p, window);
    hide MemorySpaced, D.Ascending;
    assert p in q.right;
    forall m | m in q.memory ensures m.streamPos <= p.streamPos {
      var i :| 0 <= i < |q.memory| && q.memory[i] == m;
      LastIsLast(q.memory, window, i);
    }
  }

  /** Flushing stored queues flushes the queues, and neither deque overflows. */
  lemma {:induction false} FlushStored(origin: int, q: D.Queues, now: int, window: nat)
    requires 1 <= window && LooselySpaced(q, window) && WithinTurn(q, now, window)
    ensures var (q', found) := D.Flush(q, now, window);
            S.Flush(Store(origin, q), Wrap(origin + now), window) == (Store(origin, q'), StampAll(origin, found))
    ensures S.RoomToFlush(Store(origin, q), Wrap(origin + now), window)
    decreases |q.right|
  {
    hide Wrap, S.FlushedFront, S.FrontVerdict, S.RoomToRemember, LooselySpaced, D.LeftDominators, StampAll, StampPlaces;
    if q.right != [] {
      assert q.right[0] in q.right;
      AgeIsShown(origin, now, q.right[0].streamPos);
      if now - q.right[0].streamPos >= window {
        FrontStored(origin, q, now, window);
        FlushStored(origin, FlushedFront(q, window), now, window);
        StampConcat(origin, FrontVerdict(q, window), D.Flush(FlushedFront(q, window), now, window).1);
      }
    }
  }

  /** An event fits the queues: not before anything they hold and not a turn after `low`. */
  ghost predicate Fits(e: RawPeak, window: nat, bound: int, low: int) {
    && bound <= e.streamPos < RING + window
    && low <= e.streamPos < low + RING
    && (!D.Stored(e) ==> 1 <= e.streamPos)
  }

  lemma EnqueueStored(origin: int, q: D.Queues, e: RawPeak, window: nat, bound: int, low: int)
    requires 1 <= window && Orderly(q, window, bound, low) && Fits(e, window, bound, low)
    ensures !S.Promotes(Store(origin, q), Stamp(origin, e)) && !S.Promotes(q, e)
    ensures var admitted := D.Queues(D.Enqueue(q.right, e, window), q.memory);
            && S.Enqueue(Store(origin, q), Stamp(origin, e), window) == Store(origin, admitted)
            && |admitted.right| <= S.Capacity(window)
            && LooselySpaced(admitted, window) && WithinTurn(admitted, e.streamPos, window)
  {
    hide Wrap, LooselySpaced, D.DropDominated, S.DropDominated, StampPlaces, WithinTurn;
    var kept := D.DropDominated(q.right, e, window);
    EventWithinTurn(q, e, window, bound, low);
    if q.right != [] {
      assert Last(q.right) in q.right;
      AgeIsShown(origin, e.streamPos, Last(q.right).streamPos);
    }
    DropDominatedStored(origin, q.right, e, window);
    if D.Stored(e) {
      StampConcat(origin, kept, [e]);
      assert [Stamp(origin, e)] == StampAll(origin, [e]);
    } else {
      NothingAfter(kept);
      NothingAfter(StampAll(origin, kept));
    }
  }

  lemma EventWithinTurn(q: D.Queues, e: RawPeak, window: nat, bound: int, low: int)
    requires 1 <= window && Orderly(q, window, bound, low) && Fits(e, window, bound, low)
    ensures forall x :: x in q.right ==> 0 < e.streamPos - x.streamPos < RING
    ensures var admitted := D.Queues(D.Enqueue(q.right, e, window), q.memory);
            LooselySpaced(admitted, window) && WithinTurn(admitted, e.streamPos, window)
    ensures |D.DropDominated(q.right, e, window)| < S.Capacity(window)
  {
    hide D.DropDominated, MemorySpaced, D.Ascending, LooselySpaced, RightSpaced, D.Enqueue;
    BehindEvent(q, e, bound);
    EnqueueSpaced(q, e, window);
    EnqueuedBehind(q, e, window, bound);
  }

  lemma EventStored(origin: int, q: D.Queues, e: RawPeak, window: nat, bound: int, low: int)
    requires 1 <= window && Orderly(q, window, bound, low) && Fits(e, window, bound, low)
    ensures var (q', found) := D.OnRawPeakEvent(q, e, window);
            S.OnRawPeakEvent(Store(origin, q), Stamp(origin, e), window) == (Store(origin, q'), StampAll(origin, found))
    ensures S.RoomForEvent(Store(origin, q), Stamp(origin, e), window)
    ensures Orderly(D.OnRawPeakEvent(q, e, window).0, window, BoundAfter(bound, e), low)
  {
    hide Wrap, LooselySpaced, Orderly, WithinTurn, Behind, Spaced, D.Enqueue, S.Enqueue, StampAll, StampPlaces, D.Flush, S.Flush, S.RoomToFlush;
    EnqueueStored(origin, q, e, window, bound, low);
    EventKeepsOrder(q, e, window, bound, low);
    FlushStored(origin, D.Queues(D.Enqueue(q.right, e, window), q.memory), e.streamPos, window);
  }

  /** Feeding a chain of events. */
  lemma {:induction false} FeedStored(origin: int, q: D.Queues, events: seq<RawPeak>, window: nat, bound: int, low: int)
    requires 1 <= window && Orderly(q, window, bound, low) && Chained(bound, events)
    requires forall e :: e in events ==> low <= e.streamPos < low + RING && e.streamPos < RING + window
    ensures var (q', found) := D.Feed(q, events, window);
            S.Feed(Store(origin, q), StampAll(origin, events), window) == (Store(origin, q'), StampAll(origin, found))
    ensures S.RoomToFeed(Store(origin, q), StampAll(origin, events), window)
    ensures Orderly(D.Feed(q, events, window).0, window, BoundAfterAll(bound, events), low)
    decreases |events|
  {
    hide Wrap, Orderly, D.OnRawPeakEvent, S.OnRawPeakEvent, S.RoomForEvent, StampPlaces;
    if events != [] {
      var before, e := DropLast(events), Last(events);
      assert e in events;
      FeedStored(origin, q, before, window, bound, low);
      var (q1, found) := D.Feed(q, before, window);
      EventStored(origin, q1, e, window, BoundAfterAll(bound, before), low);
      StampDropLast(origin, events);
      StampConcat(origin, found, D.OnRawPeakEvent(q1, e, window).1);
    }
  }

  lemma PurgeStored(origin: int, q: D.Queues, pos: int, window: nat, bound: int)
    requires 1 <= window && Spaced(q, window) && Behind(q, bound) && pos < RING + window
    requires q.right != [] ==> -HALF_VALUE_RANGE_MINUS_ONE <= Last(q.right).streamPos - pos
    requires q.right != [] ==> Last(q.right).streamPos - pos <= HALF_VALUE_RANGE_MINUS_ONE
    requires forall e :: e in q.right ==> pos - e.streamPos < RING
    ensures var (q', found) := D.PurgeUpUntil(q, pos, window);
            S.PurgeUpUntil(Store(origin, q), Wrap(origin + pos), window) == (Store(origin, q'), StampAll(origin, found))
    ensures S.RoomToPurge(Store(origin, q), Wrap(origin + pos), window)
  {
    hide D.Flush, S.Flush, S.RoomToFlush;
    if q.right != [] {
      PurgeDueStored(origin, q, pos);
      if Last(q.right).streamPos < pos {
        PurgedStored(origin, q, pos, window, bound);
        hide Wrap, LooselySpaced, WithinTurn, Spaced, Behind, D.DropAged, S.Purged, S.PurgeIsDue, StampAll, StampPlaces;
        FlushStored(origin, q.(memory := D.DropAged(q.memory, pos, 3 * window + 1)), pos, window);
      }
    }
  }

  lemma PurgeDueStored(origin: int, q: D.Queues, pos: int)
    requires q.right != []
    requires -HALF_VALUE_RANGE_MINUS_ONE <= Last(q.right).streamPos - pos <= HALF_VALUE_RANGE_MINUS_ONE
    ensures S.PurgeIsDue(Store(origin, q), Wrap(origin + pos)) <==> Last(q.right).streamPos < pos
  {
    RingOrderIsClockOrder(origin + Last(q.right).streamPos, origin + pos);
    WrapDifferences(origin + Last(q.right).streamPos, 0);
    WrapDifferences(origin + pos, 0);
  }

  lemma PurgedStored(origin: int, q: D.Queues, pos: int, window: nat, bound: int)
    requires Spaced(q, window) && Behind(q, bound) && pos < RING + window
    requires q.right != [] && Last(q.right).streamPos < pos
    requires forall e :: e in q.right ==> pos - e.streamPos < RING
    ensures var purged := q.(memory := D.DropAged(q.memory, pos, 3 * window + 1));
            && S.Purged(Store(origin, q), Wrap(origin + pos), window) == Store(origin, purged)
            && LooselySpaced(purged, window) && WithinTurn(purged, pos, window)
  {
    MemoryFirst(q, window);
    PurgedSpaced(q, pos, window);
    hide Wrap, MemorySpaced, D.Ascending, D.DropAged, S.DropOld;
    DropAgedStored(origin, q.memory, pos, 3 * window + 1);
    assert q.right[0] in q.right;
  }

  // ----- One block

  function StoreState(origin: int, n: nat, st: FinderState): S.StoredState {
    S.StoredState(n > 0, st.detector, Store(origin, st.queues))
  }

  /** What every block leaves behind after n samples. */
  ghost predicate OnClock(st: FinderState, n: nat, window: nat)
    requires 2 * window < RING
  {
    && (n == 0 ==> st == IDLE)
    && PlateauFits(st.detector, n, TooBigFor(window))
    && Orderly(st.queues, window, EarliestEvent(st.detector, n, TooBigFor(window)), n - 3 * window)
  }

  /** Blocks whose ends are well within half a turn of each other. */
  predicate Addressable(size: nat, window: nat) {
    size + 3 * window <= HALF_VALUE_RANGE_MINUS_ONE
  }

  /** A detector that starts later raises the same events later. */
  lemma {:induction false} DetectShifted(d: DetectorState, data: seq<Value>, origin: int, n: int, threshold: int, tooBig: Position)
    ensures Detect(d, data, 0, threshold, tooBig).0 == Detect(d, data, n, threshold, tooBig).0
    ensures StampAll(Wrap(origin + n), Detect(d, data, 0, threshold, tooBig).1)
         == StampAll(origin, Detect(d, data, n, threshold, tooBig).1)
    decreases |data|
  {
    hide Wrap, Step, Detect;
    if data == [] {
      DetectNothing(d, 0, threshold, tooBig);
      DetectNothing(d, n, threshold, tooBig);
    } else {
      DetectShifted(d, DropLast(data), origin, n, threshold, tooBig);
      DetectLast(d, data, 0, threshold, tooBig);
      DetectLast(d, data, n, threshold, tooBig);
      var (d1, first) := Detect(d, DropLast(data), 0, threshold, tooBig);
      var later := Detect(d, DropLast(data), n, threshold, tooBig).1;
      StepShifted(d1, Last(data), origin, n, |data| - 1, threshold, tooBig);
      StampConcat(Wrap(origin + n), first, Step(d1, Last(data), |data| - 1, threshold, tooBig).1);
      StampConcat(origin, later, Step(d1, Last(data), n + |data| - 1, threshold, tooBig).1);
    }
  }

  lemma StepShifted(d: DetectorState, sample: Value, origin: int, n: int, pos: int, threshold: int, tooBig: Position)
    ensures Step(d, sample, pos, threshold, tooBig).0 == Step(d, sample, n + pos, threshold, tooBig).0
    ensures StampAll(Wrap(origin + n), Step(d, sample, pos, threshold, tooBig).1)
         == StampAll(origin, Step(d, sample, n + pos, threshold, tooBig).1)
  {
    hide Wrap, StampAll;
    WrapDifferences(origin + n, -pos);
    StampedStep(d, sample, Wrap(origin + n), pos, threshold, tooBig);
    StampedStep(d, sample, origin, n + pos, threshold, tooBig);
  }

  lemma {:induction false} ChainedAbove(bound: int, events: seq<RawPeak>)
    requires Chained(bound, events)
    ensures bound <= BoundAfterAll(bound, events)
    ensures forall e :: e in events ==> bound <= e.streamPos
    decreases |events|
  {
    if events != [] {
      ChainedAbove(bound, DropLast(events));
      assert events == DropLast(events) + [Last(events)];
    }
  }

  lemma StartStored(origin: int, st: FinderState, data: seq<Value>, n: nat, window: nat)
    requires data != [] && 1 <= window && 2 * window < RING && OnClock(st, n, window)
    ensures S.StartQueues(StoreState(origin, n, st), data, Wrap(origin + n)) == Store(origin, BlockQueues(st.queues, data, n))
    ensures Orderly(BlockQueues(st.queues, data, n), window, EarliestEvent(st.detector, n, TooBigFor(window)), n - 3 * window)
    ensures |S.StartQueues(StoreState(origin, n, st), data, Wrap(origin + n)).memory| <= S.Capacity(window)
  {
    hide Wrap, StampAll;
    if n == 0 {
      FirstLockout(origin, data[0], window);
    } else {
      hide Behind, Recent, PlateauFits, MemorySpaced, Before, RightSpaced, D.Ascending, EarliestEvent;
      MemoryIsSmall(st.queues.memory, window);
    }
  }

  /** The queues that the first sample leaves. */
  lemma FirstLockout(origin: int, x: Value, window: nat)
    requires 1 <= window
    ensures var m := ValueAtPos(0, x);
            && Orderly(D.Queues([], [] + [m]), window, 0, -3 * window)
            && Store(origin, D.Queues([], [] + [m])) == D.Queues([], [] + [ValueAtPos(Wrap(origin), x)])
  {
    hide Wrap;
    NothingBefore([ValueAtPos(0, x)]);
    NothingBefore([ValueAtPos(Wrap(origin), x)]);
  }

  /** The block's events, whose ages are far below a turn. */
  lemma EventsInTurn(d: DetectorState, data: seq<Value>, n: nat, threshold: int, window: nat)
    requires data != [] && 1 <= window && 2 * window < RING && PlateauFits(d, n, TooBigFor(window))
    requires n + |data| <= RING + window && Addressable(|data|, window)
    ensures var (d', events) := Detect(d, data, n, threshold, TooBigFor(window));
            var bound := EarliestEvent(d, n, TooBigFor(window));
            && PlateauFits(d', n + |data|, TooBigFor(window))
            && Chained(bound, events)
            && bound <= BoundAfterAll(bound, events) <= EarliestEvent(d', n + |data|, TooBigFor(window)) < n + |data|
            && forall e :: e in events ==> n - 3 * window <= e.streamPos < n - 3 * window + RING && e.streamPos < RING + window
  {
    hide Detect, Chained, BoundAfterAll;
    DetectChained(d, data, n, threshold, TooBigFor(window));
    ChainedAbove(EarliestEvent(d, n, TooBigFor(window)), Detect(d, data, n, threshold, TooBigFor(window)).1);
  }

  lemma PurgeDelayStored(origin: int, d: DetectorState, q: D.Queues, window: nat)
    requires 1 <= window && 2 * window < RING
    ensures PurgeDelay(d, Store(origin, q), TooBigFor(window)) == PurgeDelay(d, q, TooBigFor(window))
    ensures 1 <= PurgeDelay(d, q, TooBigFor(window)) <= 2 * window
  {
  }

  lemma BlockPurgeStored(origin: int, d: DetectorState, q: D.Queues, data: seq<Value>, n: nat, window: nat, bound: int)
    requires data != [] && 1 <= window && 2 * window < RING
    requires n + |data| <= RING + window && Addressable(|data|, window)
    requires Orderly(q, window, bound, n - 3 * window) && bound < n + |data|
    ensures var pos := S.PurgePosition(d, Store(origin, q), data, Wrap(origin + n), window);
            var (q', found) := D.PurgeUpUntil(q, n + |data| - PurgeDelay(d, q, TooBigFor(window)), window);
            && S.PurgeUpUntil(Store(origin, q), pos, window) == (Store(origin, q'), StampAll(origin, found))
            && S.RoomToPurge(Store(origin, q), pos, window)
            && Orderly(q', window, bound, n + |data| - 3 * window)
  {
    hide Wrap, D.PurgeUpUntil, S.PurgeUpUntil, S.RoomToPurge, Spaced, Store, StampAll, PurgeDelay;
    var delay := PurgeDelay(d, q, TooBigFor(window));
    var pos := n + |data| - delay;
    PurgeDelayStored(origin, d, q, window);
    WrapDifferences(origin + n, -|data|);
    WrapDifferences(origin + n + |data|, delay);
    if q.right != [] {
      assert Last(q.right) in q.right;
    }
    PurgeStored(origin, q, pos, window, bound);
    PurgeKeepsOrder(q, pos, window, bound);
  }

  /** One block does on stored positions what it does on the clock, and neither deque overflows. */
  lemma BlockStored(origin: int, st: FinderState, data: seq<Value>, n: nat, threshold: int, window: nat)
    requires data != [] && 1 <= window && 2 * window < RING && OnClock(st, n, window)
    requires n + |data| <= RING + window && Addressable(|data|, window)
    ensures var (st', found) := ProcessBlock(st, data, n, threshold, window);
            && S.ProcessBlock(StoreState(origin, n, st), data, Wrap(origin + n), threshold, window)
               == (StoreState(origin, n + |data|, st'), StampAll(origin, found))
            && OnClock(st', n + |data|, window)
    ensures S.RoomForBlock(StoreState(origin, n, st), data, Wrap(origin + n), threshold, window)
  {
    hide Wrap, Detect, Store, Orderly, Behind, PlateauFits, Chained, EarliestEvent, BoundAfterAll,
      D.Feed, S.Feed, S.RoomToFeed, D.PurgeUpUntil, S.PurgeUpUntil, S.RoomToPurge, S.PurgePosition, PurgeDelay, BlockQueues, S.StartQueues, StampAll;
    var tooBig := TooBigFor(window);
    var bound := EarliestEvent(st.detector, n, tooBig);
    var (d, events) := Detect(st.detector, data, n, threshold, tooBig);
    StartStored(origin, st, data, n, window);
    DetectShifted(st.detector, data, origin, n, threshold, tooBig);
    EventsInTurn(st.detector, data, n, threshold, window);
    FeedStored(origin, BlockQueues(st.queues, data, n), events, window, bound, n - 3 * window);
    var (q, found) := D.Feed(BlockQueues(st.queues, data, n), events, window);
    BlockPurgeStored(origin, d, q, data, n, window, BoundAfterAll(bound, events));
    var (q', more) := D.PurgeUpUntil(q, n + |data| - PurgeDelay(d, q, tooBig), window);
    OrderlyLater(q', window, BoundAfterAll(bound, events), EarliestEvent(d, n + |data|, tooBig), n + |data| - 3 * window);
    StampConcat(origin, found, more);
  }

  lemma OrderlyLater(q: D.Queues, window: nat, bound: int, later: int, low: int)
    requires Orderly(q, window, bound, low) && bound <= later
    ensures Orderly(q, window, later, low)
  {
    BehindLater(q, bound, later);
  }

  // ----- Whole streams

  predicate AllAddressable(blocks: seq<seq<Value>>, window: nat) {
    forall i :: 0 <= i < |blocks| ==> Addressable(|blocks[i]|, window)
  }

  /** Up to one turn and one lockout distance, whole runs on stored positions are runs on the clock. */
  lemma {:induction false} RunStored(blocks: seq<seq<Value>>, start: Position, threshold: int, window: nat)
    requires 1 <= window && 2 * window < RING
    requires NonEmptyBlocks(blocks) && AllAddressable(blocks, window) && |Flatten(blocks)| <= RING + window
    ensures var (st, found) := ProcessBlocks(IDLE, blocks, threshold, window);
            && S.ProcessBlocks(blocks, start, threshold, window)
               == (StoreState(start, |Flatten(blocks)|, st), StampAll(start, found))
            && OnClock(st, |Flatten(blocks)|, window)
    ensures S.RoomForBlocks(blocks, start, threshold, window)
    decreases |blocks|
  {
    hide Wrap, ProcessBlock, S.ProcessBlock, S.RoomForBlock, OnClock;
    if blocks == [] {
      NothingOnClock(start, window);
    } else {
      var before, data := DropLast(blocks), Last(blocks);
      var n := |Flatten(before)|;
      RunStored(before, start, threshold, window);
      var (st, found) := ProcessBlocks(IDLE, before, threshold, window);
      BlockStored(start, st, data, n, threshold, window);
      StampConcat(start, found, ProcessBlock(st, data, n, threshold, window).1);
    }
  }

  lemma NothingOnClock(origin: int, window: nat)
    requires 1 <= window && 2 * window < RING
    ensures OnClock(IDLE, 0, window) && StoreState(origin, 0, IDLE) == S.FRESH
  {
  }
}
