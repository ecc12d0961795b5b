/** Calls of the peak finder that change nothing (dsp/peakfinder.hpp:271-346, 462-517): a block without
    samples after the first block, and the promotion of a pending entry, which no run asks for. */
module PeakIdle {
  import opened RingMath
  import opened PeakTypes
  import opened PeakDetector
  import opened PeakPipeline
  import opened PeakSpacing
  import opened PeakClock
  import opened PeakLevels
  import opened Sequences
  import D = DominantPeaks
  import S = StoredPeaks

  // ----- Purging twice

  lemma {:induction false} DropAgedTwice(memory: seq<ValueAtPos>, pos: int, limit: nat)
    ensures D.DropAged(D.DropAged(memory, pos, limit), pos, limit) == D.DropAged(memory, pos, limit)
    decreases |memory|
  {
    hide Wrap;
    if memory != [] && Wrap(pos - memory[0].streamPos) > limit {
      DropAgedTwice(memory[1..], pos, limit);
    }
  }

  lemma DropAgedNothing(memory: seq<ValueAtPos>, pos: int, limit: nat)
    requires forall m :: m in memory ==> 0 <= pos - m.streamPos <= limit
    ensures D.DropAged(memory, pos, limit) == memory
  {
    hide Wrap;
    if memory != [] {
      assert memory[0] in memory;
      D.LooksNoOlder(pos - memory[0].streamPos);
    }
  }

  lemma KeptIsNear(memory: seq<ValueAtPos>, p: RawPeak, window: nat)
    requires MemorySpaced(memory, window)
    ensures forall m :: m in D.LeftDominators(memory, p, window) ==> p.streamPos - m.streamPos <= window
  {
    hide D.LeftDominators;
    var kept := D.LeftDominators(memory, p, window);
    var n := DominatorsAreSlice(memory, p, window);
    forall m | m in kept ensures p.streamPos - m.streamPos <= window {
      var i :| 0 <= i < |kept| && kept[i] == m;
      assert memory[n] == kept[0] && memory[n + i] == kept[i];
    }
  }

  /** Once an entry has moved to the memory, nothing there is more than a window older than it. */
  lemma {:induction false} FlushedMemoryIsNear(q: D.Queues, now: int, window: nat, low: int)
    requires LooselySpaced(q, window)
    requires forall e :: e in q.right ==> low + window <= e.streamPos
    requires (q.right != [] && now - q.right[0].streamPos >= window) || (forall m :: m in q.memory ==> low <= m.streamPos)
    ensures forall m :: m in D.Flush(q, now, window).0.memory ==> low <= m.streamPos
    decreases |q.right|
  {
    hide D.LeftDominators, MemorySpaced;
    if q.right != [] && now - q.right[0].streamPos >= window {
      var p := q.right[0];
      assert p in q.right;
      KeptIsNear(q.memory, p, window);
      FlushOneSpaced(q, window);
      FlushedMemoryIsNear(FlushedFront(q, window), now, window, low);
    }
  }

  lemma NoFlush(q: D.Queues, now: int, window: nat)
    requires Recent(q.right, now - window + 1)
    ensures D.Flush(q, now, window) == (q, [])
  {
    if q.right != [] {
      assert q.right[0] in q.right;
    }
  }

  /** A second purge up to the same position does nothing. */
  lemma PurgeTwice(q: D.Queues, pos: int, window: nat, bound: int)
    requires 1 <= window && Spaced(q, window) && Behind(q, bound)
    ensures var q' := D.PurgeUpUntil(q, pos, window).0;
            && D.PurgeUpUntil(q', pos, window) == (q', [])
            && (q'.right != [] ==> q.right != [] && Last(q'.right) == Last(q.right))
  {
    hide D.Flush, D.DropAged, MemorySpaced, D.Ascending, Behind;
    var q' := D.PurgeUpUntil(q, pos, window).0;
    PurgeKeepsOrder(q, pos, window, bound);
    NoFlush(q', pos, window);
    if q.right != [] && Last(q.right).streamPos < pos && q'.right != [] {
      MemoryFirst(q, window);
      PurgedSpaced(q, pos, window);
      var purged := q.(memory := D.DropAged(q.memory, pos, 3 * window + 1));
      FlushTakesFront(purged, pos, window);
      assert q'.right[0] in q'.right && q.right[0] in q.right;
      if pos - q.right[0].streamPos >= window {
        FlushedMemoryIsNear(purged, pos, window, q.right[0].streamPos - window);
        MemoryFirst(q', window);
        DropAgedNothing(q'.memory, pos, 3 * window + 1);
      } else {
        FlushNothing(purged, pos, window);
        DropAgedTwice(q.memory, pos, 3 * window + 1);
      }
    }
  }

  lemma FlushNothing(q: D.Queues, now: int, window: nat)
    requires q.right != [] && now - q.right[0].streamPos < window
    ensures D.Flush(q, now, window) == (q, [])
  {
  }

  lemma {:induction false} FlushTakesFront(q: D.Queues, now: int, window: nat)
    ensures var right := D.Flush(q, now, window).0.right;
            right != [] ==> q.right != [] && Last(right) == Last(q.right)
    decreases |q.right|
  {
    hide D.LeftDominators;
    if q.right != [] && now - q.right[0].streamPos >= window {
      FlushTakesFront(FlushedFront(q, window), now, window);
    }
  }

  // ----- A block without samples

  /** The queues before a block's purge. */
  lemma BlockEndsPurged(st: FinderState, data: seq<Value>, n: nat, threshold: int, window: nat) returns (q: D.Queues, bound: int)
    requires data != [] && 1 <= window && 2 * window < RING && OnClock(st, n, window)
    requires n + |data| <= RING + window && Addressable(|data|, window)
    ensures var st' := ProcessBlock(st, data, n, threshold, window).0;
            && st'.queues == D.PurgeUpUntil(q, n + |data| - PurgeDelay(st'.detector, q, TooBigFor(window)), window).0
            && Spaced(q, window) && Behind(q, bound)
  {
    hide Wrap, Detect, Store, Spaced, Behind, PlateauFits, Chained, EarliestEvent, BoundAfterAll, Recent,
      D.Feed, S.Feed, S.RoomToFeed, D.PurgeUpUntil, PurgeDelay, BlockQueues, S.StartQueues, StampAll;
    var low, tooBig := n - 3 * window, TooBigFor(window);
    bound := EarliestEvent(st.detector, n, tooBig);
    var events := Detect(st.detector, data, n, threshold, tooBig).1;
    StartStored(0, st, data, n, window);
    EventsInTurn(st.detector, data, n, threshold, window);
    FeedStored(0, BlockQueues(st.queues, data, n), events, window, bound, low);
    q := D.Feed(BlockQueues(st.queues, data, n), events, window).0;
    bound := BoundAfterAll(bound, events);
  }

  lemma PurgedAlready(d: DetectorState, q: D.Queues, n: nat, window: nat, bound: int)
    requires 1 <= window && 2 * window < RING && Spaced(q, window) && Behind(q, bound)
    ensures var q' := D.PurgeUpUntil(q, n - PurgeDelay(d, q, TooBigFor(window)), window).0;
            D.PurgeUpUntil(q', n - PurgeDelay(d, q', TooBigFor(window)), window) == (q', [])
  {
    hide D.Flush, D.DropAged, Spaced, Behind;
    PurgeTwice(q, n - PurgeDelay(d, q, TooBigFor(window)), window, bound);
  }

  /** What every run leaves behind. */
  lemma {:induction false} EachOnClock(blocks: seq<seq<Value>>, thresholds: seq<int>, window: nat)
    requires 1 <= window && 2 * window < RING && Matching(blocks, thresholds)
    requires |Flatten(blocks)| <= RING + window && AllAddressable(blocks, window)
    ensures var (st, n) := (ProcessEach(blocks, thresholds, window).0, |Flatten(blocks)|);
            && OnClock(st, n, window)
            && D.PurgeUpUntil(st.queues, n - PurgeDelay(st.detector, st.queues, TooBigFor(window)), window) == (st.queues, [])
    decreases |blocks|
  {
    hide ProcessBlock, OnClock, D.PurgeUpUntil, PurgeDelay;
    if blocks == [] {
      NothingOnClock(0, window);
      IdleIsPurged(window);
    } else {
      var before, lower, data, threshold := DropLast(blocks), DropLast(thresholds), Last(blocks), Last(thresholds);
      var n := |Flatten(before)|;
      EachOnClock(before, lower, window);
      var st := ProcessEach(before, lower, window).0;
      BlockStored(0, st, data, n, threshold, window);
      var q, bound := BlockEndsPurged(st, data, n, threshold, window);
      PurgedAlready(ProcessBlock(st, data, n, threshold, window).0.detector, q, n + |data|, window, bound);
    }
  }

  lemma IdleIsPurged(window: nat)
    requires 2 * window < RING
    ensures D.PurgeUpUntil(IDLE.queues, 0 - PurgeDelay(IDLE.detector, IDLE.queues, TooBigFor(window)), window) == (IDLE.queues, [])
  {
  }

  /** After the first block, a block without samples reports nothing and leaves the finder as it is. */
  lemma EmptyBlockIsIdle(blocks: seq<seq<Value>>, thresholds: seq<int>, start: Position, threshold: int, window: nat)
    requires 1 <= window && 2 * window < RING && Matching(blocks, thresholds) && blocks != []
    requires |Flatten(blocks)| <= RING + window && AllAddressable(blocks, window)
    ensures var (st, n) := (ProcessEach(blocks, thresholds, window).0, |Flatten(blocks)|);
            && n > 0
            && S.ProcessBlock(StoreState(start, n, st), [], Wrap(start + n), threshold, window) == (StoreState(start, n, st), [])
            && S.RoomForBlock(StoreState(start, n, st), [], Wrap(start + n), threshold, window)
  {
    hide Wrap, ProcessEach, Flatten, StampAll, StampPlaces, D.PurgeUpUntil, S.PurgeUpUntil, S.RoomToPurge,
      PurgeDelay, Orderly, PlateauFits, EarliestEvent;
    EachOnClock(blocks, thresholds, window);
    SomeSamples(blocks);
    assert Addressable(|blocks[0]|, window);
    var st, n := ProcessEach(blocks, thresholds, window).0, |Flatten(blocks)|;
    var delay := PurgeDelay(st.detector, st.queues, TooBigFor(window));
    DetectNothing(st.detector, 0, threshold, TooBigFor(window));
    EmptyFeed(start, st.queues, window);
    NothingToStamp(Wrap(start + n));
    NothingAfter<RawPeak>([]);
    PurgeAgainStored(start, st, n, window);
  }

  lemma SomeSamples(blocks: seq<seq<Value>>)
    requires NonEmptyBlocks(blocks) && blocks != []
    ensures |Flatten(blocks)| > 0
  {
    assert Last(blocks) != [];
  }

  lemma EmptyFeed(start: int, q: D.Queues, window: nat)
    ensures S.Feed(Store(start, q), [], window) == (Store(start, q), []) && S.RoomToFeed(Store(start, q), [], window)
  {
  }

  lemma PurgeAgainStored(start: int, st: FinderState, n: nat, window: nat)
    requires 1 <= window && 2 * window < RING && 3 * window <= HALF_VALUE_RANGE_MINUS_ONE
    requires n <= RING + window && OnClock(st, n, window)
    requires D.PurgeUpUntil(st.queues, n - PurgeDelay(st.detector, st.queues, TooBigFor(window)), window) == (st.queues, [])
    ensures var pos := S.PurgePosition(st.detector, Store(start, st.queues), [], Wrap(start + n), window);
            && S.PurgeUpUntil(Store(start, st.queues), pos, window) == (Store(start, st.queues), [])
            && S.RoomToPurge(Store(start, st.queues), pos, window)
    ensures |st.queues.memory| <= S.Capacity(window)
  {
    hide Wrap, D.PurgeUpUntil, S.PurgeUpUntil, S.RoomToPurge, Store, StampAll, PurgeDelay, MemorySpaced, D.Ascending, Before;
    var q, d := st.queues, st.detector;
    var delay, bound := PurgeDelay(d, q, TooBigFor(window)), EarliestEvent(d, n, TooBigFor(window));
    PurgeDelayStored(start, d, q, window);
    WrapDifferences(start + n, 0);
    WrapDifferences(start + n, delay);
    if q.right != [] {
      assert Last(q.right) in q.right;
    }
    PurgeStored(start, q, n - delay, window, bound);
    NothingToStamp(start);
    MemoryIsSmall(q.memory, window);
  }

  lemma NothingToStamp(start: int)
    ensures StampAll(start, []) == []
  {
  }

  // ----- Promotions

  /** An event at the position of the youngest pending entry only gives that entry its kind. */
  lemma PromotionChangesKind(q: D.Queues, e: RawPeak, window: nat)
    requires S.Promotes(q, e)
    ensures D.OnRawPeakEvent(q, e, window) == S.OnRawPeakEvent(q, e, window)
    ensures var (q', found) := S.OnRawPeakEvent(q, e, window);
            && found == [] && q'.memory == q.memory && |q'.right| == |q.right|
            && (forall i :: 0 <= i < |q.right| ==> q'.right[i].AtPos() == q.right[i].AtPos())
            && (forall i :: 0 <= i < |q.right| - 1 ==> q'.right[i] == q.right[i])
            && Last(q'.right).kind == e.kind
  {
  }

  lemma {:induction false} ChainedPrefix(bound: int, events: seq<RawPeak>, j: nat)
    requires Chained(bound, events) && j <= |events|
    ensures Chained(bound, events[..j])
    decreases |events|
  {
    if j == |events| {
      assert events[..j] == events;
    } else {
      ChainedPrefix(bound, DropLast(events), j);
      assert DropLast(events)[..j] == events[..j];
    }
  }

  /** No run asks for a promotion, since rises are never pending: no event of a next block, whatever
      the thresholds are, comes at the position of the youngest pending entry. */
  lemma NothingIsPromoted(blocks: seq<seq<Value>>, thresholds: seq<int>, data: seq<Value>, threshold: int, start: int, window: nat, j: nat)
    requires 1 <= window && 2 * window < RING && Matching(blocks, thresholds) && data != []
    requires |Flatten(blocks)| + |data| <= RING + window && AllAddressable(blocks, window) && Addressable(|data|, window)
    ensures var (st, n) := (ProcessEach(blocks, thresholds, window).0, |Flatten(blocks)|);
            var events := Detect(st.detector, data, n, threshold, TooBigFor(window)).1;
            j < |events| ==>
              !S.Promotes(Store(start, D.Feed(BlockQueues(st.queues, data, n), events[..j], window).0), Stamp(start, events[j]))
  {
    hide Wrap, ProcessEach, Flatten, Detect, Store, Stamp, Orderly, PlateauFits, Chained, EarliestEvent, BoundAfterAll,
      D.Feed, S.Feed, S.RoomToFeed, BlockQueues, S.StartQueues, StampAll, S.Promotes, S.Enqueue, D.Enqueue;
    EachOnClock(blocks, thresholds, window);
    var st, n := ProcessEach(blocks, thresholds, window).0, |Flatten(blocks)|;
    var tooBig := TooBigFor(window);
    var bound, events := EarliestEvent(st.detector, n, tooBig), Detect(st.detector, data, n, threshold, tooBig).1;
    if j < |events| {
      var q := BlockQueues(st.queues, data, n);
      StartStored(start, st, data, n, window);
      EventsInTurn(st.detector, data, n, threshold, window);
      ChainedPrefix(bound, events, j);
      ChainedPrefix(bound, events, j + 1);
      FeedStored(start, q, events[..j], window, bound, n - 3 * window);
      NextFits(bound, events, j);
      EnqueueStored(start, D.Feed(q, events[..j], window).0, events[j], window, BoundAfterAll(bound, events[..j]), n - 3 * window);
    }
  }

  lemma NextFits(bound: int, events: seq<RawPeak>, j: nat)
    requires j < |events| && Chained(bound, events[..j + 1])
    ensures BoundAfterAll(bound, events[..j]) <= events[j].streamPos
    ensures !D.Stored(events[j]) ==> 1 <= events[j].streamPos
  {
    assert DropLast(events[..j + 1]) == events[..j];
  }
}
