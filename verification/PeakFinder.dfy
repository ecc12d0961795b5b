/** StreamingPeakFinder (dsp/peakfinder.hpp:425-517): the class does what the functions of
    `StoredPeaks` do, as long as neither deque overflows. */
module PeakFinder {
  import opened RingMath
  import opened RingBuffer
  import opened PeakTypes
  import opened PeakDetector
  import opened PeakIsolator
  import opened PeakPipeline
  import opened Sequences
  import D = DominantPeaks
  import S = StoredPeaks

  class StreamingPeakFinder {
    const lockoutDistance: nat
    var isSubsequentBlock: bool
    const peakDetector: StreamingPeakDetector
    const dominantPeakIsolator: SlidingWindowDominantPeakIsolator

    // The number of samples seen so far.
    ghost var samplesRead: nat

    ghost function Footprint(): set<object>
      reads this, dominantPeakIsolator
    {
      var i := dominantPeakIsolator;
      {this, peakDetector, i, i.right, i.right.data, i.memory, i.memory.data}
    }

    ghost predicate Linked()
      reads Footprint()
    {
      && 0 < lockoutDistance && 3 * lockoutDistance + 1 < RING
      && peakDetector.Valid() && peakDetector.tooBigPlateauSize == TooBigFor(lockoutDistance)
      && dominantPeakIsolator.Valid() && dominantPeakIsolator.windowSize == lockoutDistance
    }

    ghost predicate Valid()
      reads Footprint()
    {
      Linked() && dominantPeakIsolator.calls <= 2 * samplesRead + (if isSubsequentBlock then 1 else 0)
    }

    ghost function State(): S.StoredState
      requires Valid()
      reads Footprint()
    {
      S.StoredState(isSubsequentBlock, peakDetector.State(), dominantPeakIsolator.Contents())
    }

    constructor (patternSize: nat)
      requires 0 < patternSize / 2 && 3 * (patternSize / 2) + 1 < RING
      ensures Valid() && fresh(Footprint()) && lockoutDistance == patternSize / 2
      ensures State() == S.FRESH && samplesRead == 0
    {
      hide Slots, Reverse;
      var window := patternSize / 2;
      lockoutDistance := window;
      isSubsequentBlock := false;
      samplesRead := 0;
      peakDetector := new StreamingPeakDetector((2 * window + 1) - 2);
      dominantPeakIsolator := new SlidingWindowDominantPeakIsolator(window);
    }

    method Process(data: seq<Value>, streamPosAtStartOfData: Position, peakThreshold: Value) returns (found: seq<RawPeak>)
      requires Valid() && (data != [] || isSubsequentBlock)
      requires S.RoomForBlock(State(), data, streamPosAtStartOfData, peakThreshold, lockoutDistance)
      modifies Footprint()
      ensures Valid() && Footprint() == old(Footprint())
      ensures samplesRead == old(samplesRead) + |data|
      ensures dominantPeakIsolator.pops <= 4 * samplesRead + 2
      ensures (State(), found) == S.ProcessBlock(old(State()), data, streamPosAtStartOfData, peakThreshold, lockoutDistance)
    {
      hide Slots, Reverse, Detect, Wrap, S.Feed, S.RoomToFeed, S.PurgeUpUntil, S.RoomToPurge, S.PurgePosition;
      var newStreamPos := Wrap(streamPosAtStartOfData + |data|);
      ghost var st := State();
      if !isSubsequentBlock {
        isSubsequentBlock := true;
        dominantPeakIsolator.AddLockoutForInitialValue(ValueAtPos(streamPosAtStartOfData, data[0]));
      }
      assert dominantPeakIsolator.Contents() == S.StartQueues(st, data, streamPosAtStartOfData);
      WrapIdentity(streamPosAtStartOfData);
      var events := peakDetector.Process(data, streamPosAtStartOfData, peakThreshold, streamPosAtStartOfData, 0);
      assert events == S.BlockEvents(st, data, streamPosAtStartOfData, peakThreshold, lockoutDistance);
      DetectRaisesFew(st.detector, data, 0, peakThreshold, TooBigFor(lockoutDistance));
      samplesRead := samplesRead + |data|;
      found := FeedIsolator(events);
      var more := Purge(data, streamPosAtStartOfData, newStreamPos);
      found := found + more;
    }

    /** The handler that passes the detector's events on. */
    method FeedIsolator(events: seq<RawPeak>) returns (found: seq<RawPeak>)
      requires Linked() && S.RoomToFeed(dominantPeakIsolator.Contents(), events, lockoutDistance)
      modifies dominantPeakIsolator, dominantPeakIsolator.right, dominantPeakIsolator.right.data,
               dominantPeakIsolator.memory, dominantPeakIsolator.memory.data
      ensures Linked() && dominantPeakIsolator.calls == old(dominantPeakIsolator.calls) + |events|
      ensures (dominantPeakIsolator.Contents(), found) == S.Feed(old(dominantPeakIsolator.Contents()), events, lockoutDistance)
    {
      hide Slots, Reverse, S.OnRawPeakEvent, S.RoomForEvent, S.Feed, S.RoomToFeed;
      found := [];
      ghost var q := dominantPeakIsolator.Contents();
      FeedNothing(q, lockoutDistance);
      for i := 0 to |events|
        invariant Linked() && dominantPeakIsolator.calls == old(dominantPeakIsolator.calls) + i
        invariant (dominantPeakIsolator.Contents(), found) == S.Feed(q, events[..i], lockoutDistance)
      {
        FeedNext(q, events, i, lockoutDistance);
        var more := dominantPeakIsolator.OnRawPeakEvent(events[i]);
        found := found + more;
      }
      assert events[..|events|] == events;
    }

    /** Purges up to the samples that cannot turn into a peak any more. */
    method Purge(ghost data: seq<Value>, ghost start: Position, newStreamPos: Position) returns (found: seq<RawPeak>)
      requires Linked() && newStreamPos == Wrap(start + |data|)
      requires S.RoomToPurge(dominantPeakIsolator.Contents(),
                             S.PurgePosition(peakDetector.State(), dominantPeakIsolator.Contents(), data, start, lockoutDistance),
                             lockoutDistance)
      modifies dominantPeakIsolator`pops, dominantPeakIsolator.right, dominantPeakIsolator.right.data,
               dominantPeakIsolator.memory, dominantPeakIsolator.memory.data
      ensures Linked() && dominantPeakIsolator.pops <= 2 * dominantPeakIsolator.calls
      ensures var q := old(dominantPeakIsolator.Contents());
              (dominantPeakIsolator.Contents(), found)
              == S.PurgeUpUntil(q, S.PurgePosition(peakDetector.State(), q, data, start, lockoutDistance), lockoutDistance)
    {
      hide Slots, Reverse, Wrap, S.PurgeUpUntil, S.RoomToPurge;
      var youngest := dominantPeakIsolator.YoungestRawPeakValue();
      var peakDetectorDelay := (if peakDetector.CurrentPlateauValue() > youngest then peakDetector.CurrentPlateauSize() else 0) + 1;
      assert peakDetectorDelay == PurgeDelay(peakDetector.State(), dominantPeakIsolator.Contents(), TooBigFor(lockoutDistance));
      found := dominantPeakIsolator.PurgeUpUntil(Wrap(newStreamPos - peakDetectorDelay));
    }
  }

  lemma FeedNothing(q: D.Queues, window: nat)
    ensures S.Feed(q, [], window) == (q, [])
  {
  }

  lemma FeedNext(q: D.Queues, events: seq<RawPeak>, i: nat, window: nat)
    requires i < |events|
    ensures var (q1, found) := S.Feed(q, events[..i], window);
            var (q2, more) := S.OnRawPeakEvent(q1, events[i], window);
            S.Feed(q, events[..i + 1], window) == (q2, found + more)
    ensures S.RoomToFeed(q, events, window) ==> S.RoomForEvent(S.Feed(q, events[..i], window).0, events[i], window)
  {
    assert DropLast(events[..i + 1]) == events[..i];
    if S.RoomToFeed(q, events, window) {
      RoomForPrefix(q, events, i + 1, window);
    }
  }

  lemma {:induction false} RoomForPrefix(q: D.Queues, events: seq<RawPeak>, i: nat, window: nat)
    requires i <= |events| && S.RoomToFeed(q, events, window)
    ensures S.RoomToFeed(q, events[..i], window)
    decreases |events|
  {
    if i == |events| {
      assert events[..i] == events;
    } else {
      RoomForPrefix(q, DropLast(events), i, window);
      assert DropLast(events)[..i] == events[..i];
    }
  }
}
