/** StreamingPeakFinder::process (dsp/peakfinder.hpp:462-517) on an unbounded clock: the detector
    feeds the isolator, and each block ends with a purge. */
module PeakPipeline {
  import opened RingMath
  import opened PeakTypes
  import opened PeakDetector
  import opened DominantPeaks
  import opened PeakStream
  import opened Sequences

  datatype FinderState = FinderState(detector: DetectorState, queues: Queues)

  const IDLE: FinderState := FinderState(START, Queues([], []))

  /** Plateaus are recognised up to patternSize() - 2 = 2 * lockoutDistance - 1 samples. */
  function TooBigFor(window: nat): Position
    requires 2 * window < RING
  {
    2 * window
  }

  function YoungestRawPeakValue(q: Queues): int {
    if q.right == [] then VALUE_MIN else Last(q.right).value
  }

  function PurgeDelay(d: DetectorState, q: Queues, tooBig: Position): nat {
    var pending := PendingPlateau(d, tooBig);
    var pendingValue := if pending > 0 then d.lastValue else VALUE_MIN;
    (if pendingValue > YoungestRawPeakValue(q) then pending else 0) + 1
  }

  /** The queues that a block starts from: the first sample of the stream locks out later peaks. */
  function BlockQueues(q: Queues, data: seq<Value>, n: nat): Queues
    requires data != []
  {
    if n == 0 then q.(memory := q.memory + [ValueAtPos(0, data[0])]) else q
  }

  /** Processes the samples from clock `n` on. */
  function ProcessBlock(st: FinderState, data: seq<Value>, n: nat, threshold: int, window: nat): (FinderState, seq<RawPeak>)
    requires data != [] && 2 * window < RING
  {
    var (d, events) := Detect(st.detector, data, n, threshold, TooBigFor(window));
    var (q1, found) := Feed(BlockQueues(st.queues, data, n), events, window);
    var (q2, more) := PurgeUpUntil(q1, n + |data| - PurgeDelay(d, q1, TooBigFor(window)), window);
    (FinderState(d, q2), found + more)
  }

  /** Runs a stream that arrives in the given blocks; n samples came before them. */
  function ProcessBlocks(st: FinderState, blocks: seq<seq<Value>>, threshold: int, window: nat): (FinderState, seq<RawPeak>)
    requires NonEmptyBlocks(blocks) && 2 * window < RING
    decreases |blocks|
  {
    if blocks == [] then (st, [])
    else
      var (st1, found) := ProcessBlocks(st, DropLast(blocks), threshold, window);
      var (st2, more) := ProcessBlock(st1, Last(blocks), |Flatten(DropLast(blocks))|, threshold, window);
      (st2, found + more)
  }

  predicate NonEmptyBlocks(blocks: seq<seq<Value>>) {
    forall i :: 0 <= i < |blocks| ==> blocks[i] != []
  }

  function Flatten(blocks: seq<seq<Value>>): seq<Value> {
    if blocks == [] then [] else Flatten(DropLast(blocks)) + Last(blocks)
  }

  // ----- One sample

  function InitialLockout(s: seq<Value>): seq<ValueAtPos>
    requires s != []
  {
    [ValueAtPos(0, s[0])]
  }

  /** The isolator is exact about the events raised so far. */
  ghost predicate ExactFor(q: Queues, found: seq<RawPeak>, initial: seq<ValueAtPos>, events: seq<RawPeak>,
                           window: nat, flushed: int, horizon: int)
  {
    && Inv(q, found, initial, events, window, flushed, horizon)
    && HorizonFits(window, flushed, horizon)
    && forall e :: e in events ==> e.streamPos <= flushed
  }

  /** The isolator is exact about the samples seen so far. */
  ghost predicate Exact(q: Queues, found: seq<RawPeak>, s: seq<Value>, threshold: int, window: nat, flushed: int, horizon: int)
    requires s != [] && 2 * window < RING
  {
    && ExactFor(q, found, InitialLockout(s), Events(s, threshold, TooBigFor(window)), window, flushed, horizon)
    && flushed < |s|
  }

  /** Exact up to the last sample, as after the purge of a block. */
  ghost predicate ExactNow(q: Queues, found: seq<RawPeak>, s: seq<Value>, threshold: int, window: nat, horizon: int)
    requires s != [] && 2 * window < RING
  {
    Exact(q, found, s, threshold, window, |s| - 1, horizon)
  }

  lemma TimelyRise(events: seq<RawPeak>, e: RawPeak, window: nat, flushed: int)
    requires !Stored(e) && flushed < e.streamPos
    ensures Timely(events, e, window, flushed)
  {
  }

  /** An event about a sample already seen agrees with what was flushed because of that sample. */
  lemma TimelyStored(s: seq<Value>, e: RawPeak, threshold: int, window: nat, flushed: int)
    requires s != [] && 2 * window < RING && 1 <= window
    requires 0 <= e.streamPos < |s| && e.value == s[e.streamPos]
    requires Stored(e) && flushed < e.streamPos + window
    ensures Timely(Events(s, threshold, TooBigFor(window)), e, window, flushed)
  {
    var tooBig := TooBigFor(window);
    var events := Events(s, threshold, tooBig);
    EventsExact(s, threshold, tooBig);
    forall x | x in events && Stored(x) && RightDominant(events, x.AtPos(), window)
               && x.streamPos < e.streamPos <= x.streamPos + window
      ensures e.value <= x.value
    {
      assert EventsExactAt(s, x.streamPos, x.value, threshold, tooBig);
      if x.kind == Peak {
        RawPeakInside(s, x.streamPos, threshold, tooBig);
      }
      RightDominantSamples(s, x.streamPos, window, threshold, tooBig);
      assert NothingLargerAfter(s, x.streamPos, window);
    }
  }

  lemma TimelyNext(events: seq<RawPeak>, p: RawPeak, e: RawPeak, window: nat, flushed: int)
    requires Timely(events, e, window, flushed) && flushed < p.streamPos + window
    ensures Timely(events + [p], e, window, flushed)
  {
    forall x | x in events + [p] && Stored(x) && RightDominant(events + [p], x.AtPos(), window)
               && x.streamPos < e.streamPos <= x.streamPos + window <= flushed
      ensures e.value <= x.value
    {
      RightDominantNext(events, p, x.AtPos(), window);
    }
  }

  /** One more event of the same sample. */
  lemma EventKeepsExact(q: Queues, found: seq<RawPeak>, initial: seq<ValueAtPos>, events: seq<RawPeak>, e: RawPeak,
                        window: nat, flushed: int, horizon: int) returns (horizon': int)
    requires WellOrdered(events + [e]) && InitialFirst(initial, events + [e])
    requires Timely(events, e, window, flushed)
    requires ExactFor(q, found, initial, events, window, flushed, horizon)
    ensures var (q', more) := Feed(q, [e], window);
            ExactFor(q', found + more, initial, events + [e], window, Later(flushed, e.streamPos), horizon')
  {
    horizon' := EventKeepsInv(q, found, initial, events, e, window, flushed, horizon);
    FeedOne(q, e, window);
  }

  lemma FeedNone(q: Queues, window: nat)
    ensures Feed(q, [], window) == (q, [])
  {
  }

  lemma FeedOne(q: Queues, e: RawPeak, window: nat)
    ensures Feed(q, [e], window) == OnRawPeakEvent(q, e, window)
  {
    assert DropLast([e]) == [];
    assert Feed(q, [], window) == (q, []);
    var (q', more) := OnRawPeakEvent(q, e, window);
    assert [] + more == more;
  }

  lemma FeedTwo(q: Queues, events: seq<RawPeak>, window: nat)
    requires |events| == 2
    ensures var (q1, first) := Feed(q, [events[0]], window);
            var (q2, second) := Feed(q1, [events[1]], window);
            Feed(q, events, window) == (q2, first + second)
  {
    assert DropLast(events) == [events[0]];
    FeedOne(Feed(q, [events[0]], window).0, events[1], window);
  }

  lemma TwoEventsKeepExact(q: Queues, found: seq<RawPeak>, initial: seq<ValueAtPos>, events: seq<RawPeak>, more: seq<RawPeak>,
                           window: nat, flushed: int, horizon: int) returns (horizon': int)
    requires |more| == 2
    requires WellOrdered(events + [more[0]]) && InitialFirst(initial, events + [more[0]])
    requires WellOrdered(events + more) && InitialFirst(initial, events + more)
    requires Timely(events, more[0], window, flushed)
    requires Timely(events + [more[0]], more[1], window, Later(flushed, more[0].streamPos))
    requires ExactFor(q, found, initial, events, window, flushed, horizon)
    ensures var (q', newFound) := Feed(q, more, window);
            ExactFor(q', found + newFound, initial, events + more, window,
                     Later(Later(flushed, more[0].streamPos), more[1].streamPos), horizon')
  {
    var horizon1 := EventKeepsExact(q, found, initial, events, more[0], window, flushed, horizon);
    var (q1, first) := Feed(q, [more[0]], window);
    AppendTwo(events, more);
    horizon' := EventKeepsExact(q1, found + first, initial, events + [more[0]], more[1], window,
                                Later(flushed, more[0].streamPos), horizon1);
    FeedTwo(q, more, window);
    AppendAll(found, first, Feed(q1, [more[1]], window).1);
  }

  /** A new event is a rise at the new sample, or it is about a recent sample already seen. */
  ghost predicate AboutRecentSample(s: seq<Value>, e: RawPeak, window: nat) {
    if Stored(e) then 0 <= e.streamPos < |s| && e.value == s[e.streamPos] && |s| <= e.streamPos + window
    else e.streamPos == |s|
  }

  lemma NewEventsAreRecent(s: seq<Value>, x: Value, threshold: int, window: nat)
    requires s != [] && 2 * window < RING && 1 <= window
    ensures |NewEvents(s, x, threshold, TooBigFor(window))| <= 2
    ensures forall i :: 0 <= i < |NewEvents(s, x, threshold, TooBigFor(window))| ==>
              AboutRecentSample(s, NewEvents(s, x, threshold, TooBigFor(window))[i], window)
  {
    NewEventsAre(s, x, threshold, TooBigFor(window));
    var l := RunStart(s);
    if |s| - l < TooBigFor(window) {
      MiddleOfShortRun(l, |s|, window);
      assert s[Middle(l, |s| - 1)] == Last(s);
    }
  }

  lemma MiddleOfShortRun(l: nat, end: nat, window: nat)
    requires l < end && end - l < 2 * window
    ensures l <= Middle(l, end - 1) < end <= Middle(l, end - 1) + window
  {
  }

  lemma RecentIsTimely(s: seq<Value>, e: RawPeak, threshold: int, window: nat, flushed: int)
    requires s != [] && 2 * window < RING && 1 <= window
    requires AboutRecentSample(s, e, window) && flushed < |s|
    ensures Timely(Events(s, threshold, TooBigFor(window)), e, window, flushed) && e.streamPos <= |s|
  {
    if Stored(e) {
      TimelyStored(s, e, threshold, window, flushed);
    } else {
      TimelyRise(Events(s, threshold, TooBigFor(window)), e, window, flushed);
    }
  }

  lemma NewEventsInOrder(s: seq<Value>, x: Value, threshold: int, window: nat)
    requires s != [] && 2 * window < RING && 1 <= window
    ensures var more := NewEvents(s, x, threshold, TooBigFor(window));
            var events := Events(s, threshold, TooBigFor(window));
            && (|more| > 0 ==> WellOrdered(events + [more[0]]) && InitialFirst(InitialLockout(s), events + [more[0]]))
            && (|more| == 2 ==> Stored(more[0]))
            && WellOrdered(events + more) && InitialFirst(InitialLockout(s), events + more)
  {
    hide Detect, Step, InOrder, RisesContinue, InitialFirst, Frontier;
    var tooBig := TooBigFor(window);
    var more, events := NewEvents(s, x, threshold, tooBig), Events(s, threshold, tooBig);
    EventsWellOrdered(s, threshold, tooBig);
    NextEventsWellOrdered(s, x, threshold, tooBig);
    EventsNext(s, x, threshold, tooBig);
    InitialPrecedes(s + [x], threshold, tooBig);
    NewEventsAre(s, x, threshold, tooBig);
    assert InitialLockout(s + [x]) == InitialLockout(s);
    if |more| > 0 {
      FirstMorePrecedes(InitialLockout(s), events, more);
    }
  }

  lemma FirstMorePrecedes(initial: seq<ValueAtPos>, events: seq<RawPeak>, more: seq<RawPeak>)
    requires InitialFirst(initial, events + more) && |more| > 0
    ensures InitialFirst(initial, events + [more[0]])
  {
    assert more[0] in events + more;
  }

  lemma SampleKeepsExact(q: Queues, found: seq<RawPeak>, s: seq<Value>, x: Value, threshold: int, window: nat, flushed: int, horizon: int)
    returns (flushed': int, horizon': int)
    requires s != [] && 2 * window < RING && 1 <= window
    requires Exact(q, found, s, threshold, window, flushed, horizon)
    ensures var (q', more) := Feed(q, NewEvents(s, x, threshold, TooBigFor(window)), window);
            Exact(q', found + more, s + [x], threshold, window, flushed', horizon')
    ensures flushed <= flushed'
  {
    hide ExactFor, Detect, Feed, Step;
    var tooBig := TooBigFor(window);
    var more, events := NewEvents(s, x, threshold, tooBig), Events(s, threshold, tooBig);
    var initial := InitialLockout(s);
    NewEventsAreRecent(s, x, threshold, window);
    NewEventsInOrder(s, x, threshold, window);
    EventsNext(s, x, threshold, tooBig);
    assert InitialLockout(s + [x]) == initial;
    if |more| == 0 {
      flushed', horizon' := flushed, horizon;
      FeedNone(q, window);
      NothingAfter(events);
      NothingAfter(found);
    } else {
      var e := more[0];
      RecentIsTimely(s, e, threshold, window, flushed);
      horizon' := EventKeepsExact(q, found, initial, events, e, window, flushed, horizon);
      flushed' := Later(flushed, e.streamPos);
      if |more| == 1 {
        assert more == [e];
      } else {
        RecentIsTimely(s, more[1], threshold, window, flushed');
        TimelyNext(events, e, more[1], window, flushed');
        horizon' := TwoEventsKeepExact(q, found, initial, events, more, window, flushed, horizon);
        flushed' := Later(flushed', more[1].streamPos);
      }
    }
  }

  // ----- Blocks of samples

  lemma {:induction false} FeedSplit(q: Queues, a: seq<RawPeak>, b: seq<RawPeak>, window: nat)
    ensures var (q1, first) := Feed(q, a, window);
            var (q2, second) := Feed(q1, b, window);
            Feed(q, a + b, window) == (q2, first + second)
    decreases |b|
  {
    var (q1, first) := Feed(q, a, window);
    if b == [] {
      assert a + b == a && first + [] == first;
    } else {
      FeedSplit(q, a, DropLast(b), window);
      assert DropLast(a + b) == a + DropLast(b) && Last(a + b) == Last(b);
      var (q2, second) := Feed(q1, DropLast(b), window);
      AppendAll(first, second, OnRawPeakEvent(q2, Last(b), window).1);
    }
  }

  /** The detector's state after s. */
  function After(s: seq<Value>, threshold: int, window: nat): DetectorState
    requires 2 * window < RING
  {
    Detect(START, s, 0, threshold, TooBigFor(window)).0
  }

  /** The events that further samples raise. */
  function FurtherEvents(s: seq<Value>, data: seq<Value>, threshold: int, window: nat): seq<RawPeak>
    requires 2 * window < RING
  {
    Detect(After(s, threshold, window), data, |s|, threshold, TooBigFor(window)).1
  }

  lemma FurtherEventsNext(s: seq<Value>, data: seq<Value>, threshold: int, window: nat)
    requires data != [] && 2 * window < RING
    ensures FurtherEvents(s, data, threshold, window)
         == FurtherEvents(s, DropLast(data), threshold, window)
            + NewEvents(s + DropLast(data), Last(data), threshold, TooBigFor(window))
  {
    hide Detect, Step;
    DetectSplit(START, s, DropLast(data), 0, threshold, TooBigFor(window));
    DetectLast(After(s, threshold, window), data, |s|, threshold, TooBigFor(window));
  }

  lemma {:induction false} SamplesKeepExact(q: Queues, found: seq<RawPeak>, s: seq<Value>, data: seq<Value>, threshold: int,
                                            window: nat, flushed: int, horizon: int)
    returns (flushed': int, horizon': int)
    requires s != [] && 2 * window < RING && 1 <= window
    requires Exact(q, found, s, threshold, window, flushed, horizon)
    ensures var (q', more) := Feed(q, FurtherEvents(s, data, threshold, window), window);
            Exact(q', found + more, s + data, threshold, window, flushed', horizon')
    ensures flushed <= flushed'
    decreases |data|
  {
    if data == [] {
      flushed', horizon' := flushed, horizon;
      assert s + data == s && found + [] == found;
    } else {
      var before, x := DropLast(data), Last(data);
      flushed', horizon' := SamplesKeepExact(q, found, s, before, threshold, window, flushed, horizon);
      var (q1, first) := Feed(q, FurtherEvents(s, before, threshold, window), window);
      var flushed1 := flushed';
      flushed', horizon' := SampleKeepsExact(q1, found + first, s + before, x, threshold, window, flushed1, horizon');
      FurtherEventsNext(s, data, threshold, window);
      FeedSplit(q, FurtherEvents(s, before, threshold, window), NewEvents(s + before, x, threshold, TooBigFor(window)), window);
      AppendAll(found, first, Feed(q1, NewEvents(s + before, x, threshold, TooBigFor(window)), window).1);
      AppendSplit(s, data);
    }
  }

  lemma AppendSplit<T>(s: seq<T>, data: seq<T>)
    requires data != []
    ensures s + DropLast(data) + [Last(data)] == s + data
  {
  }

  lemma FirstSampleExact(x: Value, threshold: int, window: nat)
    requires 2 * window < RING
    ensures Exact(Queues([], [ValueAtPos(0, x)]), [], [x], threshold, window, -1, -2 * window)
    ensures FurtherEvents([], [x], threshold, window) == []
  {
    assert DropLast([x]) == [];
    assert Detect(START, [], 0, threshold, TooBigFor(window)) == (START, []);
    assert Events([x], threshold, TooBigFor(window)) == [];
    EmptyInv(InitialLockout([x]), window, -1);
  }

  /** The queues after the first block's events. */
  lemma FirstBlockExact(data: seq<Value>, threshold: int, window: nat) returns (flushed: int, horizon: int)
    requires data != [] && 2 * window < RING && 1 <= window
    ensures var (q, found) := Feed(Queues([], [ValueAtPos(0, data[0])]), FurtherEvents([], data, threshold, window), window);
            Exact(q, found, data, threshold, window, flushed, horizon)
    ensures -1 <= flushed
  {
    var q0 := Queues([], [ValueAtPos(0, data[0])]);
    FirstSampleExact(data[0], threshold, window);
    flushed, horizon := SamplesKeepExact(q0, [], [data[0]], data[1..], threshold, window, -1, -2 * window);
    FirstBlockEvents(data, threshold, window);
    NothingBefore(Feed(q0, FurtherEvents([], data, threshold, window), window).1);
  }

  lemma FirstBlockEvents(data: seq<Value>, threshold: int, window: nat)
    requires data != [] && 2 * window < RING
    ensures [data[0]] + data[1..] == data
    ensures FurtherEvents([], data, threshold, window) == FurtherEvents([data[0]], data[1..], threshold, window)
  {
    hide Detect, Exact;
    FirstSampleExact(data[0], threshold, window);
    assert [data[0]] + data[1..] == data;
    DetectNothing(START, 0, threshold, TooBigFor(window));
    DetectSplit(START, [data[0]], data[1..], 0, threshold, TooBigFor(window));
    NothingBefore(FurtherEvents([data[0]], data[1..], threshold, window));
  }

  // ----- The purge at the end of a block

  /** A plateau that is still pending never exceeds a pending right-dominant peak, so the delay
      that the finder computes for it has no effect. */
  lemma PlateauDelayIsIdle(q: Queues, found: seq<RawPeak>, s: seq<Value>, threshold: int, window: nat, flushed: int, horizon: int)
    requires s != [] && 2 * window < RING && 1 <= window
    requires Exact(q, found, s, threshold, window, flushed, horizon)
    requires q.right != []
    ensures PurgeDelay(After(s, threshold, window), q, TooBigFor(window)) == 1
  {
    hide Detect, Exact, InOrder, RisesContinue, Stored;
    var tooBig := TooBigFor(window);
    var events, d, p := Events(s, threshold, tooBig), After(s, threshold, window), Last(q.right);
    YoungestPending(q, found, s, threshold, window, flushed, horizon);
    DetectorTracks(s, threshold, tooBig);
    EventsWellOrdered(s, threshold, tooBig);
    if PendingPlateau(d, tooBig) > 0 {
      UnstartedRun(s);
      if Last(s) >= threshold {
        var rise := Last(events);
        assert rise in events && rise == RawPeak(RunStart(s), Last(s), Rising);
        OrderOfLastAppended(events);
      }
    }
  }

  /** The youngest pending entry: a stored event about a sample above the threshold, which nothing
      within its window exceeds. */
  lemma YoungestPending(q: Queues, found: seq<RawPeak>, s: seq<Value>, threshold: int, window: nat, flushed: int, horizon: int)
    requires s != [] && 2 * window < RING && 1 <= window
    requires Exact(q, found, s, threshold, window, flushed, horizon)
    requires q.right != []
    ensures var p, events := Last(q.right), Events(s, threshold, TooBigFor(window));
            && p in events && Stored(p) && RightDominant(events, p.AtPos(), window)
            && threshold <= p.value && VALUE_MIN <= p.value
            && forall e :: e in events ==> e.streamPos <= flushed < p.streamPos + window
  {
    hide Detect;
    var tooBig, p := TooBigFor(window), Last(q.right);
    assert p in q.right;
    EventsExact(s, threshold, tooBig);
    assert EventsExactAt(s, p.streamPos, p.value, threshold, tooBig);
    if p.kind == Peak {
      RawPeakInside(s, p.streamPos, threshold, tooBig);
    }
  }

  lemma OrderOfLastAppended(events: seq<RawPeak>)
    requires InOrder(events) && events != []
    ensures forall x :: x in events && Stored(x) ==> x.streamPos < Last(events).streamPos || x == Last(events)
  {
    assert events == DropLast(events) + [Last(events)];
    OrderOfLast(DropLast(events), Last(events));
  }

  lemma StoredBeforeEnd(s: seq<Value>, threshold: int, tooBig: Position, e: RawPeak)
    requires 0 < tooBig && Countable(|s|, tooBig)
    requires e in Events(s, threshold, tooBig) && Stored(e)
    ensures e.streamPos < |s| - 1
  {
    EventsExact(s, threshold, tooBig);
    assert EventsExactAt(s, e.streamPos, e.value, threshold, tooBig);
    if e.kind == Peak {
      RawPeakInside(s, e.streamPos, threshold, tooBig);
    }
  }

  /** With a window of one sample only the neighbours count, and a raw peak exceeds both. */
  lemma NarrowWindowNeverLocks(s: seq<Value>, threshold: int, p: RawPeak)
    requires s != [] && p in Events(s, threshold, TooBigFor(1)) && p.kind == Peak
    ensures !LockedOut(InitialLockout(s), Events(s, threshold, TooBigFor(1)), p.AtPos(), 1)
  {
    hide Detect, LockedOut, LockingSample, Lockout, Locks;
    var l, r := HillOfPeakEvent(s, threshold, TooBigFor(1), p);
    LockedOutSamples(s, l, r, 1, threshold, TooBigFor(1));
    assert p.AtPos() == ValueAtPos(p.streamPos, s[p.streamPos]);
    forall j ensures !LockingSample(s, l, p.streamPos, 1, j) {
      NeighbourIsLower(s, l, j);
    }
  }

  lemma NeighbourIsLower(s: seq<Value>, l: int, j: int)
    requires Hill(s, l, l)
    ensures !LockingSample(s, l, l, 1, j)
  {
  }

  lemma HillOfPeakEvent(s: seq<Value>, threshold: int, tooBig: Position, p: RawPeak) returns (l: int, r: int)
    requires 0 < tooBig && Countable(|s|, tooBig)
    requires p in Events(s, threshold, tooBig) && p.kind == Peak
    ensures Hill(s, l, r) && p.streamPos == Middle(l, r) && r - l + 1 < tooBig && s[l] >= threshold
    ensures 0 < l <= p.streamPos <= r < |s| - 1 && p.value == s[p.streamPos]
  {
    hide Detect;
    EventsExact(s, threshold, tooBig);
    assert EventsExactAt(s, p.streamPos, p.value, threshold, tooBig);
    l, r :| Hill(s, l, r) && p.streamPos == Middle(l, r) && r - l + 1 < tooBig && s[l] >= threshold;
  }

  /** Blocks that the memory purge can cope with. */
  predicate BlockFits(size: nat, window: nat) {
    window == 1 || size <= window + 2
  }

  /** The purge after a block flushes every peak whose window is complete. */
  lemma BlockEndExact(q: Queues, found: seq<RawPeak>, s: seq<Value>, before: nat, threshold: int, window: nat, flushed: int, horizon: int)
    returns (horizon': int)
    requires s != [] && 2 * window < RING && 1 <= window
    requires Exact(q, found, s, threshold, window, flushed, horizon)
    requires before <= |s| && before - 1 <= flushed && BlockFits(|s| - before, window)
    ensures var (q', more) := BlockPurge(q, s, threshold, window);
            ExactNow(q', found + more, s, threshold, window, horizon')
  {
    if q.right == [] {
      horizon' := horizon;
      NothingAfter(found);
      FlushNone(q, found, InitialLockout(s), Events(s, threshold, TooBigFor(window)), window, flushed, horizon, |s| - 1);
    } else {
      PlateauDelayIsIdle(q, found, s, threshold, window, flushed, horizon);
      PendingOutlivesPurge(q, found, s, before, threshold, window, flushed, horizon);
      horizon' := PurgeExact(q, found, s, threshold, window, flushed, horizon);
    }
  }

  lemma PurgeExact(q: Queues, found: seq<RawPeak>, s: seq<Value>, threshold: int, window: nat, flushed: int, horizon: int)
    returns (horizon': int)
    requires s != [] && 2 * window < RING && 1 <= window
    requires Exact(q, found, s, threshold, window, flushed, horizon)
    requires forall p :: p in q.right && p.kind == Peak
                         && LockedOut(InitialLockout(s), Events(s, threshold, TooBigFor(window)), p.AtPos(), window)
               ==> |s| - 1 - 2 * window - 1 <= p.streamPos
    ensures var (q', more) := PurgeUpUntil(q, |s| - 1, window);
            ExactNow(q', found + more, s, threshold, window, horizon')
  {
    StreamOrdered(s, threshold, window);
    horizon' := PurgeKeepsInv(q, found, InitialLockout(s), Events(s, threshold, TooBigFor(window)), window, flushed, horizon, |s| - 1);
  }

  lemma StreamOrdered(s: seq<Value>, threshold: int, window: nat)
    requires s != [] && 2 * window < RING && 1 <= window
    ensures var events := Events(s, threshold, TooBigFor(window));
            && WellOrdered(events) && InitialFirst(InitialLockout(s), events)
            && forall x :: x in events && Stored(x) ==> x.streamPos < |s| - 1
  {
    var tooBig := TooBigFor(window);
    EventsWellOrdered(s, threshold, tooBig);
    InitialPrecedes(s, threshold, tooBig);
    forall x | x in Events(s, threshold, tooBig) && Stored(x) ensures x.streamPos < |s| - 1 {
      StoredBeforeEnd(s, threshold, tooBig, x);
    }
  }

  lemma PendingOutlivesPurge(q: Queues, found: seq<RawPeak>, s: seq<Value>, before: nat, threshold: int, window: nat, flushed: int, horizon: int)
    requires s != [] && 2 * window < RING && 1 <= window
    requires Exact(q, found, s, threshold, window, flushed, horizon)
    requires before <= |s| && before - 1 <= flushed && BlockFits(|s| - before, window)
    ensures forall p :: p in q.right && p.kind == Peak
                        && LockedOut(InitialLockout(s), Events(s, threshold, TooBigFor(window)), p.AtPos(), window)
               ==> |s| - 1 - 2 * window - 1 <= p.streamPos
  {
    forall p | p in q.right && p.kind == Peak
               && LockedOut(InitialLockout(s), Events(s, threshold, TooBigFor(window)), p.AtPos(), window)
      ensures |s| - 1 - 2 * window - 1 <= p.streamPos
    {
      if window == 1 {
        NarrowWindowNeverLocks(s, threshold, p);
      }
    }
  }

  // ----- Whole streams

  /** The finder has reported exactly what the samples so far entail. */
  ghost predicate FinderExact(st: FinderState, found: seq<RawPeak>, s: seq<Value>, threshold: int, window: nat)
    requires 2 * window < RING
  {
    if s == [] then st == IDLE && found == []
    else
      && st.detector == After(s, threshold, window)
      && exists horizon :: ExactNow(st.queues, found, s, threshold, window, horizon)
  }

  lemma BlockEventsExact(st: FinderState, found: seq<RawPeak>, s: seq<Value>, data: seq<Value>, threshold: int, window: nat)
    returns (flushed: int, horizon: int)
    requires 2 * window < RING && 1 <= window
    requires data != []
    requires FinderExact(st, found, s, threshold, window)
    ensures var (q1, first) := Feed(BlockQueues(st.queues, data, |s|), FurtherEvents(s, data, threshold, window), window);
            Exact(q1, found + first, s + data, threshold, window, flushed, horizon)
    ensures |s| - 1 <= flushed
  {
    if s == [] {
      NothingBefore(data);
      NothingBefore([ValueAtPos(0, data[0])]);
      flushed, horizon := FirstBlockExact(data, threshold, window);
      NothingBefore(Feed(BlockQueues(st.queues, data, |s|), FurtherEvents(s, data, threshold, window), window).1);
    } else {
      var horizon0 :| ExactNow(st.queues, found, s, threshold, window, horizon0);
      flushed, horizon := SamplesKeepExact(st.queues, found, s, data, threshold, window, |s| - 1, horizon0);
    }
  }

  lemma BlockKeepsExact(st: FinderState, found: seq<RawPeak>, s: seq<Value>, data: seq<Value>, threshold: int, window: nat)
    requires 2 * window < RING && 1 <= window
    requires data != [] && BlockFits(|data|, window)
    requires FinderExact(st, found, s, threshold, window)
    ensures var (st', more) := ProcessBlock(st, data, |s|, threshold, window);
            FinderExact(st', found + more, s + data, threshold, window)
  {
    var flushed, horizon := BlockEventsExact(st, found, s, data, threshold, window);
    var (q1, first) := Feed(BlockQueues(st.queues, data, |s|), FurtherEvents(s, data, threshold, window), window);
    var horizon' := BlockEndExact(q1, found + first, s + data, |s|, threshold, window, flushed, horizon);
    BlockUnfolds(st, s, data, threshold, window);
    AppendAll(found, first, BlockPurge(q1, s + data, threshold, window).1);
  }

  function BlockPurge(q: Queues, s: seq<Value>, threshold: int, window: nat): (Queues, seq<RawPeak>)
    requires 2 * window < RING
  {
    PurgeUpUntil(q, |s| - PurgeDelay(After(s, threshold, window), q, TooBigFor(window)), window)
  }

  lemma BlockUnfolds(st: FinderState, s: seq<Value>, data: seq<Value>, threshold: int, window: nat)
    requires data != [] && 2 * window < RING
    requires st.detector == After(s, threshold, window)
    ensures var (q1, first) := Feed(BlockQueues(st.queues, data, |s|), FurtherEvents(s, data, threshold, window), window);
            var (q2, more) := BlockPurge(q1, s + data, threshold, window);
            ProcessBlock(st, data, |s|, threshold, window) == (FinderState(After(s + data, threshold, window), q2), first + more)
  {
    hide Detect, Feed, PurgeUpUntil, PurgeDelay, BlockQueues;
    DetectSplit(START, s, data, 0, threshold, TooBigFor(window));
    assert |s + data| == |s| + |data|;
  }

  predicate BlocksFit(blocks: seq<seq<Value>>, window: nat) {
    forall i :: 0 <= i < |blocks| ==> BlockFits(|blocks[i]|, window)
  }

  lemma {:induction false} RunIsExact(blocks: seq<seq<Value>>, threshold: int, window: nat)
    requires 2 * window < RING && 1 <= window
    requires NonEmptyBlocks(blocks) && BlocksFit(blocks, window)
    ensures var (st, found) := ProcessBlocks(IDLE, blocks, threshold, window);
            FinderExact(st, found, Flatten(blocks), threshold, window)
    decreases |blocks|
  {
    if blocks != [] {
      RunIsExact(DropLast(blocks), threshold, window);
      var (st, found) := ProcessBlocks(IDLE, DropLast(blocks), threshold, window);
      BlockKeepsExact(st, found, Flatten(DropLast(blocks)), Last(blocks), threshold, window);
    }
  }

  /** Both queues run in order of position with values that do not increase, and the right queue
      lies within a window of the last sample. */
  ghost predicate QueuesDescend(q: Queues, window: nat, last: int) {
    && MemoryOrdered(q.memory)
    && Ascending(q.right)
    && (forall i, j :: 0 <= i < j < |q.right| ==> q.right[i].value >= q.right[j].value)
    && (forall e :: e in q.right ==> last - window < e.streamPos <= last)
  }

  lemma InvDescends(q: Queues, found: seq<RawPeak>, initial: seq<ValueAtPos>, events: seq<RawPeak>,
                    window: nat, flushed: int, horizon: int)
    requires Inv(q, found, initial, events, window, flushed, horizon)
    requires forall e :: e in events ==> e.streamPos <= flushed
    ensures QueuesDescend(q, window, flushed)
  {
    forall i, j | 0 <= i < j < |q.right| ensures q.right[i].value >= q.right[j].value {
      assert q.right[i] in q.right && q.right[j] in q.right;
      assert RightDominant(events, q.right[i].AtPos(), window);
    }
  }

  lemma RunKeepsQueuesOrdered(blocks: seq<seq<Value>>, threshold: int, window: nat)
    requires 2 * window < RING && 1 <= window
    requires NonEmptyBlocks(blocks) && BlocksFit(blocks, window) && blocks != []
    ensures QueuesDescend(ProcessBlocks(IDLE, blocks, threshold, window).0.queues, window, |Flatten(blocks)| - 1)
  {
    RunIsExact(blocks, threshold, window);
    var (st, found) := ProcessBlocks(IDLE, blocks, threshold, window);
    var s := Flatten(blocks);
    assert s != [] by {
      assert Last(blocks) != [];
    }
    var horizon :| ExactNow(st.queues, found, s, threshold, window, horizon);
    InvDescends(st.queues, found, InitialLockout(s), Events(s, threshold, TooBigFor(window)), window, |s| - 1, horizon);
  }
}
