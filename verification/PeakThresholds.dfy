/** StreamingPeakFinder::process (dsp/peakfinder.hpp:462-517) with a threshold of its own for every
    block: what the purge at a block's end may report while later events are still to come, and what
    it may leave pending. `PeakTheorems` answers for one threshold; this holds for all. */
module PeakThresholds {
  import opened RingMath
  import opened PeakTypes
  import opened PeakDetector
  import opened PeakPipeline
  import opened PeakSpacing
  import opened PeakLevels
  import opened Sequences
  import D = DominantPeaks

  // ----- What later events may still say about what was reported

  /** The stream ends with a risen plateau that may still become a peak. */
  ghost predicate OpenPlateau(s: seq<Value>, window: nat)
    requires s != []
  {
    RunStart(s) > 0 && s[RunStart(s) - 1] < Last(s) && |s| - RunStart(s) < 2 * window
  }

  /** A block ended with sample k, and no plateau was open there. */
  ghost predicate EndsClosed(s: seq<Value>, k: int, window: nat, ends: set<int>) {
    0 <= k < |s| && k + 1 in ends && !OpenPlateau(s[..k + 1], window)
  }

  /** Nothing raised within the window after p is larger, except perhaps a fall at the window's very
      end, if a block ended with it and no plateau was open there. */
  ghost predicate Unexceeded(p: RawPeak, events: seq<RawPeak>, s: seq<Value>, window: nat, ends: set<int>) {
    forall e :: e in events && p.streamPos < e.streamPos <= p.streamPos + window && e.value > p.value ==>
      e.kind == Falling && e.streamPos == p.streamPos + window && EndsClosed(s, e.streamPos, window, ends)
  }

  /** Samples that events from `bound` on may be about do not exceed p, except as above. Only while
      `last` is the last sample of a block that ended just now may the exception still arise. */
  ghost predicate Settled(p: RawPeak, s: seq<Value>, window: nat, bound: int, last: int, ends: set<int>) {
    forall k :: bound <= k <= p.streamPos + window && p.streamPos < k ==>
      0 <= k < |s| && (s[k] <= p.value || (k == last == p.streamPos + window && EndsClosed(s, k, window, ends)))
  }

  ghost predicate AboutSamples(events: seq<RawPeak>, s: seq<Value>, bound: int) {
    forall e :: e in events ==> 0 <= e.streamPos < |s| && e.value == s[e.streamPos] && e.streamPos <= bound
  }

  ghost predicate Descends(right: seq<RawPeak>) {
    forall i, j :: 0 <= i < j < |right| ==> right[i].value >= right[j].value
  }

  /** What is pending is right-dominant so far. */
  ghost predicate PendingUnexceeded(right: seq<RawPeak>, events: seq<RawPeak>, window: nat) {
    Descends(right) && forall p :: p in right ==> p in events && D.RightDominant(events, p.AtPos(), window)
  }

  ghost predicate ReportUnexceeded(found: seq<RawPeak>, events: seq<RawPeak>, s: seq<Value>, window: nat, bound: int, last: int, ends: set<int>) {
    forall p :: p in found ==>
      && p in events && p.kind == Peak && p.streamPos + window < |s|
      && Unexceeded(p, events, s, window, ends)
      && Settled(p, s, window, bound, last, ends)
  }

  ghost predicate Kept(q: D.Queues, found: seq<RawPeak>, events: seq<RawPeak>, s: seq<Value>, window: nat, bound: int, last: int, ends: set<int>) {
    && Orderly(q, window, bound, 0)
    && AboutSamples(events, s, bound)
    && PendingUnexceeded(q.right, events, window)
    && ReportUnexceeded(found, events, s, window, bound, last, ends)
  }

  // ----- A flush takes the front of the right queue

  /** What a flush leaves is the end of the right queue; what it reports are peaks of the rest. */
  lemma {:induction false} FlushIsSuffix(q: D.Queues, now: int, window: nat) returns (n: nat)
    ensures var (q', found) := D.Flush(q, now, window);
            && n <= |q.right| && q'.right == q.right[n..]
            && forall p :: p in found ==> p in q.right && p.kind == Peak && now - p.streamPos >= window
    decreases |q.right|
  {
    n := 0;
    if q.right != [] && now - q.right[0].streamPos >= window {
      var p := q.right[0];
      var kept := D.LeftDominators(q.memory, p, window);
      var rest := D.Queues(q.right[1..], kept + [p.AtPos()]);
      var m := FlushIsSuffix(rest, now, window);
      assert q.right[1..][m..] == q.right[m + 1..];
      n := m + 1;
    }
  }

  lemma SuffixDescends(right: seq<RawPeak>, events: seq<RawPeak>, window: nat, n: nat)
    requires PendingUnexceeded(right, events, window) && n <= |right|
    ensures PendingUnexceeded(right[n..], events, window)
  {
  }

  // ----- One event

  /** The earliest event that may follow e, if that is the last one about its sample. */
  function BoundOnceRaised(e: RawPeak): int {
    if e.kind == Rising then e.streamPos else e.streamPos + 1
  }

  /** An event fits what is known: it is about a sample seen, not before `bound`, and once no plateau
      was open at `last`, only a fall can be about that sample. */
  ghost predicate Fits(e: RawPeak, s: seq<Value>, window: nat, bound: int, last: int) {
    && bound <= e.streamPos && 0 <= e.streamPos < |s| && e.value == s[e.streamPos]
    && (e.kind == Rising ==> 1 <= e.streamPos)
    && (e.streamPos == last && 0 <= last && !OpenPlateau(s[..last + 1], window) ==> e.kind == Falling)
  }

  /** What survives an event that is not larger, or out of its reach. */
  lemma EnqueuedUnexceeded(right: seq<RawPeak>, events: seq<RawPeak>, e: RawPeak, s: seq<Value>, window: nat, bound: int)
    requires D.Ascending(right) && PendingUnexceeded(right, events, window) && AboutSamples(events, s, bound)
    requires bound <= e.streamPos
    ensures forall p :: p in D.Enqueue(right, e, window) ==> p in events + [e] && D.RightDominant(events + [e], p.AtPos(), window)
    ensures var kept := D.Enqueue(right, e, window);
            forall i, j :: 0 <= i < j < |kept| && e.streamPos - kept[i].streamPos < window ==> kept[i].value >= kept[j].value
  {
    hide D.DropDominated;
    D.DropDominatedFilters(right, e, window);
    var kept := D.DropDominated(right, e, window);
    forall p | p in D.Enqueue(right, e, window)
      ensures p in events + [e] && D.RightDominant(events + [e], p.AtPos(), window)
    {
      D.RightDominantNext(events, e, p.AtPos(), window);
      assert p in kept || p == e;
    }
    forall i | 0 <= i < |kept| ensures kept[i] in kept && kept[i] == right[i] {
    }
  }

  lemma FlushedUnexceeded(q: D.Queues, events: seq<RawPeak>, now: int, window: nat)
    requires 1 <= window && D.Ascending(q.right)
    requires forall p :: p in q.right ==> p in events && D.RightDominant(events, p.AtPos(), window)
    requires forall i, j :: 0 <= i < j < |q.right| && now - q.right[i].streamPos < window ==> q.right[i].value >= q.right[j].value
    ensures PendingUnexceeded(D.Flush(q, now, window).0.right, events, window)
  {
    hide D.Flush, D.Ascending, D.RightDominant;
    var n := FlushIsSuffix(q, now, window);
    FlushLeavesYoung(q, now, window);
    var rest := D.Flush(q, now, window).0.right;
    forall i, j | 0 <= i < j < |rest| ensures rest[i].value >= rest[j].value {
      assert rest[i] in rest;
      assert rest[i] == q.right[n + i] && rest[j] == q.right[n + j];
    }
  }

  /** What was reported stays unexceeded. */
  lemma ReportNext(found: seq<RawPeak>, events: seq<RawPeak>, e: RawPeak, s: seq<Value>, window: nat, bound: int, last: int, ends: set<int>)
    requires ReportUnexceeded(found, events, s, window, bound, last, ends) && Fits(e, s, window, bound, last)
    ensures ReportUnexceeded(found, events + [e], s, window, BoundOnceRaised(e), last, ends)
  {
    hide OpenPlateau;
    forall p | p in found
      ensures Unexceeded(p, events + [e], s, window, ends) && Settled(p, s, window, BoundOnceRaised(e), last, ends)
    {
      assert Unexceeded(p, events, s, window, ends) && Settled(p, s, window, bound, last, ends);
    }
  }

  /** What a flush at an event reports. */
  lemma ReportedByEvent(q: D.Queues, events: seq<RawPeak>, e: RawPeak, s: seq<Value>, window: nat, last: int, ends: set<int>)
    requires e in events && 0 <= e.streamPos < |s| && e.value == s[e.streamPos]
    requires forall p :: p in q.right ==> p in events && D.RightDominant(events, p.AtPos(), window)
    ensures ReportUnexceeded(D.Flush(q, e.streamPos, window).1, events, s, window, BoundOnceRaised(e), last, ends)
  {
    hide D.Flush;
    var n := FlushIsSuffix(q, e.streamPos, window);
  }

  lemma ReportJoined(found: seq<RawPeak>, more: seq<RawPeak>, events: seq<RawPeak>, s: seq<Value>, window: nat, bound: int, last: int, ends: set<int>)
    requires ReportUnexceeded(found, events, s, window, bound, last, ends)
    requires ReportUnexceeded(more, events, s, window, bound, last, ends)
    ensures ReportUnexceeded(found + more, events, s, window, bound, last, ends)
  {
  }

  lemma EventKept(q: D.Queues, found: seq<RawPeak>, events: seq<RawPeak>, e: RawPeak, s: seq<Value>, window: nat, bound: int, last: int, ends: set<int>)
    requires 1 <= window && Kept(q, found, events, s, window, bound, last, ends) && Fits(e, s, window, bound, last)
    ensures var (q', more) := D.OnRawPeakEvent(q, e, window);
            Kept(q', found + more, events + [e], s, window, BoundOnceRaised(e), last, ends)
  {
    hide D.Enqueue, D.Flush, OpenPlateau, PendingUnexceeded, ReportUnexceeded, D.RightDominant;
    var admitted := D.Queues(D.Enqueue(q.right, e, window), q.memory);
    BehindEvent(q, e, bound);
    EventKeepsOrder(q, e, window, bound, 0);
    BehindLater(D.OnRawPeakEvent(q, e, window).0, BoundAfter(bound, e), BoundOnceRaised(e));
    EnqueueSpaced(q, e, window);
    EnqueuedUnexceeded(q.right, events, e, s, window, bound);
    FlushedUnexceeded(admitted, events + [e], e.streamPos, window);
    ReportNext(found, events, e, s, window, bound, last, ends);
    ReportedByEvent(admitted, events + [e], e, s, window, last, ends);
    ReportJoined(found, D.Flush(admitted, e.streamPos, window).1, events + [e], s, window, BoundOnceRaised(e), last, ends);
  }

  // ----- One sample

  /** Raising the bound and moving on to a later last sample. */
  lemma KeptLater(q: D.Queues, found: seq<RawPeak>, events: seq<RawPeak>, s: seq<Value>, window: nat,
                  bound: int, later: int, last: int, last': int, ends: set<int>)
    requires Kept(q, found, events, s, window, bound, last, ends)
    requires bound <= later && (last < later || last == last' || !EndsClosed(s, last, window, ends))
    ensures Kept(q, found, events, s, window, later, last', ends)
  {
    hide EndsClosed;
    BehindLater(q, bound, later);
  }

  lemma EndsClosedNext(s: seq<Value>, x: Value, k: int, window: nat, ends: set<int>)
    requires EndsClosed(s, k, window, ends)
    ensures EndsClosed(s + [x], k, window, ends)
  {
    assert (s + [x])[..k + 1] == s[..k + 1];
  }

  lemma KeptSeen(q: D.Queues, found: seq<RawPeak>, events: seq<RawPeak>, s: seq<Value>, x: Value, window: nat,
                 bound: int, last: int, ends: set<int>)
    requires Kept(q, found, events, s, window, bound, last, ends)
    ensures Kept(q, found, events, s + [x], window, bound, last, ends)
  {
    hide EndsClosed, Orderly;
    forall k | EndsClosed(s, k, window, ends) ensures EndsClosed(s + [x], k, window, ends) {
      EndsClosedNext(s, x, k, window, ends);
    }
    forall p | p in found ensures Unexceeded(p, events, s + [x], window, ends) && Settled(p, s + [x], window, bound, last, ends) {
    }
  }

  lemma PlateauIsOpen(d: DetectorState, s: seq<Value>, window: nat)
    requires s != [] && 1 <= window && 2 * window < RING && Tracks(d, s, TooBigFor(window))
    ensures 0 < d.plateauSize < TooBigFor(window) <==> OpenPlateau(s, window)
    ensures OpenPlateau(s, window) ==> d.plateauSize == |s| - RunStart(s)
    ensures d.lastValue == Last(s)
  {
    UnstartedIsFirstRun(s);
  }

  /** What one more sample raises fits what is known. */
  lemma StepFits(d: DetectorState, s: seq<Value>, x: Value, level: int, window: nat)
    requires 1 <= window && 2 * window < RING && Tracks(d, s, TooBigFor(window))
    ensures var (d', more) := Step(d, x, |s|, level, TooBigFor(window));
            var bound, later := EarliestEvent(d, |s|, TooBigFor(window)), EarliestEvent(d', |s| + 1, TooBigFor(window));
            && |more| <= 2 && bound <= later
            && (s != [] && !OpenPlateau(s, window) ==> |s| <= later)
            && (|more| >= 1 ==> Fits(more[0], s + [x], window, bound, |s| - 1) && BoundOnceRaised(more[0]) <= later)
            && (|more| == 2 ==> Fits(more[1], s + [x], window, BoundOnceRaised(more[0]), |s| - 1) && BoundOnceRaised(more[1]) <= later)
  {
    hide OpenPlateau, Unstarted;
    if s != [] {
      PlateauIsOpen(d, s, window);
      assert (s + [x])[..|s|] == s;
    }
  }

  /** The stream so far: what the detector remembers and what the isolator did with it. */
  ghost predicate KeptBy(d: DetectorState, q: D.Queues, found: seq<RawPeak>, events: seq<RawPeak>, s: seq<Value>, window: nat, ends: set<int>)
    requires 2 * window < RING
  {
    && Tracks(d, s, TooBigFor(window))
    && Kept(q, found, events, s, window, EarliestEvent(d, |s|, TooBigFor(window)), |s| - 1, ends)
  }

  lemma SampleKept(d: DetectorState, q: D.Queues, found: seq<RawPeak>, events: seq<RawPeak>, s: seq<Value>, x: Value, level: int,
                   window: nat, ends: set<int>)
    requires 1 <= window && 2 * window < RING && KeptBy(d, q, found, events, s, window, ends)
    ensures var (d', more) := Step(d, x, |s|, level, TooBigFor(window));
            var (q', newFound) := D.Feed(q, more, window);
            KeptBy(d', q', found + newFound, events + more, s + [x], window, ends)
  {
    hide Step, Kept, Fits, OpenPlateau, EarliestEvent, BoundOnceRaised, D.OnRawPeakEvent, Tracks;
    var (d', more) := Step(d, x, |s|, level, TooBigFor(window));
    var bound, later, last := EarliestEvent(d, |s|, TooBigFor(window)), EarliestEvent(d', |s| + 1, TooBigFor(window)), |s| - 1;
    var s' := s + [x];
    StepTracks(d, s, x, level, TooBigFor(window));
    StepFits(d, s, x, level, window);
    KeptSeen(q, found, events, s, x, window, bound, last, ends);
    if s != [] && !OpenPlateau(s, window) {
      assert last < later;
    } else {
      StillOpen(s, x, last, window, ends);
    }
    if |more| == 0 {
      FeedNone(q, window);
      NothingAfter(events);
      NothingAfter(found);
      KeptLater(q, found, events, s', window, bound, later, last, |s|, ends);
    } else {
      var (q1, first) := D.OnRawPeakEvent(q, more[0], window);
      EventKept(q, found, events, more[0], s', window, bound, last, ends);
      FeedOne(q, more[0], window);
      if |more| == 1 {
        assert more == [more[0]];
        KeptLater(q1, found + first, events + more, s', window, BoundOnceRaised(more[0]), later, last, |s|, ends);
      } else {
        var (q2, second) := D.OnRawPeakEvent(q1, more[1], window);
        EventKept(q1, found + first, events + [more[0]], more[1], s', window, BoundOnceRaised(more[0]), last, ends);
        FeedTwo(q, more, window);
        FeedOne(q1, more[1], window);
        AppendTwo(events, more);
        AppendAll(found, first, second);
        KeptLater(q2, found + (first + second), events + more, s', window, BoundOnceRaised(more[1]), later, last, |s|, ends);
      }
    }
  }

  /** While a plateau is open nothing is excused. */
  lemma StillOpen(s: seq<Value>, x: Value, last: int, window: nat, ends: set<int>)
    requires last == |s| - 1 && (s == [] || OpenPlateau(s, window))
    ensures !EndsClosed(s + [x], last, window, ends)
  {
    if s != [] {
      assert (s + [x])[..last + 1] == s;
    }
  }

  lemma {:induction false} SamplesKept(d: DetectorState, q: D.Queues, found: seq<RawPeak>, events: seq<RawPeak>, s: seq<Value>, data: seq<Value>,
                                       threshold: int, window: nat, ends: set<int>)
    requires 1 <= window && 2 * window < RING && KeptBy(d, q, found, events, s, window, ends)
    ensures var (d', more) := Detect(d, data, |s|, threshold, TooBigFor(window));
            var (q', newFound) := D.Feed(q, more, window);
            KeptBy(d', q', found + newFound, events + more, s + data, window, ends)
    decreases |data|
  {
    hide KeptBy, Step, Detect, D.Feed;
    if data == [] {
      DetectNothing(d, |s|, threshold, TooBigFor(window));
      FeedNone(q, window);
      NothingAfter(s);
      NothingAfter(found);
      NothingAfter(events);
    } else {
      var before, x := DropLast(data), Last(data);
      SamplesKept(d, q, found, events, s, before, threshold, window, ends);
      var (d1, first) := Detect(d, before, |s|, threshold, TooBigFor(window));
      var (q1, found1) := D.Feed(q, first, window);
      SampleKept(d1, q1, found + found1, events + first, s + before, x, threshold, window, ends);
      var more := Step(d1, x, |s + before|, threshold, TooBigFor(window)).1;
      DetectLast(d, data, |s|, threshold, TooBigFor(window));
      FeedSplit(q, first, more, window);
      AppendAll(events, first, more);
      AppendAll(found, found1, D.Feed(q1, more, window).1);
      AppendSplit(s, data);
    }
  }

  // ----- The purge at the end of a block

  /** What the block's purge reports: its position comes before an open plateau that exceeds what is
      pending, and otherwise is the last sample. */
  lemma ReportedByPurge(d: DetectorState, q: D.Queues, events: seq<RawPeak>, s: seq<Value>, pos: int, window: nat, ends: set<int>, p: RawPeak)
    requires 1 <= window && 2 * window < RING && s != [] && Tracks(d, s, TooBigFor(window))
    requires q.right != [] && PendingUnexceeded(q.right, events, window)
    requires p in q.right && pos - p.streamPos >= window && |s| in ends
    requires pos == |s| - PurgeDelay(d, q, TooBigFor(window))
    ensures Settled(p, s, window, EarliestEvent(d, |s|, TooBigFor(window)), |s| - 1, ends)
    ensures p.streamPos + window < |s|
  {
    hide OpenPlateau, D.RightDominant, Tracks;
    PlateauIsOpen(d, s, window);
    var i :| 0 <= i < |q.right| && q.right[i] == p;
    assert p.value >= Last(q.right).value;
    if !OpenPlateau(s, window) {
      assert s[..|s|] == s;
    }
  }

  lemma EndsGrow(q: D.Queues, found: seq<RawPeak>, events: seq<RawPeak>, s: seq<Value>, window: nat, bound: int, last: int, ends: set<int>, end: int)
    requires Kept(q, found, events, s, window, bound, last, ends)
    ensures Kept(q, found, events, s, window, bound, last, ends + {end})
  {
    hide OpenPlateau, Orderly;
    forall p | p in found
      ensures Unexceeded(p, events, s, window, ends + {end}) && Settled(p, s, window, bound, last, ends + {end})
    {
    }
  }

  lemma PurgeKept(d: DetectorState, q: D.Queues, found: seq<RawPeak>, events: seq<RawPeak>, s: seq<Value>, window: nat, ends: set<int>)
    requires 1 <= window && 2 * window < RING && s != [] && KeptBy(d, q, found, events, s, window, ends)
    ensures var (q', more) := D.PurgeUpUntil(q, |s| - PurgeDelay(d, q, TooBigFor(window)), window);
            KeptBy(d, q', found + more, events, s, window, ends + {|s|})
  {
    hide PurgeDelay, D.Flush, D.DropAged, Orderly, EarliestEvent, Tracks, D.RightDominant, EndsClosed;
    var pos, bound := |s| - PurgeDelay(d, q, TooBigFor(window)), EarliestEvent(d, |s|, TooBigFor(window));
    EndsGrow(q, found, events, s, window, bound, |s| - 1, ends, |s|);
    if q.right == [] || Last(q.right).streamPos >= pos {
      NothingAfter(found);
    } else {
      var purged := q.(memory := D.DropAged(q.memory, pos, 3 * window + 1));
      var n := FlushIsSuffix(purged, pos, window);
      SuffixDescends(q.right, events, window, n);
      PurgedOrder(q, pos, window, bound);
      var more := D.Flush(purged, pos, window).1;
      forall p | p in more
        ensures p in q.right && p.kind == Peak && Settled(p, s, window, bound, |s| - 1, ends + {|s|}) && p.streamPos + window < |s|
        ensures Unexceeded(p, events, s, window, ends + {|s|})
      {
        ReportedByPurge(d, q, events, s, pos, window, ends + {|s|}, p);
        DominantIsUnexceeded(p, events, s, window, ends + {|s|});
      }
      ReportJoined(found, more, events, s, window, bound, |s| - 1, ends + {|s|});
    }
  }

  lemma DominantIsUnexceeded(p: RawPeak, events: seq<RawPeak>, s: seq<Value>, window: nat, ends: set<int>)
    requires D.RightDominant(events, p.AtPos(), window)
    ensures Unexceeded(p, events, s, window, ends)
  {
  }

  lemma PurgedOrder(q: D.Queues, pos: int, window: nat, bound: int)
    requires Orderly(q, window, bound, 0)
    ensures Orderly(D.PurgeUpUntil(q, pos, window).0, window, bound, 0)
    ensures Recent(D.PurgeUpUntil(q, pos, window).0.right, pos - window + 1)
  {
    PurgeKeepsOrder(q, pos, window, bound);
  }

  // ----- Whole runs

  function BlockEnds(blocks: seq<seq<Value>>): set<int> {
    if blocks == [] then {} else BlockEnds(DropLast(blocks)) + {|Flatten(blocks)|}
  }

  /** All that the detector raises in a run. */
  function Raised(blocks: seq<seq<Value>>, thresholds: seq<int>, window: nat): seq<RawPeak>
    requires |blocks| == |thresholds| && 2 * window < RING
  {
    Observe(Flatten(blocks), Levels(blocks, thresholds), TooBigFor(window)).1
  }

  ghost predicate RunKept(st: FinderState, found: seq<RawPeak>, events: seq<RawPeak>, s: seq<Value>, window: nat, ends: set<int>)
    requires 2 * window < RING
  {
    if s == [] then st == IDLE && found == [] && events == []
    else KeptBy(st.detector, st.queues, found, events, s, window, ends)
  }

  lemma FirstSampleKept(x: Value, window: nat, ends: set<int>)
    requires 1 <= window && 2 * window < RING
    ensures KeptBy(START, D.Queues([], [] + [ValueAtPos(0, x)]), [], [], [], window, ends)
  {
    hide OpenPlateau, EndsClosed, Tracks;
    NothingTracked(TooBigFor(window));
    NothingBefore([ValueAtPos(0, x)]);
    OneRemembered(x, window);
  }

  lemma OneRemembered(x: Value, window: nat)
    ensures Orderly(D.Queues([], [ValueAtPos(0, x)]), window, 0, 0)
  {
  }

  lemma BlockKept(st: FinderState, found: seq<RawPeak>, events: seq<RawPeak>, s: seq<Value>, data: seq<Value>, threshold: int,
                  window: nat, ends: set<int>)
    requires 1 <= window && 2 * window < RING && data != []
    requires RunKept(st, found, events, s, window, ends)
    ensures var (st', more) := ProcessBlock(st, data, |s|, threshold, window);
            var raised := Detect(st.detector, data, |s|, threshold, TooBigFor(window)).1;
            RunKept(st', found + more, events + raised, s + data, window, ends + {|s + data|})
  {
    hide KeptBy, Detect, D.Feed, D.PurgeUpUntil, PurgeDelay;
    var q := BlockQueues(st.queues, data, |s|);
    if s == [] {
      FirstSampleKept(data[0], window, ends);
    }
    SamplesKept(st.detector, q, found, events, s, data, threshold, window, ends);
    var (d, raised) := Detect(st.detector, data, |s|, threshold, TooBigFor(window));
    var (q1, first) := D.Feed(q, raised, window);
    PurgeKept(d, q1, found + first, events + raised, s + data, window, ends);
    AppendAll(found, first, D.PurgeUpUntil(q1, |s + data| - PurgeDelay(d, q1, TooBigFor(window)), window).1);
  }

  lemma {:induction false} RunIsKept(blocks: seq<seq<Value>>, thresholds: seq<int>, window: nat)
    requires 1 <= window && 2 * window < RING && Matching(blocks, thresholds)
    ensures var (st, found) := ProcessEach(blocks, thresholds, window);
            && st.detector == Observe(Flatten(blocks), Levels(blocks, thresholds), TooBigFor(window)).0
            && RunKept(st, found, Raised(blocks, thresholds, window), Flatten(blocks), window, BlockEnds(blocks))
    decreases |blocks|
  {
    hide KeptBy, ProcessBlock, Detect;
    if blocks != [] {
      var before, lower, data, threshold := DropLast(blocks), DropLast(thresholds), Last(blocks), Last(thresholds);
      RunIsKept(before, lower, window);
      var (st, found) := ProcessEach(before, lower, window);
      BlockKept(st, found, Raised(before, lower, window), Flatten(before), data, threshold, window, BlockEnds(before));
      ObserveBlock(Flatten(before), Levels(before, lower), data, threshold, TooBigFor(window));
      DetectorAfterBlock(st, data, |Flatten(before)|, threshold, window);
    }
  }

  lemma DetectorAfterBlock(st: FinderState, data: seq<Value>, n: nat, threshold: int, window: nat)
    requires data != [] && 2 * window < RING
    ensures ProcessBlock(st, data, n, threshold, window).0.detector == Detect(st.detector, data, n, threshold, TooBigFor(window)).0
  {
  }

  lemma NonEmptyRun(blocks: seq<seq<Value>>, thresholds: seq<int>)
    requires Matching(blocks, thresholds) && blocks != []
    ensures Flatten(blocks) != []
  {
    assert Last(blocks) != [];
  }

  /** Something larger raised within the window after p. */
  ghost predicate Exceeds(e: RawPeak, p: RawPeak, window: nat) {
    p.streamPos < e.streamPos <= p.streamPos + window && e.value > p.value
  }

  /** Nothing that the detector raises, early or late, exceeds a reported peak within the window:
      above all no peak does whose plateau was still open when the block ended. The one exception
      is a fall at the window's very end, if a block ended with that sample and no plateau was open. */
  lemma ReportedIsUnexceeded(blocks: seq<seq<Value>>, thresholds: seq<int>, window: nat, p: RawPeak, e: RawPeak)
    requires 1 <= window && 2 * window < RING && Matching(blocks, thresholds)
    requires p in ProcessEach(blocks, thresholds, window).1
    ensures p in Raised(blocks, thresholds, window) && p.kind == Peak && p.streamPos + window < |Flatten(blocks)|
    ensures e in Raised(blocks, thresholds, window) && Exceeds(e, p, window) ==>
              && e.kind == Falling && e.streamPos == p.streamPos + window
              && EndsClosed(Flatten(blocks), e.streamPos, window, BlockEnds(blocks))
  {
    RunIsKept(blocks, thresholds, window);
  }

  /** Pending after a block: younger than the window, or within the window of the first sample of an
      open plateau that exceeds all that is pending. */
  ghost predicate Awaited(p: RawPeak, right: seq<RawPeak>, s: seq<Value>, window: nat)
    requires s != [] && right != []
  {
    || |s| - 1 < p.streamPos + window
    || (OpenPlateau(s, window) && Last(s) > Last(right).value && RunStart(s) <= p.streamPos + window)
  }

  lemma PurgeIsPrompt(d: DetectorState, q: D.Queues, found: seq<RawPeak>, events: seq<RawPeak>, s: seq<Value>, window: nat, ends: set<int>)
    requires 1 <= window && 2 * window < RING && s != [] && KeptBy(d, q, found, events, s, window, ends)
    ensures var right := D.PurgeUpUntil(q, |s| - PurgeDelay(d, q, TooBigFor(window)), window).0.right;
            forall p :: p in right ==> Awaited(p, right, s, window)
  {
    hide D.Flush, D.DropAged, OpenPlateau, Tracks, PendingUnexceeded, ReportUnexceeded, AboutSamples, Spaced, Behind, Recent;
    var pos := |s| - PurgeDelay(d, q, TooBigFor(window));
    PlateauIsOpen(d, s, window);
    PurgedOrder(q, pos, window, EarliestEvent(d, |s|, TooBigFor(window)));
    var right := D.PurgeUpUntil(q, pos, window).0.right;
    var n := FlushIsSuffix(q.(memory := D.DropAged(q.memory, pos, 3 * window + 1)), pos, window);
    assert right != [] ==> q.right != [] && Last(right) == Last(q.right);
    forall p | p in right ensures Awaited(p, right, s, window) {
      RecentEntry(right, pos - window + 1, p);
    }
  }

  lemma RecentEntry(right: seq<RawPeak>, low: int, p: RawPeak)
    requires Recent(right, low) && p in right
    ensures low <= p.streamPos
  {
  }

  lemma BlockIsPrompt(st: FinderState, found: seq<RawPeak>, events: seq<RawPeak>, s: seq<Value>, data: seq<Value>, threshold: int,
                      window: nat, ends: set<int>)
    requires 1 <= window && 2 * window < RING && data != []
    requires RunKept(st, found, events, s, window, ends)
    ensures var right := ProcessBlock(st, data, |s|, threshold, window).0.queues.right;
            forall p :: p in right ==> Awaited(p, right, s + data, window)
  {
    hide KeptBy, Detect, D.Feed, D.PurgeUpUntil, PurgeDelay, Awaited;
    var q := BlockQueues(st.queues, data, |s|);
    if s == [] {
      FirstSampleKept(data[0], window, ends);
    }
    SamplesKept(st.detector, q, found, events, s, data, threshold, window, ends);
    var (d, raised) := Detect(st.detector, data, |s|, threshold, TooBigFor(window));
    var (q1, first) := D.Feed(q, raised, window);
    PurgeIsPrompt(d, q1, found + first, events + raised, s + data, window, ends);
  }

  /** Nothing stays pending without need. */
  lemma PendingIsAwaited(blocks: seq<seq<Value>>, thresholds: seq<int>, window: nat, p: RawPeak)
    requires 1 <= window && 2 * window < RING && Matching(blocks, thresholds) && blocks != []
    requires p in ProcessEach(blocks, thresholds, window).0.queues.right
    ensures Flatten(blocks) != [] && Awaited(p, ProcessEach(blocks, thresholds, window).0.queues.right, Flatten(blocks), window)
  {
    hide ProcessBlock, Awaited, RunKept;
    var before, lower := DropLast(blocks), DropLast(thresholds);
    NonEmptyRun(blocks, thresholds);
    RunIsKept(before, lower, window);
    var (st, found) := ProcessEach(before, lower, window);
    BlockIsPrompt(st, found, Raised(before, lower, window), Flatten(before), Last(blocks), Last(thresholds), window, BlockEnds(before));
  }
}
