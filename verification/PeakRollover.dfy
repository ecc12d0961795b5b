/** How long a stream may get before the stream position's rolling over shows
    (dsp/peakfinder.hpp:328-331): exactly one turn and one lockout distance. Up to there the bounds
    on blocks and on the first samples are those of the unbounded clock. */
module PeakRollover {
  import opened RingMath
  import opened PeakTypes
  import opened PeakDetector
  import opened PeakWindow
  import opened PeakPipeline
  import opened PeakClock
  import opened PeakTheorems
  import opened Sequences
  import D = DominantPeaks
  import S = StoredPeaks

  // ----- Up to the bound

  lemma StampedPlaces(start: Position, found: seq<RawPeak>)
    ensures Places(StampAll(start, found)) == StampPlaces(start, Places(found))
  {
  }

  /** The finder on stored positions reports what the reference reports, at stamped positions, and
      neither deque overflows. */
  lemma StoredRefinesReference(blocks: seq<seq<Value>>, start: Position, threshold: int, window: nat)
    requires 1 <= window && 2 * window < RING
    requires NonEmptyBlocks(blocks) && BlocksFit(blocks, window) && AllAddressable(blocks, window)
    requires |Flatten(blocks)| <= RING + window
    requires !StartsAtMaximum(Flatten(blocks)) || window == 1
    ensures Places(S.ProcessBlocks(blocks, start, threshold, window).1)
         == StampPlaces(start, ReferencePeaks(Flatten(blocks), window, threshold))
    ensures S.RoomForBlocks(blocks, start, threshold, window)
  {
    hide ProcessBlocks, S.ProcessBlocks, S.RoomForBlocks, ReferencePeaks, Flatten, StampAll, StampPlaces;
    RunStored(blocks, start, threshold, window);
    FastRefinesReference(blocks, threshold, window);
    StampedPlaces(start, ProcessBlocks(IDLE, blocks, threshold, window).1);
  }

  // ----- Beyond the bound

  /** One sample and then nothing for a lockout distance. */
  function Blip(value: Value, window: nat): seq<Value> {
    [value] + Silence(window)
  }

  function Quiet(count: nat): (r: seq<seq<Value>>)
    ensures |r| == count && forall i :: 0 <= i < count ==> r[i] == [0]
  {
    seq(count, i => [0])
  }

  /** A high first sample and silence. */
  function QuietStart(count: nat, window: nat): seq<seq<Value>> {
    [Blip(2, window)] + Quiet(count)
  }

  /** A high first sample, silence until the position is back where it was, and a lower peak. */
  function RolloverBlocks(window: nat): seq<seq<Value>>
    requires window + 1 < RING
  {
    QuietStart(RING - window - 1, window) + [Blip(1, window)]
  }

  function RolloverStream(window: nat): seq<Value> {
    [2] + Silence(RING - 1) + [1] + Silence(window)
  }

  lemma {:induction false} FlattenQuietStart(count: nat, window: nat)
    ensures Flatten(QuietStart(count, window)) == [2] + Silence(window + count)
    ensures NonEmptyBlocks(QuietStart(count, window))
    decreases count
  {
    var blocks := QuietStart(count, window);
    if count == 0 {
      assert blocks == [Blip(2, window)] && DropLast(blocks) == [];
      assert Flatten([]) == [];
    } else {
      QuietStartNext(count, window);
      FlattenQuietStart(count - 1, window);
    }
  }

  lemma QuietStartNext(count: nat, window: nat)
    requires 0 < count
    ensures DropLast(QuietStart(count, window)) == QuietStart(count - 1, window) && Last(QuietStart(count, window)) == [0]
  {
  }

  lemma RolloverShape(window: nat)
    requires 1 <= window && 4 * window + 2 <= HALF_VALUE_RANGE_MINUS_ONE
    ensures var blocks := RolloverBlocks(window);
            && NonEmptyBlocks(blocks) && BlocksFit(blocks, window) && AllAddressable(blocks, window)
            && DropLast(blocks) == QuietStart(RING - window - 1, window) && Last(blocks) == Blip(1, window)
            && Flatten(blocks) == RolloverStream(window)
            && |Flatten(DropLast(blocks))| == RING
  {
    var blocks, before := RolloverBlocks(window), QuietStart(RING - window - 1, window);
    assert DropLast(blocks) == before;
    FlattenQuietStart(RING - window - 1, window);
    assert [2] + Silence(RING - 1) + Blip(1, window) == RolloverStream(window);
  }

  /** Both entries about the high first sample. */
  function HighPlaces(start: Position): seq<ValueAtPos> {
    [ValueAtPos(start, 2), ValueAtPos(start, 2)]
  }

  /** What the finder remembers through the silence. */
  function Waiting(start: Position): S.StoredState {
    S.StoredState(true, DetectorState(0, 0), D.Queues([], HighPlaces(start)))
  }

  /** What a blip raises: the fall of a first sample, or a rise and a peak. */
  function BlipRaises(d: DetectorState, value: Value, start: int): seq<RawPeak> {
    if d == START then [RawPeak(start, value, Falling)]
    else [RawPeak(start, value, Rising), RawPeak(start, value, Peak)]
  }

  lemma BlipDetected(d: DetectorState, value: Value, tooBig: Position)
    requires 1 < tooBig < FIRST_SAMPLE && 1 <= value
    requires if d == START then value < VALUE_MAX else d == DetectorState(0, 0)
    ensures Detect(d, [value, 0], 0, 1, tooBig) == (DetectorState(0, 0), BlipRaises(d, value, 0))
  {
    hide Detect;
    var d1, first := Step(d, value, 0, 1, tooBig).0, Step(d, value, 0, 1, tooBig).1;
    DetectNothing(d, 0, 1, tooBig);
    assert DropLast([value]) == [] && DropLast([value, 0]) == [value];
    DetectLast(d, [value], 0, 1, tooBig);
    NothingBefore(first);
    DetectLast(d, [value, 0], 0, 1, tooBig);
    var more := Step(d1, 0, 1, 1, tooBig).1;
    assert more == [if d == START then RawPeak(0, value, Falling) else RawPeak(0, value, Peak)];
    assert first + more == BlipRaises(d, value, 0);
  }

  lemma BlipEvents(st: S.StoredState, value: Value, start: Position, window: nat)
    requires 1 <= window && 2 * window < FIRST_SAMPLE && 1 <= value
    requires if st.detector == START then value < VALUE_MAX else st.detector == DetectorState(0, 0)
    ensures S.DetectorAfter(st, Blip(value, window), 1, window) == DetectorState(0, 0)
    ensures S.BlockEvents(st, Blip(value, window), start, 1, window) == BlipRaises(st.detector, value, start)
  {
    hide Detect, Step, Wrap;
    var d, tooBig := st.detector, TooBigFor(window);
    BlipDetected(d, value, tooBig);
    LevelIsSilent(DetectorState(0, 0), Silence(window - 1), 2, 1, tooBig);
    DetectSplit(d, [value, 0], Silence(window - 1), 0, 1, tooBig);
    assert [value, 0] + Silence(window - 1) == Blip(value, window);
    NothingAfter(BlipRaises(d, value, 0));
    WrapIdentity(start);
    assert StampAll(start, BlipRaises(d, value, 0)) == BlipRaises(d, value, start);
  }

  /** An event weighed against nothing stays for now. */
  lemma EventAlone(memory: seq<ValueAtPos>, e: RawPeak, window: nat)
    requires 1 <= window
    ensures var q := D.Queues([], memory);
            && S.OnRawPeakEvent(q, e, window) == (D.Queues(if e.kind == Rising then [] else [e], memory), [])
            && S.RoomForEvent(q, e, window)
  {
    NothingBefore([e]);
    assert S.Age(e.streamPos, e.streamPos) == 0;
  }

  lemma BlipFed(memory: seq<ValueAtPos>, d: DetectorState, value: Value, start: Position, window: nat)
    requires 1 <= window
    ensures var events := BlipRaises(d, value, start);
            && S.Feed(D.Queues([], memory), events, window) == (D.Queues([Last(events)], memory), [])
            && S.RoomToFeed(D.Queues([], memory), events, window)
  {
    hide S.OnRawPeakEvent, S.RoomForEvent;
    var events := BlipRaises(d, value, start);
    var q := D.Queues([], memory);
    EventAlone(memory, events[0], window);
    EventAlone(memory, Last(events), window);
    assert DropLast([events[0]]) == [];
    assert S.Feed(q, [], window) == (q, []);
    assert S.RoomToFeed(q, [], window);
    NothingAfter<RawPeak>([]);
    if |events| == 2 {
      assert DropLast(events) == [events[0]];
      assert S.Feed(q, [events[0]], window) == (q, []);
      assert S.RoomToFeed(q, [events[0]], window);
    } else {
      assert events == [events[0]];
    }
  }

  ghost predicate AllHigh(memory: seq<ValueAtPos>, start: Position) {
    1 <= |memory| <= 2 && forall m :: m in memory ==> m == ValueAtPos(start, 2)
  }

  /** The purge after a blip moves it to the memory, which still holds a larger value of what looks
      like the same position. */
  lemma BlipPurged(memory: seq<ValueAtPos>, e: RawPeak, window: nat)
    requires 1 <= window && 4 * window + 2 <= HALF_VALUE_RANGE_MINUS_ONE
    requires 0 <= e.streamPos < RING && e.value <= 2 && AllHigh(memory, e.streamPos)
    ensures var q, pos := D.Queues([e], memory), Wrap(e.streamPos + window);
            && S.PurgeUpUntil(q, pos, window) == (D.Queues([], memory + [e.AtPos()]), [])
            && S.RoomToPurge(q, pos, window)
  {
    hide S.DropOld, D.DropSmaller;
    var q, pos := D.Queues([e], memory), Wrap(e.streamPos + window);
    var flushed := D.Queues([], memory + [e.AtPos()]);
    ShownAges(e.streamPos, window);
    assert memory[0] in memory && Last(memory) in memory;
    NothingOld(memory, pos, 3 * window + 1);
    NothingOld(memory, e.streamPos, window);
    NothingSmaller(memory, e.value);
    assert [e][1..] == [];
    assert S.LeftDominators(memory, e, window) == memory;
    assert S.FlushedFront(q, window) == flushed && S.FrontVerdict(q, window) == [];
    assert S.Flush(flushed, pos, window) == (flushed, []);
    NothingAfter<RawPeak>([]);
    assert S.Flush(q, pos, window) == (flushed, []);
    assert S.Purged(q, pos, window) == q;
    assert S.RoomToFlush(flushed, pos, window) && S.RoomToRemember(q, window);
    assert S.RoomToFlush(q, pos, window);
  }

  lemma ShownAges(start: Position, window: nat)
    requires 1 <= window && 4 * window + 2 <= HALF_VALUE_RANGE_MINUS_ONE
    ensures S.Age(Wrap(start + window), start) == window && S.Age(start, start) == 0
    ensures !RingGreaterEq(Wrap(start), Wrap(Wrap(start + window)))
  {
    hide Wrap, RingGreaterEq;
    WrapIdentity(start);
    WrapIdentity(Wrap(start + window));
    AgeIsShown(0, start + window, start);
    AgeIsShown(0, start, start);
    RingOrderIsClockOrder(start, start + window);
  }

  lemma NothingOld(memory: seq<ValueAtPos>, pos: int, limit: nat)
    requires memory != [] && S.Age(pos, memory[0].streamPos) <= limit
    ensures S.DropOld(memory, pos, limit) == memory
  {
  }

  lemma NothingSmaller(memory: seq<ValueAtPos>, value: int)
    requires memory != [] && Last(memory).value >= value
    ensures D.DropSmaller(memory, value) == memory
  {
  }

  /** A blip's block: its event ends up in the memory, and nothing is reported. */
  lemma BlipBlock(st: S.StoredState, value: Value, start: Position, window: nat)
    requires 1 <= window && 4 * window + 2 <= HALF_VALUE_RANGE_MINUS_ONE && 1 <= value <= 2
    requires if st.isSubsequentBlock then st.detector == DetectorState(0, 0) else st == S.FRESH && value == 2
    requires st.queues.right == [] && AllHigh(S.StartQueues(st, Blip(value, window), start).memory, start)
    ensures var memory := S.StartQueues(st, Blip(value, window), start).memory;
            S.ProcessBlock(st, Blip(value, window), start, 1, window)
            == (S.StoredState(true, DetectorState(0, 0), D.Queues([], memory + [ValueAtPos(start, value)])), [])
    ensures S.RoomForBlock(st, Blip(value, window), start, 1, window)
  {
    hide S.Feed, S.RoomToFeed, S.PurgeUpUntil, S.RoomToPurge, S.DetectorAfter, S.BlockEvents, Wrap;
    var data, d := Blip(value, window), DetectorState(0, 0);
    var memory := S.StartQueues(st, data, start).memory;
    var e := Last(BlipRaises(st.detector, value, start));
    BlipEvents(st, value, start, window);
    BlipFed(memory, st.detector, value, start, window);
    BlipPurged(memory, e, window);
    assert PurgeDelay(d, D.Queues([e], memory), TooBigFor(window)) == 1;
    WrapDifferences(start + |data|, 1);
    NothingAfter<RawPeak>([]);
  }

  lemma QuietBlockWaits(start: Position, pos: Position, window: nat)
    requires 1 <= window && 2 * window < RING
    ensures S.ProcessBlock(Waiting(start), [0], pos, 1, window) == (Waiting(start), [])
    ensures S.RoomForBlock(Waiting(start), [0], pos, 1, window)
  {
    hide Wrap, Step;
    var st := Waiting(start);
    LevelIsSilent(st.detector, [0], 0, 1, TooBigFor(window));
    assert S.BlockEvents(st, [0], pos, 1, window) == [];
    assert S.Feed(st.queues, [], window) == (st.queues, []);
    NothingAfter<RawPeak>([]);
  }

  lemma {:induction false} QuietStartWaits(count: nat, start: Position, window: nat)
    requires 1 <= window && 4 * window + 2 <= HALF_VALUE_RANGE_MINUS_ONE
    ensures var blocks := QuietStart(count, window);
            && NonEmptyBlocks(blocks)
            && S.ProcessBlocks(blocks, start, 1, window) == (Waiting(start), [])
            && S.RoomForBlocks(blocks, start, 1, window)
    decreases count
  {
    hide S.ProcessBlock, S.RoomForBlock, Wrap, Flatten;
    var blocks := QuietStart(count, window);
    FlattenQuietStart(count, window);
    NothingAfter<RawPeak>([]);
    if count == 0 {
      FirstBlip(start, window);
    } else {
      QuietStartNext(count, window);
      QuietStartWaits(count - 1, start, window);
      QuietBlockWaits(start, Wrap(start + |Flatten(DropLast(blocks))|), window);
    }
  }

  lemma FirstBlip(start: Position, window: nat)
    requires 1 <= window && 4 * window + 2 <= HALF_VALUE_RANGE_MINUS_ONE
    ensures var blocks := [Blip(2, window)];
            && NonEmptyBlocks(blocks)
            && S.ProcessBlocks(blocks, start, 1, window) == (Waiting(start), [])
            && S.RoomForBlocks(blocks, start, 1, window)
  {
    hide S.ProcessBlock, S.RoomForBlock;
    var blocks := [Blip(2, window)];
    assert DropLast(blocks) == [] && |Flatten([])| == 0;
    WrapIdentity(start);
    NothingBefore([ValueAtPos(start, 2)]);
    BlipBlock(S.FRESH, 2, start, window);
    NothingAfter<RawPeak>([]);
    assert [ValueAtPos(start, 2)] + [ValueAtPos(start, 2)] == HighPlaces(start);
    assert S.ProcessBlocks([], start, 1, window) == (S.FRESH, []);
  }

  /** After a turn of silence the lower peak seems to share the high sample's position: it is
      remembered and not reported. */
  lemma RolloverReportsNothing(start: Position, window: nat)
    requires 1 <= window && 4 * window + 2 <= HALF_VALUE_RANGE_MINUS_ONE
    ensures NonEmptyBlocks(RolloverBlocks(window))
    ensures S.ProcessBlocks(RolloverBlocks(window), start, 1, window).1 == []
    ensures S.RoomForBlocks(RolloverBlocks(window), start, 1, window)
  {
    hide S.ProcessBlock, S.RoomForBlock, Flatten, QuietStart, RolloverBlocks;
    RolloverShape(window);
    QuietStartWaits(RING - window - 1, start, window);
    WholeTurn(start);
    BlipBlock(Waiting(start), 1, start, window);
    NothingAfter<RawPeak>([]);
  }

  lemma WholeTurn(start: Position)
    ensures Wrap(start + RING) == start
  {
  }

  lemma {:induction false} ReferenceHas(s: seq<Value>, c: int, window: nat, threshold: int)
    requires 1 <= window && !StartsAtMaximum(s) && DominantAt(s, c, window, threshold)
    ensures ValueAtPos(c, s[c]) in ReferencePeaks(s, window, threshold)
  {
    hide ReferencePeaks, VisiblePeaksWithin, VisiblyDominantAt, PeakOfRange, StartsAtMaximum;
    VisibleIsReference(s, |s|, window, threshold);
    VisibleIsDominant(s, c, window, threshold);
    VisiblePeaksAre(s, |s|, window, threshold);
    assert s[..|s|] == s;
    assert VisibleMember(s, |s|, window, threshold, ValueAtPos(c, s[c]));
  }

  lemma RolloverPeak(window: nat)
    requires 1 <= window && 4 * window + 2 <= HALF_VALUE_RANGE_MINUS_ONE
    ensures var s := RolloverStream(window);
            |s| == RING + window + 1 && !StartsAtMaximum(s) && s[RING] == 1 && DominantAt(s, RING, window, 1)
  {
    var s := RolloverStream(window);
    RolloverSamples(window);
    hide RolloverStream;
    LoneSample(s, RING, window);
  }

  lemma LoneSample(s: seq<Value>, c: nat, window: nat)
    requires 1 <= window < c && c + window < |s| && s[c] == 1
    requires forall k :: c - window <= k <= c + window && k != c ==> s[k] == 0
    ensures DominantAt(s, c, window, 1)
  {
    assert FirstTopRun(s, c - window, c + window + 1, c, c);
    assert Middle(c, c) == c;
  }

  lemma RolloverSamples(window: nat)
    ensures var s := RolloverStream(window);
            |s| == RING + window + 1 && forall k :: 0 <= k < |s| ==> s[k] == if k == 0 then 2 else if k == RING then 1 else 0
  {
    var s, quiet := RolloverStream(window), [2] + Silence(RING - 1);
    assert |quiet| == RING;
    forall k | 0 <= k < |s| ensures s[k] == if k == 0 then 2 else if k == RING then 1 else 0 {
      if k < RING {
        assert s[k] == quiet[k];
      }
    }
  }

  /** One sample more than the bound: the reference reports the lower peak, the finder does not. */
  lemma RolloverDisagrees(start: Position, window: nat)
    requires 1 <= window && 4 * window + 2 <= HALF_VALUE_RANGE_MINUS_ONE
    ensures var blocks := RolloverBlocks(window);
            && NonEmptyBlocks(blocks) && BlocksFit(blocks, window) && AllAddressable(blocks, window)
            && |Flatten(blocks)| == RING + window + 1 && !StartsAtMaximum(Flatten(blocks))
            && S.RoomForBlocks(blocks, start, 1, window)
            && Places(S.ProcessBlocks(blocks, start, 1, window).1) != StampPlaces(start, ReferencePeaks(Flatten(blocks), window, 1))
  {
    hide S.ProcessBlocks, S.RoomForBlocks, RolloverBlocks, RolloverStream, DominantAt, ReferencePeaks, Flatten, Wrap;
    RolloverShape(window);
    RolloverReportsNothing(start, window);
    RolloverPeak(window);
    ReferenceHas(RolloverStream(window), RING, window, 1);
    assert |ReferencePeaks(RolloverStream(window), window, 1)| > 0;
  }

  // ----- The bound is exact

  /** Wherever the stream position starts, the finder agrees with the reference on every stream of
      at most `length` samples. */
  ghost predicate AgreesForStreamsUpTo(length: nat, window: nat)
    requires 2 * window < RING
  {
    forall blocks: seq<seq<Value>>, start: Position, threshold: Value ::
      NonEmptyBlocks(blocks) && BlocksFit(blocks, window) && AllAddressable(blocks, window)
      && |Flatten(blocks)| <= length && !StartsAtMaximum(Flatten(blocks))
      ==> Places(S.ProcessBlocks(blocks, start, threshold, window).1)
          == StampPlaces(start, ReferencePeaks(Flatten(blocks), window, threshold))
  }

  /** The exact condition on the length of a stream: at most one turn of the stream position and one
      lockout distance. */
  lemma StreamBoundIsExact(length: nat, window: nat)
    requires 1 <= window && 4 * window + 2 <= HALF_VALUE_RANGE_MINUS_ONE
    ensures AgreesForStreamsUpTo(length, window) <==> length <= RING + window
  {
    hide S.ProcessBlocks, S.RoomForBlocks, ReferencePeaks, Flatten, StartsAtMaximum, BlocksFit, AllAddressable, StampPlaces, Places, RolloverBlocks;
    if length <= RING + window {
      forall blocks: seq<seq<Value>>, start: Position, threshold: Value
        | NonEmptyBlocks(blocks) && BlocksFit(blocks, window) && AllAddressable(blocks, window)
          && |Flatten(blocks)| <= length && !StartsAtMaximum(Flatten(blocks))
        ensures Places(S.ProcessBlocks(blocks, start, threshold, window).1)
             == StampPlaces(start, ReferencePeaks(Flatten(blocks), window, threshold))
      {
        StoredRefinesReference(blocks, start, threshold, window);
      }
    } else {
      RolloverDisagrees(0, window);
    }
  }

  // ----- The other two bounds are the same on stored positions

  /** A false report of the finder on the clock is one on stored positions. */
  lemma FalseReportIsStored(blocks: seq<seq<Value>>, threshold: int, window: nat, m: ValueAtPos)
    requires 1 <= window && 2 * window < RING
    requires NonEmptyBlocks(blocks) && AllAddressable(blocks, window) && |Flatten(blocks)| < RING
    requires 0 <= m.streamPos < RING
    requires m in Places(ProcessBlocks(IDLE, blocks, threshold, window).1)
    requires m !in ReferencePeaks(Flatten(blocks), window, threshold)
    ensures Places(S.ProcessBlocks(blocks, 0, threshold, window).1)
         != StampPlaces(0, ReferencePeaks(Flatten(blocks), window, threshold))
  {
    hide ProcessBlocks, S.ProcessBlocks, S.RoomForBlocks, ReferencePeaks, Flatten, AllAddressable, Wrap;
    var found := ProcessBlocks(IDLE, blocks, threshold, window).1;
    var reference := ReferencePeaks(Flatten(blocks), window, threshold);
    RunStored(blocks, 0, threshold, window);
    var i :| 0 <= i < |found| && Places(found)[i] == m;
    WrapIdentity(m.streamPos);
    assert Places(StampAll(0, found))[i] == m;
    ReferenceStampedAtZero(Flatten(blocks), window, threshold);
  }

  lemma ReferenceStampedAtZero(s: seq<Value>, window: nat, threshold: int)
    requires |s| < RING
    ensures StampPlaces(0, ReferencePeaks(s, window, threshold)) == ReferencePeaks(s, window, threshold)
  {
    hide ReferencePeaks, DominantAt, Wrap;
    var reference := ReferencePeaks(s, window, threshold);
    assert s[..|s|] == s;
    forall i | 0 <= i < |reference| ensures StampPlace(0, reference[i]) == reference[i] {
      ReferenceMember(s, |s|, window, threshold, reference[i]);
      DominantInside(s, reference[i].streamPos, window, threshold);
      WrapIdentity(reference[i].streamPos);
    }
  }

  lemma DominantInside(s: seq<Value>, c: int, window: nat, threshold: int)
    requires DominantAt(s, c, window, threshold)
    ensures 0 <= c < |s|
  {
  }

  /** Wherever the stream position starts, the finder agrees with the reference on every stream
      within the length bound, however it is cut into blocks of at most `size` samples. */
  ghost predicate StoredAgreesForBlocksUpTo(size: nat, window: nat)
    requires 2 * window < RING
  {
    forall blocks: seq<seq<Value>>, start: Position, threshold: Value ::
      NonEmptyBlocks(blocks) && (forall i :: 0 <= i < |blocks| ==> |blocks[i]| <= size) && AllAddressable(blocks, window)
      && |Flatten(blocks)| <= RING + window && !StartsAtMaximum(Flatten(blocks))
      ==> Places(S.ProcessBlocks(blocks, start, threshold, window).1)
          == StampPlaces(start, ReferencePeaks(Flatten(blocks), window, threshold))
  }

  lemma StoredBlockBoundIsExact(size: nat, window: nat)
    requires 1 <= window && Addressable(window + 3, window)
    ensures StoredAgreesForBlocksUpTo(size, window) <==> BlockFits(size, window)
  {
    hide S.ProcessBlocks, S.RoomForBlocks, ReferencePeaks, Flatten, StartsAtMaximum, AllAddressable, StampPlaces, Places, LateBlocks;
    if BlockFits(size, window) {
      forall blocks: seq<seq<Value>>, start: Position, threshold: Value
        | NonEmptyBlocks(blocks) && (forall i :: 0 <= i < |blocks| ==> |blocks[i]| <= size) && AllAddressable(blocks, window)
          && |Flatten(blocks)| <= RING + window && !StartsAtMaximum(Flatten(blocks))
        ensures Places(S.ProcessBlocks(blocks, start, threshold, window).1)
             == StampPlaces(start, ReferencePeaks(Flatten(blocks), window, threshold))
      {
        StoredRefinesReference(blocks, start, threshold, window);
      }
    } else {
      LateBlocksDisagree(window);
      AddressableUpTo(LateBlocks(window), window + 3, window);
      FalseReportIsStored(LateBlocks(window), 1, window, ValueAtPos(window + 1, 1));
    }
  }

  lemma AddressableUpTo(blocks: seq<seq<Value>>, size: nat, window: nat)
    requires Addressable(size, window) && forall i :: 0 <= i < |blocks| ==> |blocks[i]| <= size
    ensures AllAddressable(blocks, window)
  {
  }

  /** Wherever the stream position starts, the finder agrees with the reference on every
      continuation of the given samples within the length bound. */
  ghost predicate StoredAgreesAfter(first: seq<Value>, window: nat, threshold: Value)
    requires 2 * window < RING
  {
    forall blocks: seq<seq<Value>>, start: Position ::
      NonEmptyBlocks(blocks) && BlocksFit(blocks, window) && AllAddressable(blocks, window)
      && first <= Flatten(blocks) && |Flatten(blocks)| <= RING + window
      ==> Places(S.ProcessBlocks(blocks, start, threshold, window).1)
          == StampPlaces(start, ReferencePeaks(Flatten(blocks), window, threshold))
  }

  lemma StoredStartConditionIsExact(first: seq<Value>, window: nat, threshold: Value)
    requires |first| == 2 && 2 <= window && Addressable(window + 3, window)
    ensures StoredAgreesAfter(first, window, threshold) <==> !StartsAtMaximum(first)
  {
    hide S.ProcessBlocks, S.RoomForBlocks, ReferencePeaks, Flatten, BlocksFit, AllAddressable, StampPlaces, Places, TagStream, Singles;
    if StartsAtMaximum(first) {
      TagStreamDisagrees(window, threshold);
      TagStreamStarts(first, window);
      AddressableUpTo(Singles(TagStream(window)), 1, window);
      FalseReportIsStored(Singles(TagStream(window)), threshold, window, ValueAtPos(window + 1, VALUE_MAX));
    } else {
      forall blocks: seq<seq<Value>>, start: Position
        | NonEmptyBlocks(blocks) && BlocksFit(blocks, window) && AllAddressable(blocks, window)
          && first <= Flatten(blocks) && |Flatten(blocks)| <= RING + window
        ensures Places(S.ProcessBlocks(blocks, start, threshold, window).1)
             == StampPlaces(start, ReferencePeaks(Flatten(blocks), window, threshold))
      {
        StoredRefinesReference(blocks, start, threshold, window);
      }
    }
  }
}
