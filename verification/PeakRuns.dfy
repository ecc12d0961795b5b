/** Whole runs of both peak finders over a stream that arrives in blocks, as the test drivers
    make them (dsp/tst_peakfinder.cpp:174-266). */
module PeakRuns {
  import opened RingMath
  import opened RingBuffer
  import opened PeakTypes
  import opened PeakDetector
  import opened PeakWindow
  import opened PeakPipeline
  import opened PeakClock
  import opened PeakFinder
  import opened PeakRollover
  import opened PeakTheorems
  import opened Sequences
  import S = StoredPeaks

  lemma BlocksNext(blocks: seq<seq<Value>>, i: nat)
    requires i < |blocks|
    ensures Flatten(blocks[..i + 1]) == Flatten(blocks[..i]) + blocks[i]
    ensures DropLast(blocks[..i + 1]) == blocks[..i] && Last(blocks[..i + 1]) == blocks[i]
    ensures NonEmptyBlocks(blocks) ==> NonEmptyBlocks(blocks[..i + 1])
  {
    assert DropLast(blocks[..i + 1]) == blocks[..i];
  }

  lemma RunNext(blocks: seq<seq<Value>>, i: nat, start: Position, threshold: int, window: nat)
    requires i < |blocks| && NonEmptyBlocks(blocks) && 2 * window < RING
    ensures NonEmptyBlocks(blocks[..i]) && NonEmptyBlocks(blocks[..i + 1])
    ensures var (st, found) := S.ProcessBlocks(blocks[..i], start, threshold, window);
            var pos := Wrap(start + |Flatten(blocks[..i])|);
            var (st', more) := S.ProcessBlock(st, blocks[i], pos, threshold, window);
            && S.ProcessBlocks(blocks[..i + 1], start, threshold, window) == (st', found + more)
            && (S.RoomForBlocks(blocks, start, threshold, window) ==> S.RoomForBlock(st, blocks[i], pos, threshold, window))
  {
    hide Wrap, S.ProcessBlock, S.RoomForBlock, Flatten;
    BlocksNext(blocks, i);
    if S.RoomForBlocks(blocks, start, threshold, window) {
      RoomForPrefixBlocks(blocks, i + 1, start, threshold, window);
    }
  }

  lemma {:induction false} RoomForPrefixBlocks(blocks: seq<seq<Value>>, i: nat, start: Position, threshold: int, window: nat)
    requires i <= |blocks| && NonEmptyBlocks(blocks) && 2 * window < RING
    requires S.RoomForBlocks(blocks, start, threshold, window)
    ensures NonEmptyBlocks(blocks[..i]) && S.RoomForBlocks(blocks[..i], start, threshold, window)
    decreases |blocks|
  {
    hide Wrap, S.ProcessBlocks, S.RoomForBlock, Flatten;
    if i == |blocks| {
      assert blocks[..i] == blocks;
    } else {
      RoomForPrefixBlocks(DropLast(blocks), i, start, threshold, window);
      assert DropLast(blocks)[..i] == blocks[..i];
    }
  }

  /** Feeds a stream block by block to a new finder, as long as neither deque overflows. */
  method RunPeakFinder(blocks: seq<seq<Value>>, patternSize: nat, start: Position, peakThreshold: Value)
    returns (found: seq<RawPeak>)
    requires 0 < patternSize / 2 && 3 * (patternSize / 2) + 1 < RING
    requires NonEmptyBlocks(blocks) && S.RoomForBlocks(blocks, start, peakThreshold, patternSize / 2)
    ensures found == S.ProcessBlocks(blocks, start, peakThreshold, patternSize / 2).1
  {
    hide Slots, Reverse, Wrap, S.ProcessBlock, S.RoomForBlock, S.ProcessBlocks, S.RoomForBlocks, Flatten;
    ghost var window := patternSize / 2;
    var finder := new StreamingPeakFinder(patternSize);
    found := [];
    var streamPos := start;
    WrapIdentity(start);
    RunNone(start, peakThreshold, window);
    for i := 0 to |blocks|
      invariant finder.Valid() && fresh(finder.Footprint()) && finder.lockoutDistance == window
      invariant NonEmptyBlocks(blocks[..i]) && streamPos == Wrap(start + |Flatten(blocks[..i])|)
      invariant (finder.State(), found) == S.ProcessBlocks(blocks[..i], start, peakThreshold, window)
    {
      BlocksNext(blocks, i);
      RunNext(blocks, i, start, peakThreshold, window);
      var hits := finder.Process(blocks[i], streamPos, peakThreshold);
      found := found + hits;
      WrapDifferences(start + |Flatten(blocks[..i])|, -|blocks[i]|);
      streamPos := Wrap(streamPos + |blocks[i]|);
    }
    assert blocks[..|blocks|] == blocks;
  }

  lemma RunNone(start: Position, threshold: int, window: nat)
    requires 2 * window < RING
    ensures Flatten([]) == [] && S.ProcessBlocks([], start, threshold, window) == (S.FRESH, [])
  {
  }

  /** Feeds the same stream to the reference, which also gets to see the older samples. */
  method RunReferencePeakFinder(blocks: seq<seq<Value>>, patternSize: nat, peakThreshold: Value) returns (found: seq<ValueAtPos>)
    requires 0 < patternSize / 2
    ensures found == ReferencePeaks(Flatten(blocks), patternSize / 2, peakThreshold)
  {
    hide PeakOfRange, ReferencePeaks, Flatten;
    var finder := new ReferenceStreamingPeakFinder(patternSize);
    found := [];
    var input: seq<Value> := [];
    RunNone(0, peakThreshold, 0);
    NoSamplesNoPeaks(patternSize / 2, peakThreshold);
    for i := 0 to |blocks|
      invariant fresh(finder) && finder.lockoutDistance == patternSize / 2 && finder.numSamplesRead == |input|
      invariant input == Flatten(blocks[..i])
      invariant found == ReferencePeaks(input, patternSize / 2, peakThreshold)
    {
      BlocksNext(blocks, i);
      ghost var before := input;
      input := input + blocks[i];
      assert input[..|before|] == before;
      var hits := finder.Process(input, |blocks[i]|, peakThreshold);
      found := found + hits;
    }
    assert blocks[..|blocks|] == blocks;
  }

  /** Both finders report the same samples, at positions counted from the start position. */
  method RunBoth(blocks: seq<seq<Value>>, patternSize: nat, start: Position, peakThreshold: Value)
    returns (fast: seq<RawPeak>, slow: seq<ValueAtPos>)
    requires 0 < patternSize / 2 && 3 * (patternSize / 2) + 1 < RING
    requires NonEmptyBlocks(blocks) && |Flatten(blocks)| <= RING + patternSize / 2
    requires BlocksFit(blocks, patternSize / 2) && AllAddressable(blocks, patternSize / 2)
    requires !StartsAtMaximum(Flatten(blocks)) || patternSize / 2 == 1
    ensures slow == ReferencePeaks(Flatten(blocks), patternSize / 2, peakThreshold)
    ensures |fast| == |slow|
    ensures forall i :: 0 <= i < |slow| ==>
              fast[i].streamPos == Wrap(start + slow[i].streamPos) && fast[i].value == slow[i].value
  {
    hide PeakOfRange, ReferencePeaks, Flatten, S.ProcessBlocks, S.RoomForBlocks, Wrap, BlocksFit, AllAddressable, StartsAtMaximum;
    StoredRefinesReference(blocks, start, peakThreshold, patternSize / 2);
    fast := RunPeakFinder(blocks, patternSize, start, peakThreshold);
    slow := RunReferencePeakFinder(blocks, patternSize, peakThreshold);
    forall i | 0 <= i < |slow| ensures fast[i].streamPos == Wrap(start + slow[i].streamPos) && fast[i].value == slow[i].value {
      assert Places(fast)[i] == StampPlace(start, slow[i]);
    }
  }
}
