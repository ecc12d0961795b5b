/** The one exception that `PeakThresholds` leaves (dsp/peakfinder.hpp:462-517): a rise may go unseen
    whose fall is seen, if a later block has a lower threshold. Here stands when that happens, and
    the run of the finder itself. */
module PeakExceptions {
  import opened RingMath
  import opened PeakTypes
  import opened PeakDetector
  import opened PeakPipeline
  import opened PeakLevels
  import opened PeakThresholds
  import opened PeakClock
  import opened PeakFinder
  import opened RingBuffer
  import opened Sequences
  import D = DominantPeaks
  import S = StoredPeaks

  // ----- When the exception occurs

  /** The last rise on the way from sample a to a larger sample k. */
  lemma {:induction false} LastRise(s: seq<Value>, a: int, k: int) returns (r: int)
    requires 0 <= a < k < |s| && s[a] < s[k]
    ensures a < r <= k && s[r - 1] < s[r] && s[r] >= s[k]
    ensures forall j :: r <= j < k ==> s[j] >= s[j + 1]
    decreases k
  {
    if s[k - 1] < s[k] {
      r := k;
    } else {
      r := LastRise(s, a, k - 1);
    }
  }

  /** A rise to a short plateau that reaches up to sample k leaves that plateau open. */
  lemma LevelAfterRise(s: seq<Value>, r: int, k: int, window: nat)
    requires 0 < r <= k < |s| && s[r - 1] < s[r] == s[k] && k - r + 1 < 2 * window
    requires forall j :: r <= j < k ==> s[j] >= s[j + 1]
    ensures OpenPlateau(s[..k + 1], window)
  {
    var head := s[..k + 1];
    forall j | r <= j <= k ensures head[j] == s[k] {
      NonIncreasing(s, r, j, k);
    }
    assert head[r - 1] != head[r];
    assert RunStart(head) == r;
  }

  lemma {:induction false} NonIncreasing(s: seq<Value>, r: int, j: int, k: int)
    requires 0 <= r <= j <= k < |s|
    requires forall i :: r <= i < k ==> s[i] >= s[i + 1]
    ensures s[r] >= s[j] >= s[k]
    decreases k - r
  {
    if r < j {
      NonIncreasing(s, r + 1, j, k);
    } else if j < k {
      NonIncreasing(s, r + 1, j + 1, k);
    }
  }

  /** The exception is the fall after a rise that went unseen since its block had a higher
      threshold: the rise at r lies between the reported peak and the fall, and above both. */
  lemma ExceededByUnseenRise(blocks: seq<seq<Value>>, thresholds: seq<int>, window: nat, p: RawPeak, e: RawPeak) returns (r: int)
    requires 1 <= window && 2 * window < RING && Matching(blocks, thresholds)
    requires p in ProcessEach(blocks, thresholds, window).1 && e in Raised(blocks, thresholds, window) && Exceeds(e, p, window)
    ensures 0 <= p.streamPos && p.streamPos + 2 <= r < e.streamPos < |Flatten(blocks)|
    ensures Levels(blocks, thresholds)[r] > Flatten(blocks)[r] > e.value
  {
    hide OpenPlateau, Observe, PeakSeen, ProcessEach;
    var s, levels, k := Flatten(blocks), Levels(blocks, thresholds), e.streamPos;
    ReportedIsUnexceeded(blocks, thresholds, window, p, e);
    RaisedExactly(s, levels, TooBigFor(window));
    assert RaisedExactlyAt(s, levels, k, e.value, TooBigFor(window));
    assert RaisedExactlyAt(s, levels, p.streamPos, p.value, TooBigFor(window));
    var low := PeakStands(s, levels, p.streamPos, TooBigFor(window));
    r := LastRise(s, p.streamPos, k);
    if s[r] == s[k] {
      LevelAfterRise(s, r, k, window);
    } else if s[r] >= levels[r] {
      assert RaisedExactlyAt(s, levels, r, s[r], TooBigFor(window));
      ReportedIsUnexceeded(blocks, thresholds, window, p, RawPeak(r, s[r], Rising));
    }
  }

  /** A peak exceeds what precedes its hill, is not exceeded by the next sample, and reaches the
      threshold of some sample. */
  lemma PeakStands(s: seq<Value>, levels: seq<int>, c: int, tooBig: int) returns (low: int)
    requires |levels| == |s| && PeakSeen(s, levels, c, tooBig)
    ensures 0 < c < |s| - 1 && s[c + 1] <= s[c] && VALUE_MIN < s[c]
    ensures 0 <= low < |s| && levels[low] <= s[c]
  {
    var l, r :| Hill(s, l, r) && c == Middle(l, r) && r - l + 1 < tooBig && s[l] >= levels[r + 1];
    low := r + 1;
  }

  // ----- For which thresholds there is no exception

  ghost predicate Within(thresholds: seq<int>, lo: int, hi: int) {
    forall i :: 0 <= i < |thresholds| ==> lo <= thresholds[i] <= hi
  }

  lemma {:induction false} LevelsWithin(blocks: seq<seq<Value>>, thresholds: seq<int>, lo: int, hi: int)
    requires |blocks| == |thresholds| && Within(thresholds, lo, hi)
    ensures Within(Levels(blocks, thresholds), lo, hi)
    decreases |blocks|
  {
    if blocks != [] {
      LevelsWithin(DropLast(blocks), DropLast(thresholds), lo, hi);
    }
  }

  /** In no run with thresholds in the given range does anything raised exceed a reported peak. */
  ghost predicate NeverExceeded(window: nat, lo: int, hi: int)
    requires 2 * window < RING
  {
    forall blocks, thresholds, p, e ::
      Matching(blocks, thresholds) && Within(thresholds, lo, hi)
      && p in ProcessEach(blocks, thresholds, window).1 && e in Raised(blocks, thresholds, window)
      ==> !Exceeds(e, p, window)
  }

  /** The least value of a peak at threshold `lo`: it needs lower neighbours. */
  function LeastPeak(lo: int): int {
    if lo <= VALUE_MIN then VALUE_MIN + 1 else lo
  }

  lemma CloseThresholdsSuffice(window: nat, lo: int, hi: int)
    requires 1 <= window && 2 * window < RING
    requires window <= 2 || hi <= LeastPeak(lo) + 2
    ensures NeverExceeded(window, lo, hi)
  {
    forall blocks, thresholds, p, e |
      Matching(blocks, thresholds) && Within(thresholds, lo, hi)
      && p in ProcessEach(blocks, thresholds, window).1 && e in Raised(blocks, thresholds, window)
      ensures !Exceeds(e, p, window)
    {
      if Exceeds(e, p, window) {
        UnseenRiseNeedsRoom(blocks, thresholds, window, lo, hi, p, e);
      }
    }
  }

  lemma UnseenRiseNeedsRoom(blocks: seq<seq<Value>>, thresholds: seq<int>, window: nat, lo: int, hi: int, p: RawPeak, e: RawPeak)
    requires 1 <= window && 2 * window < RING && Matching(blocks, thresholds) && Within(thresholds, lo, hi)
    requires p in ProcessEach(blocks, thresholds, window).1 && e in Raised(blocks, thresholds, window) && Exceeds(e, p, window)
    ensures window >= 3 && hi >= LeastPeak(lo) + 3
  {
    hide PeakSeen, ProcessEach, Observe, EndsClosed;
    var s, levels := Flatten(blocks), Levels(blocks, thresholds);
    var r := ExceededByUnseenRise(blocks, thresholds, window, p, e);
    ReportedIsUnexceeded(blocks, thresholds, window, p, e);
    RaisedExactly(s, levels, TooBigFor(window));
    assert RaisedExactlyAt(s, levels, p.streamPos, p.value, TooBigFor(window));
    var low := PeakStands(s, levels, p.streamPos, TooBigFor(window));
    LevelsWithin(blocks, thresholds, lo, hi);
  }

  // ----- An unseen rise

  /** A peak in the first block, a higher rise below the second block's threshold, and its fall. */
  function Bump(window: nat, b: Value): (r: seq<Value>)
    requires VALUE_MIN < b
    ensures |r| == window
  {
    seq(window, i => if i == 1 then b else b - 1)
  }

  function UnseenRise(window: nat, b: Value): seq<seq<Value>>
    requires VALUE_MIN < b && b + 2 <= VALUE_MAX
  {
    [Bump(window, b), [b + 2, b + 1], [b - 1]]
  }

  lemma DetectOne(d: DetectorState, x: Value, n: int, threshold: int, tooBig: Position)
    ensures Detect(d, [x], n, threshold, tooBig) == Step(d, x, n, threshold, tooBig)
  {
    assert DropLast([x]) == [];
    NothingBefore(Step(d, x, n, threshold, tooBig).1);
  }

  lemma DetectTwo(d: DetectorState, x: Value, y: Value, n: int, threshold: int, tooBig: Position)
    ensures var (d1, first) := Step(d, x, n, threshold, tooBig);
            var (d2, second) := Step(d1, y, n + 1, threshold, tooBig);
            Detect(d, [x, y], n, threshold, tooBig) == (d2, first + second)
  {
    hide Detect, Step;
    assert DropLast([x, y]) == [x] && Last([x, y]) == y;
    DetectOne(d, x, n, threshold, tooBig);
    DetectLast(d, [x, y], n, threshold, tooBig);
  }

  lemma BumpDetected(window: nat, b: Value, threshold: int, tooBig: Position)
    requires window >= 3 && VALUE_MIN < b && threshold <= b && 1 < tooBig
    ensures Detect(START, Bump(window, b), 0, threshold, tooBig)
         == (DetectorState(b - 1, 0), [RawPeak(1, b, Rising), RawPeak(1, b, Peak)])
  {
    hide Detect;
    var head: seq<Value> := [b - 1, b];
    var tail := Bump(window, b)[2..];
    assert Bump(window, b) == head + tail;
    var d := DetectorState(b, 1);
    DetectTwo(START, b - 1, b, 0, threshold, tooBig);
    NothingBefore([RawPeak(1, b, Rising)]);
    assert Detect(START, head, 0, threshold, tooBig) == (d, [RawPeak(1, b, Rising)]);
    DetectOne(d, b - 1, 2, threshold, tooBig);
    NothingAfter([RawPeak(1, b, Peak)]);
    assert Detect(d, [b - 1], 2, threshold, tooBig) == (DetectorState(b - 1, 0), [RawPeak(1, b, Peak)]);
    assert tail == [b - 1] + tail[1..];
    DetectSplit(d, [b - 1], tail[1..], 2, threshold, tooBig);
    LevelIsSilent(DetectorState(b - 1, 0), tail[1..], 3, threshold, tooBig);
    assert Detect(d, tail, 2, threshold, tooBig) == (DetectorState(b - 1, 0), [RawPeak(1, b, Peak)]);
    DetectSplit(START, head, tail, 0, threshold, tooBig);
    assert [RawPeak(1, b, Rising)] + [RawPeak(1, b, Peak)] == [RawPeak(1, b, Rising), RawPeak(1, b, Peak)];
  }

  lemma BumpFed(b: Value, window: nat)
    requires VALUE_MIN < b && 1 <= window
    ensures var m := ValueAtPos(0, b - 1);
            D.Feed(D.Queues([], [m]), [RawPeak(1, b, Rising), RawPeak(1, b, Peak)], window)
            == (D.Queues([RawPeak(1, b, Peak)], [m]), [])
  {
    var q := D.Queues([], [ValueAtPos(0, b - 1)]);
    var rise, peak := RawPeak(1, b, Rising), RawPeak(1, b, Peak);
    assert D.Enqueue([], rise, window) == [] && D.Enqueue([], peak, window) == [peak];
    FeedOne(q, rise, window);
    FeedOne(q, peak, window);
    FeedTwo(q, [rise, peak], window);
    NothingBefore<RawPeak>([]);
    assert D.OnRawPeakEvent(q, rise, window) == (q, []);
    assert D.OnRawPeakEvent(q, peak, window) == (q.(right := [peak]), []);
  }

  lemma BumpBlock(window: nat, b: Value, threshold: int)
    requires window >= 3 && 2 * window < RING && VALUE_MIN < b && threshold <= b
    ensures ProcessBlock(IDLE, Bump(window, b), 0, threshold, window)
         == (FinderState(DetectorState(b - 1, 0), D.Queues([RawPeak(1, b, Peak)], [ValueAtPos(0, b - 1)])), [])
  {
    hide Detect, D.Feed;
    BumpDetected(window, b, threshold, TooBigFor(window));
    NothingBefore([ValueAtPos(0, b - 1)]);
    BumpFed(b, window);
    BumpWaits(window, b);
    assert BlockQueues(IDLE.queues, Bump(window, b), 0) == D.Queues([], [ValueAtPos(0, b - 1)]);
    NothingBefore<RawPeak>([]);
  }

  lemma BumpWaits(window: nat, b: Value)
    requires window >= 3 && 2 * window < RING && VALUE_MIN < b
    ensures var q := D.Queues([RawPeak(1, b, Peak)], [ValueAtPos(0, b - 1)]);
            D.PurgeUpUntil(q, window - 1, window) == (q, [])
            && PurgeDelay(DetectorState(b - 1, 0), q, TooBigFor(window)) == 1
  {
    var m := ValueAtPos(0, b - 1);
    assert D.DropAged([m], window - 1, 3 * window + 1) == [m];
  }

  lemma UnseenBlock(window: nat, b: Value, hi: int)
    requires window >= 3 && 2 * window < RING && VALUE_MIN < b && b + 3 <= hi && hi <= VALUE_MAX
    ensures var p := RawPeak(1, b, Peak);
            var st := FinderState(DetectorState(b - 1, 0), D.Queues([p], [ValueAtPos(0, b - 1)]));
            ProcessBlock(st, [b + 2, b + 1], window, hi, window).1 == [p]
  {
    hide Detect, D.Feed, D.PurgeUpUntil;
    var q := D.Queues([RawPeak(1, b, Peak)], [ValueAtPos(0, b - 1)]);
    DetectTwo(DetectorState(b - 1, 0), b + 2, b + 1, window, hi, TooBigFor(window));
    NothingBefore<RawPeak>([]);
    assert Detect(DetectorState(b - 1, 0), [b + 2, b + 1], window, hi, TooBigFor(window)) == (DetectorState(b + 1, 0), []);
    FeedNone(q, window);
    BumpLeaves(window, b);
    NothingBefore([RawPeak(1, b, Peak)]);
  }

  lemma BumpLeaves(window: nat, b: Value)
    requires window >= 3 && 2 * window < RING && VALUE_MIN < b && b < VALUE_MAX
    ensures var q := D.Queues([RawPeak(1, b, Peak)], [ValueAtPos(0, b - 1)]);
            D.PurgeUpUntil(q, window + 1, window).1 == [RawPeak(1, b, Peak)]
            && PurgeDelay(DetectorState(b + 1, 0), q, TooBigFor(window)) == 1
  {
    var p, m := RawPeak(1, b, Peak), ValueAtPos(0, b - 1);
    assert D.DropAged([m], window + 1, 3 * window + 1) == [m];
    assert D.DropOld([m], 1, window) == [m];
    assert D.DropSmaller([m], b) == [] by {
      assert DropLast([m]) == [];
    }
    assert D.LeftDominators([m], p, window) == [];
    assert [p][1..] == [];
    assert D.Flush(D.Queues([], [] + [p.AtPos()]), window + 1, window).1 == [];
    NothingAfter([p]);
  }

  lemma FlattenThree(a: seq<Value>, b: seq<Value>, c: seq<Value>)
    ensures DropLast([a, b, c]) == [a, b] && DropLast([a, b]) == [a] && DropLast([a]) == []
    ensures Flatten([a, b]) == a + b && Flatten([a]) == a && Flatten([a, b, c]) == a + b + c
  {
    assert DropLast([a, b, c]) == [a, b] && DropLast([a, b]) == [a] && DropLast([a]) == [];
    NothingBefore(a);
    assert Flatten([a]) == Flatten([]) + a;
    assert Flatten([a, b]) == Flatten([a]) + b;
  }

  lemma LevelsThree(a: seq<Value>, b: seq<Value>, c: seq<Value>, lo: int, hi: int)
    ensures Levels([a, b, c], [lo, hi, lo]) == Same(lo, |a|) + Same(hi, |b|) + Same(lo, |c|)
  {
    FlattenThree(a, b, c);
    hide Same, Flatten;
    assert DropLast([lo, hi, lo]) == [lo, hi] && DropLast([lo, hi]) == [lo] && DropLast([lo]) == [];
    NothingBefore(Same(lo, |a|));
    assert Levels([a], [lo]) == Levels([], []) + Same(lo, |a|);
    assert Levels([a, b], [lo, hi]) == Levels([a], [lo]) + Same(hi, |b|);
  }

  lemma UnseenRiseReports(window: nat, b: Value, lo: int, hi: int)
    requires window >= 3 && 2 * window < RING && VALUE_MIN < b && lo <= b && b + 3 <= hi && hi <= VALUE_MAX
    ensures RawPeak(1, b, Peak) in ProcessEach(UnseenRise(window, b), [lo, hi, lo], window).1
  {
    hide ProcessBlock;
    var blocks, thresholds := UnseenRise(window, b), [lo, hi, lo];
    FlattenThree(blocks[0], blocks[1], blocks[2]);
    assert DropLast(thresholds) == [lo, hi] && DropLast([lo, hi]) == [lo] && DropLast([lo]) == [];
    assert ProcessEach([], [], window) == (IDLE, []);
    BumpBlock(window, b, lo);
    UnseenBlock(window, b, hi);
    assert ProcessEach([blocks[0]], [lo], window).0 == ProcessBlock(IDLE, blocks[0], 0, lo, window).0;
    assert RawPeak(1, b, Peak) in ProcessEach([blocks[0], blocks[1]], [lo, hi], window).1;
  }

  lemma UnseenRiseFalls(window: nat, b: Value, lo: int, hi: int)
    requires window >= 3 && 2 * window < RING && VALUE_MIN < b && lo <= b && b + 3 <= hi && hi <= VALUE_MAX
    ensures RawPeak(window + 1, b + 1, Falling) in Raised(UnseenRise(window, b), [lo, hi, lo], window)
  {
    hide Observe;
    var blocks, thresholds := UnseenRise(window, b), [lo, hi, lo];
    var s, levels, k := Flatten(blocks), Levels(blocks, thresholds), window + 1;
    FlattenThree(blocks[0], blocks[1], blocks[2]);
    LevelsThree(blocks[0], blocks[1], blocks[2], lo, hi);
    assert s[0] == b - 1 && s[k - 1] == b + 2 && s[k] == b + 1 && s[k + 1] == b - 1 && levels[k + 1] == lo;
    RaisedExactly(s, levels, TooBigFor(window));
    assert RaisedExactlyAt(s, levels, k, b + 1, TooBigFor(window));
  }

  lemma UnseenRiseExceeds(window: nat, lo: Value, hi: Value)
    requires 2 * window < RING && window >= 3 && hi >= LeastPeak(lo) + 3
    ensures !NeverExceeded(window, lo, hi)
  {
    hide ProcessEach, Raised;
    var b := LeastPeak(lo);
    UnseenRiseReports(window, b, lo, hi);
    UnseenRiseFalls(window, b, lo, hi);
    var blocks, thresholds := UnseenRise(window, b), [lo, hi, lo];
    var p, e := RawPeak(1, b, Peak), RawPeak(window + 1, b + 1, Falling);
    assert Exceeds(e, p, window);
    assert Matching(blocks, thresholds) && Within(thresholds, lo, hi);
  }

  /** Exactly if the window is narrow or the thresholds are close, nothing that is ever raised
      exceeds a reported peak within its window. */
  lemma ThresholdRangeIsExact(window: nat, lo: Value, hi: Value)
    requires 1 <= window && 2 * window < RING
    ensures NeverExceeded(window, lo, hi) <==> window <= 2 || hi <= LeastPeak(lo) + 2
  {
    if window <= 2 || hi <= LeastPeak(lo) + 2 {
      CloseThresholdsSuffice(window, lo, hi);
    } else {
      UnseenRiseExceeds(window, lo, hi);
    }
  }

  // ----- The finder on wrapped positions

  lemma EachNext(blocks: seq<seq<Value>>, thresholds: seq<int>, i: nat, window: nat)
    requires i < |blocks| && Matching(blocks, thresholds) && 2 * window < RING
    ensures Matching(blocks[..i], thresholds[..i]) && Matching(blocks[..i + 1], thresholds[..i + 1])
    ensures Flatten(blocks[..i + 1]) == Flatten(blocks[..i]) + blocks[i]
    ensures var (st, found) := ProcessEach(blocks[..i], thresholds[..i], window);
            var (st', more) := ProcessBlock(st, blocks[i], |Flatten(blocks[..i])|, thresholds[i], window);
            ProcessEach(blocks[..i + 1], thresholds[..i + 1], window) == (st', found + more)
  {
    hide ProcessBlock;
    assert DropLast(blocks[..i + 1]) == blocks[..i] && DropLast(thresholds[..i + 1]) == thresholds[..i];
  }

  lemma {:induction false} FlattenPrefix(blocks: seq<seq<Value>>, i: nat)
    requires i <= |blocks|
    ensures |Flatten(blocks[..i])| <= |Flatten(blocks)|
    decreases |blocks|
  {
    if i == |blocks| {
      assert blocks[..i] == blocks;
    } else {
      FlattenPrefix(DropLast(blocks), i);
      assert DropLast(blocks)[..i] == blocks[..i];
    }
  }

  /** Feeds a stream block by block to a new finder, every block with its own threshold. What is
      reported is what `ReportedIsUnexceeded` speaks of, at positions counted from the start. */
  method RunEach(blocks: seq<seq<Value>>, thresholds: seq<Value>, patternSize: nat, start: Position) returns (found: seq<RawPeak>)
    requires 0 < patternSize / 2 && 3 * (patternSize / 2) + 1 < RING
    requires Matching(blocks, thresholds)
    requires |Flatten(blocks)| <= RING + patternSize / 2 && AllAddressable(blocks, patternSize / 2)
    ensures found == StampAll(start, ProcessEach(blocks, thresholds, patternSize / 2).1)
  {
    hide Slots, Reverse, Wrap, ProcessEach, ProcessBlock, S.ProcessBlock, S.RoomForBlock, Flatten, OnClock, StoreState, StampAll;
    ghost var window := patternSize / 2;
    ghost var st, reported := IDLE, [];
    var finder := new StreamingPeakFinder(patternSize);
    found := [];
    var streamPos := start;
    NothingEach(start, window);
    for i := 0 to |blocks|
      invariant finder.Valid() && fresh(finder.Footprint()) && finder.lockoutDistance == window
      invariant Matching(blocks[..i], thresholds[..i]) && (st, reported) == ProcessEach(blocks[..i], thresholds[..i], window)
      invariant OnClock(st, |Flatten(blocks[..i])|, window) && finder.State() == StoreState(start, |Flatten(blocks[..i])|, st)
      invariant streamPos == Wrap(start + |Flatten(blocks[..i])|) && found == StampAll(start, reported)
    {
      ghost var n := |Flatten(blocks[..i])|;
      EachNext(blocks, thresholds, i, window);
      FlattenPrefix(blocks, i + 1);
      BlockStored(start, st, blocks[i], n, thresholds[i], window);
      assert blocks[i] != [];
      var hits := finder.Process(blocks[i], streamPos, thresholds[i]);
      found := found + hits;
      ghost var step := ProcessBlock(st, blocks[i], n, thresholds[i], window);
      StampConcat(start, reported, step.1);
      st, reported := step.0, reported + step.1;
      WrapDifferences(start + n, -|blocks[i]|);
      streamPos := Wrap(streamPos + |blocks[i]|);
    }
    assert blocks[..|blocks|] == blocks && thresholds[..|blocks|] == thresholds;
  }

  lemma NothingEach(start: Position, window: nat)
    requires 1 <= window && 2 * window < RING
    ensures Flatten([]) == [] && ProcessEach([], [], window) == (IDLE, []) && StampAll(start, []) == []
    ensures OnClock(IDLE, 0, window) && StoreState(start, 0, IDLE) == S.FRESH && Wrap(start) == start
  {
    NothingOnClock(start, window);
    WrapIdentity(start);
  }
}
