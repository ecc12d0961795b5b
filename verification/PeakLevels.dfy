/** StreamingPeakDetector (dsp/peakfinder.hpp:88-187) and StreamingPeakFinder::process (462-517) with
    a threshold of its own for every block: how blocks are processed, and what the detector raises. */
module PeakLevels {
  import opened RingMath
  import opened PeakTypes
  import opened PeakDetector
  import opened PeakPipeline
  import opened Sequences

  predicate Matching(blocks: seq<seq<Value>>, thresholds: seq<int>) {
    |blocks| == |thresholds| && NonEmptyBlocks(blocks)
  }

  /** A new finder gets every block with the block's own threshold. */
  function ProcessEach(blocks: seq<seq<Value>>, thresholds: seq<int>, window: nat): (FinderState, seq<RawPeak>)
    requires Matching(blocks, thresholds) && 2 * window < RING
    decreases |blocks|
  {
    if blocks == [] then (IDLE, [])
    else
      var (st, found) := ProcessEach(DropLast(blocks), DropLast(thresholds), window);
      var (st', more) := ProcessBlock(st, Last(blocks), |Flatten(DropLast(blocks))|, Last(thresholds), window);
      (st', found + more)
  }

  // ----- What the detector raises

  /** The threshold that a sample meets. */
  function Levels(blocks: seq<seq<Value>>, thresholds: seq<int>): (levels: seq<int>)
    requires |blocks| == |thresholds|
    ensures |levels| == |Flatten(blocks)|
    decreases |blocks|
  {
    if blocks == [] then [] else Levels(DropLast(blocks), DropLast(thresholds)) + Same(Last(thresholds), |Last(blocks)|)
  }

  function Same(threshold: int, size: nat): (levels: seq<int>)
    ensures |levels| == size && forall i :: 0 <= i < size ==> levels[i] == threshold
  {
    seq(size, _ => threshold)
  }

  /** The detector after a stream whose samples meet the given thresholds, and all that it raised. */
  function Observe(s: seq<Value>, levels: seq<int>, tooBig: Position): (DetectorState, seq<RawPeak>)
    requires |levels| == |s|
    decreases |s|
  {
    if s == [] then (START, [])
    else
      var (d, events) := Observe(DropLast(s), DropLast(levels), tooBig);
      var (d', more) := Step(d, Last(s), |s| - 1, Last(levels), tooBig);
      (d', events + more)
  }

  lemma ObserveNext(s: seq<Value>, levels: seq<int>, x: Value, level: int, tooBig: Position)
    requires |levels| == |s|
    ensures var (d, events) := Observe(s, levels, tooBig);
            var (d', more) := Step(d, x, |s|, level, tooBig);
            Observe(s + [x], levels + [level], tooBig) == (d', events + more)
  {
    assert DropLast(s + [x]) == s && DropLast(levels + [level]) == levels;
  }

  /** A block's events are those of its samples at the block's threshold. */
  lemma {:induction false} ObserveBlock(s: seq<Value>, levels: seq<int>, data: seq<Value>, threshold: int, tooBig: Position)
    requires |levels| == |s|
    ensures var (d, events) := Observe(s, levels, tooBig);
            var (d', more) := Detect(d, data, |s|, threshold, tooBig);
            Observe(s + data, levels + Same(threshold, |data|), tooBig) == (d', events + more)
    decreases |data|
  {
    hide Step, Observe, Detect;
    var (d, events) := Observe(s, levels, tooBig);
    if data == [] {
      NothingAfter(s);
      NothingAfter(levels);
      NothingAfter(events);
      DetectNothing(d, |s|, threshold, tooBig);
      assert Same(threshold, 0) == [];
    } else {
      var before, x := DropLast(data), Last(data);
      ObserveBlock(s, levels, before, threshold, tooBig);
      ObserveNext(s + before, levels + Same(threshold, |before|), x, threshold, tooBig);
      DetectLast(d, data, |s|, threshold, tooBig);
      AppendSplit(s, data);
      assert levels + Same(threshold, |before|) + [threshold] == levels + Same(threshold, |data|);
      var (d1, first) := Detect(d, before, |s|, threshold, tooBig);
      AppendAll(events, first, Step(d1, x, |s| + |data| - 1, threshold, tooBig).1);
    }
  }

  /** Thresholds do not matter to what the detector remembers. */
  lemma {:induction false} ObserverTracks(s: seq<Value>, levels: seq<int>, tooBig: Position)
    requires |levels| == |s| && 0 < tooBig < FIRST_SAMPLE
    ensures Tracks(Observe(s, levels, tooBig).0, s, tooBig)
    decreases |s|
  {
    hide Tracks, Step;
    if s == [] {
      NothingTracked(tooBig);
    } else {
      var before := DropLast(s);
      assert s == before + [Last(s)];
      ObserverTracks(before, DropLast(levels), tooBig);
      StepTracks(Observe(before, DropLast(levels), tooBig).0, before, Last(s), Last(levels), tooBig);
    }
  }

  /** The middle of a hill that is not too long, and high enough for the sample that ended it. */
  ghost predicate PeakSeen(s: seq<Value>, levels: seq<int>, c: int, tooBig: int)
    requires |levels| == |s|
  {
    exists l, r :: Hill(s, l, r) && c == Middle(l, r) && r - l + 1 < tooBig && s[l] >= levels[r + 1]
  }

  /** What was raised about sample k: a rise by the threshold that the sample itself met, a peak or
      a fall by the threshold that the sample after it met. */
  ghost predicate RaisedExactlyAt(s: seq<Value>, levels: seq<int>, k: int, v: int, tooBig: Position)
    requires |levels| == |s|
  {
    var events := Observe(s, levels, tooBig).1;
    && (RawPeak(k, v, Rising) in events <==> 0 < k < |s| && s[k - 1] < s[k] && s[k] >= levels[k] && v == s[k])
    && (RawPeak(k, v, Peak) in events <==> PeakSeen(s, levels, k, tooBig) && 0 <= k < |s| && v == s[k])
    && (RawPeak(k, v, Falling) in events <==>
          && 0 <= k < |s| - 1 && s[k] > s[k + 1] && s[k] >= levels[k + 1] && v == s[k]
          && !Unstarted(s, k) && !PeakSeen(s, levels, k, tooBig))
  }

  lemma PeakStaysSeen(s: seq<Value>, levels: seq<int>, x: Value, level: int, c: int, tooBig: int)
    requires s != [] && |levels| == |s| && PeakSeen(s, levels, c, tooBig)
    ensures PeakSeen(s + [x], levels + [level], c, tooBig)
  {
    var l, r :| Hill(s, l, r) && c == Middle(l, r) && r - l + 1 < tooBig && s[l] >= levels[r + 1];
    HillNext(s, x, l, r);
    assert Hill(s + [x], l, r);
  }

  lemma NewPeakIsSeen(s: seq<Value>, levels: seq<int>, x: Value, level: int, c: int, tooBig: int)
    requires s != [] && |levels| == |s| && NewPeak(s, x, c, level, tooBig)
    ensures PeakSeen(s + [x], levels + [level], c, tooBig)
  {
    var l := RunStart(s);
    HillNext(s, x, l, |s| - 1);
    assert Hill(s + [x], l, |s| - 1) && (s + [x])[l] == s[l] && (levels + [level])[|s|] == level;
  }

  lemma PeakWasSeen(s: seq<Value>, levels: seq<int>, x: Value, level: int, c: int, tooBig: int)
    requires s != [] && |levels| == |s| && PeakSeen(s + [x], levels + [level], c, tooBig)
    ensures PeakSeen(s, levels, c, tooBig) || NewPeak(s, x, c, level, tooBig)
  {
    var s', levels' := s + [x], levels + [level];
    var l, r :| Hill(s', l, r) && c == Middle(l, r) && r - l + 1 < tooBig && s'[l] >= levels'[r + 1];
    HillNext(s, x, l, r);
    assert s'[l] == s[l];
  }

  lemma PeakSeenNext(s: seq<Value>, levels: seq<int>, x: Value, level: int, c: int, tooBig: int)
    requires s != [] && |levels| == |s|
    ensures PeakSeen(s + [x], levels + [level], c, tooBig) <==> PeakSeen(s, levels, c, tooBig) || NewPeak(s, x, c, level, tooBig)
  {
    hide PeakSeen, NewPeak;
    if PeakSeen(s, levels, c, tooBig) {
      PeakStaysSeen(s, levels, x, level, c, tooBig);
    }
    if NewPeak(s, x, c, level, tooBig) {
      NewPeakIsSeen(s, levels, x, level, c, tooBig);
    }
    if PeakSeen(s + [x], levels + [level], c, tooBig) {
      PeakWasSeen(s, levels, x, level, c, tooBig);
    }
  }

  lemma PeakSeenInside(s: seq<Value>, levels: seq<int>, c: int, tooBig: int)
    requires |levels| == |s| && PeakSeen(s, levels, c, tooBig)
    ensures 0 < c < |s| - 1
  {
  }

  lemma RaisedExactlyNext(s: seq<Value>, levels: seq<int>, x: Value, level: int, k: int, v: int, tooBig: Position)
    requires s != [] && |levels| == |s| && 0 < tooBig < FIRST_SAMPLE
    requires RaisedExactlyAt(s, levels, k, v, tooBig)
    ensures RaisedExactlyAt(s + [x], levels + [level], k, v, tooBig)
  {
    hide Observe, Step, Tracks, PeakSeen, NewPeak, Unstarted;
    var d := Observe(s, levels, tooBig).0;
    ObserverTracks(s, levels, tooBig);
    ObserveNext(s, levels, x, level, tooBig);
    RaisedAre(d, s, x, k, v, level, tooBig);
    PeakSeenNext(s, levels, x, level, k, tooBig);
    RaisedInside(s, x, k, level, tooBig);
    if 0 <= k < |s| {
      UnstartedPrefix(s, x, k);
    }
    if PeakSeen(s, levels, k, tooBig) {
      PeakSeenInside(s, levels, k, tooBig);
    }
    if NewPeak(s, x, k, level, tooBig) {
      NewPeakOnRun(s, x, k, level, tooBig);
    }
  }

  lemma NewPeakOnRun(s: seq<Value>, x: Value, c: int, level: int, tooBig: int)
    requires s != [] && NewPeak(s, x, c, level, tooBig)
    ensures 0 < c < |s| && (c < |s| - 1 ==> s[c] == s[c + 1])
  {
  }

  lemma UnstartedPrefix(s: seq<Value>, x: Value, k: int)
    requires 0 <= k < |s|
    ensures Unstarted(s + [x], k) <==> Unstarted(s, k)
  {
    assert forall j :: 0 <= j <= k ==> (s + [x])[j] == s[j];
  }

  lemma {:induction false} RaisedExactly(s: seq<Value>, levels: seq<int>, tooBig: Position)
    requires |levels| == |s| && 0 < tooBig < FIRST_SAMPLE
    ensures forall k, v :: RaisedExactlyAt(s, levels, k, v, tooBig)
    decreases |s|
  {
    hide RaisedExactlyAt, Observe;
    forall k, v ensures RaisedExactlyAt(s, levels, k, v, tooBig) {
      if |s| <= 1 {
        NothingSeenYet(s, levels, k, v, tooBig);
      } else {
        var before, lower := DropLast(s), DropLast(levels);
        RaisedExactly(before, lower, tooBig);
        RaisedExactlyNext(before, lower, Last(s), Last(levels), k, v, tooBig);
        assert s == before + [Last(s)] && levels == lower + [Last(levels)];
      }
    }
  }

  lemma NothingSeenYet(s: seq<Value>, levels: seq<int>, k: int, v: int, tooBig: Position)
    requires |levels| == |s| <= 1
    ensures RaisedExactlyAt(s, levels, k, v, tooBig)
  {
    if s != [] {
      assert DropLast(s) == [];
      assert Observe(DropLast(s), DropLast(levels), tooBig) == (START, []);
    }
  }
}
