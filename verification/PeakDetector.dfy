/** StreamingPeakDetector (dsp/peakfinder.hpp:88-187): from samples to raw peak events. */
module PeakDetector {
  import opened RingMath
  import opened PeakTypes
  import opened Sequences

  /** std::numeric_limits<int>, the sample type the repository instantiates the finder with. */
  const VALUE_MIN: int := -0x8000_0000
  const VALUE_MAX: int := 0x7FFF_FFFF

  type Value = x: int | VALUE_MIN <= x <= VALUE_MAX witness 0

  /** kFirstSamplePlateauSizeMarker */
  const FIRST_SAMPLE: int := RING - 1

  /** mLastValue and mCurrentPlateauSize. */
  datatype DetectorState = DetectorState(lastValue: Value, plateauSize: Position)

  const START: DetectorState := DetectorState(VALUE_MAX, FIRST_SAMPLE)

  /** The state after one sample, and the events it raises; `pos` is an unbounded clock. */
  function Step(d: DetectorState, sample: Value, pos: int, threshold: int, tooBig: Position): (DetectorState, seq<RawPeak>) {
    if d.lastValue < sample then
      (DetectorState(sample, 1), if sample >= threshold then [RawPeak(pos, sample, Rising)] else [])
    else if d.lastValue == sample then
      (if 0 < d.plateauSize < tooBig then d.(plateauSize := d.plateauSize + 1) else d, [])
    else
      (DetectorState(sample, 0),
       if 0 < d.plateauSize < tooBig && d.lastValue >= threshold then
         [RawPeak(pos - d.plateauSize / 2 - 1, d.lastValue, Peak)]
         + (if d.plateauSize / 2 > 0 then [RawPeak(pos - 1, d.lastValue, Falling)] else [])
       else if d.plateauSize != FIRST_SAMPLE && d.lastValue >= threshold then
         [RawPeak(pos - 1, d.lastValue, Falling)]
       else
         [])
  }

  function Detect(d: DetectorState, data: seq<Value>, pos: int, threshold: int, tooBig: Position): (DetectorState, seq<RawPeak>)
    decreases |data|
  {
    if data == [] then (d, [])
    else
      var (d1, events) := Detect(d, DropLast(data), pos, threshold, tooBig);
      var (d2, more) := Step(d1, Last(data), pos + |data| - 1, threshold, tooBig);
      (d2, events + more)
  }

  class StreamingPeakDetector {
    const tooBigPlateauSize: Position
    var lastValue: Value
    var currentPlateauSize: Position

    ghost predicate Valid() {
      0 < tooBigPlateauSize
    }

    function State(): DetectorState
      reads this
    {
      DetectorState(lastValue, currentPlateauSize)
    }

    constructor (maxPlateauSize: Position)
      requires maxPlateauSize > 0
      ensures Valid() && State() == START
      ensures tooBigPlateauSize == TooBig(maxPlateauSize)
    {
      tooBigPlateauSize := TooBig(maxPlateauSize);
      lastValue := VALUE_MAX;
      currentPlateauSize := FIRST_SAMPLE;
    }

    /** Processes a block; the events are returned in the order in which the handler gets them.
        The clock of the block's first sample is `origin + at`. */
    method Process(data: seq<Value>, streamPosAtStart: Position, peakThreshold: Value, ghost origin: int, ghost at: int)
      returns (events: seq<RawPeak>)
      requires Valid()
      requires streamPosAtStart == Wrap(origin + at)
      modifies this
      ensures var (d, raised) := Detect(old(State()), data, at, peakThreshold, tooBigPlateauSize);
              State() == d && events == StampAll(origin, raised)
    {
      hide Wrap, Detect;
      events := [];
      DetectNothing(State(), at, peakThreshold, tooBigPlateauSize);
      if |data| == 0 {
        return;
      }
      var last: Value, plateauSize: Position, streamPos: Position := lastValue, currentPlateauSize, streamPosAtStart;
      ghost var raised: seq<RawPeak> := [];
      for i := 0 to |data|
        invariant streamPos == Wrap(origin + at + i)
        invariant Detect(old(State()), data[..i], at, peakThreshold, tooBigPlateauSize) == (DetectorState(last, plateauSize), raised)
        invariant events == StampAll(origin, raised)
      {
        var sample := data[i];
        ghost var before := DetectorState(last, plateauSize);
        var raisedNow: seq<RawPeak> := [];
        if last < sample {
          plateauSize := 1;
          if sample >= peakThreshold {
            raisedNow := [RawPeak(streamPos, sample, Rising)];
          }
        } else if last == sample {
          if plateauSize > 0 && plateauSize < tooBigPlateauSize {
            plateauSize := plateauSize + 1;
          }
        } else {
          if plateauSize > 0 && plateauSize < tooBigPlateauSize && last >= peakThreshold {
            var rightHalfSize := plateauSize / 2;
            raisedNow := [RawPeak(Wrap(streamPos - rightHalfSize - 1), last, Peak)];
            if rightHalfSize > 0 {
              raisedNow := raisedNow + [RawPeak(Wrap(streamPos - 1), last, Falling)];
            }
          } else if plateauSize != FIRST_SAMPLE && last >= peakThreshold {
            raisedNow := [RawPeak(Wrap(streamPos - 1), last, Falling)];
          }
          plateauSize := 0;
        }
        events := events + raisedNow;
        last := sample;
        ghost var more := Step(before, sample, at + i, peakThreshold, tooBigPlateauSize).1;
        StampedStep(before, sample, origin, at + i, peakThreshold, tooBigPlateauSize);
        assert raisedNow == StampAll(origin, more);
        StampConcat(origin, raised, more);
        raised := raised + more;
        DetectNext(old(State()), data, i, at, peakThreshold, tooBigPlateauSize);
        streamPos := Wrap(streamPos + 1);
        WrapDifferences(origin + at + i, -1);
      }
      assert data[..|data|] == data;
      currentPlateauSize := plateauSize;
      lastValue := last;
    }

    function CurrentPlateauSize(): nat
      reads this
    {
      PendingPlateau(State(), tooBigPlateauSize)
    }

    function CurrentPlateauValue(): Value
      reads this
    {
      if CurrentPlateauSize() > 0 then lastValue else VALUE_MIN
    }
  }

  lemma DetectNothing(d: DetectorState, pos: int, threshold: int, tooBig: Position)
    ensures Detect(d, [], pos, threshold, tooBig) == (d, [])
  {
  }

  lemma DetectLast(d: DetectorState, data: seq<Value>, pos: int, threshold: int, tooBig: Position)
    requires data != []
    ensures var (d1, events) := Detect(d, DropLast(data), pos, threshold, tooBig);
            var (d2, more) := Step(d1, Last(data), pos + |data| - 1, threshold, tooBig);
            Detect(d, data, pos, threshold, tooBig) == (d2, events + more)
  {
  }

  lemma DetectNext(d: DetectorState, data: seq<Value>, i: nat, pos: int, threshold: int, tooBig: Position)
    requires i < |data|
    ensures var (d1, events) := Detect(d, data[..i], pos, threshold, tooBig);
            var (d2, more) := Step(d1, data[i], pos + i, threshold, tooBig);
            Detect(d, data[..i + 1], pos, threshold, tooBig) == (d2, events + more)
  {
    assert DropLast(data[..i + 1]) == data[..i];
  }

  /** Samples that stay at the last value raise no events. */
  lemma {:induction false} LevelIsSilent(d: DetectorState, data: seq<Value>, n: nat, threshold: int, tooBig: Position)
    requires d.plateauSize == 0 && forall i :: 0 <= i < |data| ==> data[i] == d.lastValue
    ensures Detect(d, data, n, threshold, tooBig) == (d, [])
    decreases |data|
  {
    if data == [] {
    } else {
      LevelIsSilent(d, DropLast(data), n, threshold, tooBig);
      assert Last(data) == data[|data| - 1] == d.lastValue;
      assert Step(d, Last(data), n + |data| - 1, threshold, tooBig) == (d, []);
      NothingAfter<RawPeak>([]);
    }
  }

  /** A sample raises at most two events. */
  lemma {:induction false} DetectRaisesFew(d: DetectorState, data: seq<Value>, pos: int, threshold: int, tooBig: Position)
    ensures |Detect(d, data, pos, threshold, tooBig).1| <= 2 * |data|
    decreases |data|
  {
    if data != [] {
      DetectRaisesFew(d, DropLast(data), pos, threshold, tooBig);
    }
  }

  /** A step on wrapped positions raises the stamped events. */
  lemma StampedStep(d: DetectorState, sample: Value, origin: int, pos: int, threshold: int, tooBig: Position)
    ensures StampAll(origin, Step(d, sample, pos, threshold, tooBig).1)
         == var streamPos := Wrap(origin + pos);
            if d.lastValue < sample then
              if sample >= threshold then [RawPeak(streamPos, sample, Rising)] else []
            else if d.lastValue == sample then []
            else if 0 < d.plateauSize < tooBig && d.lastValue >= threshold then
              [RawPeak(Wrap(streamPos - d.plateauSize / 2 - 1), d.lastValue, Peak)]
              + (if d.plateauSize / 2 > 0 then [RawPeak(Wrap(streamPos - 1), d.lastValue, Falling)] else [])
            else if d.plateauSize != FIRST_SAMPLE && d.lastValue >= threshold then
              [RawPeak(Wrap(streamPos - 1), d.lastValue, Falling)]
            else []
  {
    WrapDifferences(origin + pos, d.plateauSize / 2 + 1);
    WrapDifferences(origin + pos, 1);
  }

  lemma WrapDifferences(clock: int, d: int)
    ensures Wrap(Wrap(clock) - d) == Wrap(clock - d)
  {
  }

  /** The plateau counter, which stops at `tooBig`, never looks like the mark of an unstarted stream. */
  predicate Countable(length: nat, tooBig: Position) {
    length < FIRST_SAMPLE || tooBig < FIRST_SAMPLE
  }

  /** std::max(maxPlateauSize, maxPlateauSize + 1), where the sum may wrap to 0. */
  function TooBig(maxPlateauSize: Position): Position {
    var next := Wrap(maxPlateauSize + 1);
    if maxPlateauSize < next then next else maxPlateauSize
  }

  function PendingPlateau(d: DetectorState, tooBig: Position): nat {
    if d.plateauSize >= tooBig then 0 else d.plateauSize
  }

  // ----- What the events say about the samples

  /** Start of the run of equal values that the sequence ends with. */
  function RunStart(s: seq<Value>): (l: nat)
    requires s != []
    ensures l < |s| && (forall k :: l <= k < |s| ==> s[k] == Last(s)) && (l > 0 ==> s[l - 1] != s[l])
    decreases |s|
  {
    if |s| > 1 && s[|s| - 2] == Last(s) then
      assert Last(DropLast(s)) == Last(s);
      RunStart(DropLast(s))
    else |s| - 1
  }

  /** A maximal run of equal values, strictly higher than both neighbours. */
  ghost predicate Hill(s: seq<Value>, l: int, r: int) {
    && 0 < l <= r < |s| - 1
    && (forall k :: l <= k <= r ==> s[k] == s[l])
    && s[l - 1] < s[l]
    && s[r] > s[r + 1]
  }

  function Middle(l: int, r: int): int {
    l + (r - l) / 2
  }

  /** A raw peak: the middle of a hill that is neither too long nor too low. */
  ghost predicate RawPeakAt(s: seq<Value>, c: int, threshold: int, tooBig: int) {
    exists l, r :: Hill(s, l, r) && c == Middle(l, r) && r - l + 1 < tooBig && s[l] >= threshold
  }

  ghost predicate RiseAt(s: seq<Value>, k: int, threshold: int) {
    0 < k < |s| && s[k - 1] < s[k] && s[k] >= threshold
  }

  ghost predicate FallAt(s: seq<Value>, k: int, threshold: int) {
    0 <= k < |s| - 1 && s[k] > s[k + 1] && s[k] >= threshold
  }

  /** The largest representable value doubles as the mark of an unstarted stream, so a stream that
      begins with it looks unstarted until it falls. */
  ghost predicate Unstarted(s: seq<Value>, k: int)
    requires k < |s|
  {
    forall j :: 0 <= j <= k ==> s[j] == VALUE_MAX
  }

  /** A fall that is reported as such, unless a one-sample peak is reported in its place. */
  ghost predicate ReportedFall(s: seq<Value>, k: int, threshold: int, tooBig: int) {
    && FallAt(s, k, threshold)
    && !Unstarted(s, k)
    && !(RawPeakAt(s, k, threshold, tooBig))
  }

  /** All events of a stream that starts at clock 0. */
  function Events(s: seq<Value>, threshold: int, tooBig: Position): seq<RawPeak> {
    Detect(START, s, 0, threshold, tooBig).1
  }

  /** What the detector remembers about the samples it has seen. */
  ghost predicate Tracks(d: DetectorState, s: seq<Value>, tooBig: Position) {
    if s == [] then d == START
    else
      && d.lastValue == Last(s)
      && d.plateauSize == if Unstarted(s, |s| - 1) then FIRST_SAMPLE else RisenPlateau(s, tooBig)
  }

  /** Length, capped, of the final run if it was reached by a rise. */
  function RisenPlateau(s: seq<Value>, tooBig: Position): Position
    requires s != []
  {
    var l := RunStart(s);
    if l > 0 && s[l - 1] < s[l] then (if |s| - l < tooBig then |s| - l else tooBig) else 0
  }

  lemma RunStartNext(s: seq<Value>, x: Value)
    requires s != []
    ensures RunStart(s + [x]) == if x == Last(s) then RunStart(s) else |s|
  {
    assert DropLast(s + [x]) == s;
  }

  lemma EventsNext(s: seq<Value>, x: Value, threshold: int, tooBig: Position)
    ensures var d := Detect(START, s, 0, threshold, tooBig).0;
            Detect(START, s + [x], 0, threshold, tooBig)
            == (Step(d, x, |s|, threshold, tooBig).0, Events(s, threshold, tooBig) + Step(d, x, |s|, threshold, tooBig).1)
  {
    assert DropLast(s + [x]) == s;
  }

  lemma {:induction false} DetectorTracks(s: seq<Value>, threshold: int, tooBig: Position)
    requires 0 < tooBig && Countable(|s|, tooBig)
    ensures Tracks(Detect(START, s, 0, threshold, tooBig).0, s, tooBig)
  {
    hide Detect, Step, Tracks;
    if s == [] {
      DetectNothing(START, 0, threshold, tooBig);
      NothingTracked(tooBig);
    } else {
      var before, x := DropLast(s), Last(s);
      assert s == before + [x];
      DetectorTracks(before, threshold, tooBig);
      EventsNext(before, x, threshold, tooBig);
      StepTracks(Detect(START, before, 0, threshold, tooBig).0, before, x, threshold, tooBig);
    }
  }

  lemma NothingTracked(tooBig: Position)
    ensures Tracks(START, [], tooBig)
  {
  }

  lemma StepTracks(d: DetectorState, s: seq<Value>, x: Value, threshold: int, tooBig: Position)
    requires 0 < tooBig && Countable(|s| + 1, tooBig)
    requires Tracks(d, s, tooBig)
    ensures Tracks(Step(d, x, |s|, threshold, tooBig).0, s + [x], tooBig)
  {
    hide Unstarted, RisenPlateau;
    UnstartedNext(s, x);
    if s != [] {
      RisenPlateauNext(s, x, tooBig);
    } else {
      FirstPlateau(x, tooBig);
    }
  }

  lemma UnstartedNext(s: seq<Value>, x: Value)
    ensures Unstarted(s + [x], |s|) <==> x == VALUE_MAX && (s == [] || Unstarted(s, |s| - 1))
    ensures s != [] && Unstarted(s, |s| - 1) ==> Last(s) == VALUE_MAX
  {
    var s' := s + [x];
    if Unstarted(s', |s|) {
      forall j | 0 <= j < |s| ensures s[j] == VALUE_MAX {
        assert s'[j] == VALUE_MAX;
      }
      assert s'[|s|] == VALUE_MAX;
    }
    if x == VALUE_MAX && (s == [] || Unstarted(s, |s| - 1)) {
      forall j | 0 <= j <= |s| ensures s'[j] == VALUE_MAX {
      }
    }
  }

  lemma FirstPlateau(x: Value, tooBig: Position)
    ensures RisenPlateau([] + [x], tooBig) == 0
  {
    assert [] + [x] == [x];
  }

  lemma RisenPlateauNext(s: seq<Value>, x: Value, tooBig: Position)
    requires s != [] && 0 < tooBig
    ensures RisenPlateau(s + [x], tooBig)
         == if Last(s) < x then 1
            else if Last(s) > x then 0
            else if 0 < RisenPlateau(s, tooBig) < tooBig then RisenPlateau(s, tooBig) + 1
            else RisenPlateau(s, tooBig)
    ensures 0 <= RisenPlateau(s, tooBig) <= |s| && RisenPlateau(s, tooBig) <= tooBig
  {
    RunStartNext(s, x);
    var l := RunStart(s);
    assert (s + [x])[l] == s[l] == Last(s);
    if l > 0 {
      assert (s + [x])[l - 1] == s[l - 1];
    }
  }

  /** A new sample completes at most one hill, the run before it. */
  lemma HillNext(s: seq<Value>, x: Value, l: int, r: int)
    requires s != []
    ensures Hill(s + [x], l, r)
       <==> Hill(s, l, r)
            || (r == |s| - 1 && l == RunStart(s) && 0 < l && s[l - 1] < s[l] && Last(s) > x)
  {
    var s' := s + [x];
    if 0 < l <= r < |s| {
      assert forall k :: l - 1 <= k <= r ==> s'[k] == s[k];
      if r < |s| - 1 {
        assert s'[r + 1] == s[r + 1];
      } else if Hill(s', l, r) {
        assert s[RunStart(s)] == s[l];
      }
    }
  }

  lemma RawPeakNext(s: seq<Value>, x: Value, c: int, threshold: int, tooBig: int)
    requires s != []
    ensures RawPeakAt(s + [x], c, threshold, tooBig)
       <==> RawPeakAt(s, c, threshold, tooBig) || NewPeak(s, x, c, threshold, tooBig)
  {
    var s' := s + [x];
    if l, r :| Hill(s, l, r) && c == Middle(l, r) && r - l + 1 < tooBig && s[l] >= threshold {
      HillNext(s, x, l, r);
      assert Hill(s', l, r) && s'[l] == s[l];
    }
    if NewPeak(s, x, c, threshold, tooBig) {
      HillNext(s, x, RunStart(s), |s| - 1);
      assert Hill(s', RunStart(s), |s| - 1) && s'[RunStart(s)] == s[RunStart(s)];
    }
    if l, r :| Hill(s', l, r) && c == Middle(l, r) && r - l + 1 < tooBig && s'[l] >= threshold {
      HillNext(s, x, l, r);
      assert s'[l] == s[l];
    }
  }

  ghost predicate NewPeak(s: seq<Value>, x: Value, c: int, threshold: int, tooBig: int)
    requires s != []
  {
    var l := RunStart(s);
    0 < l && s[l - 1] < s[l] && Last(s) > x && c == Middle(l, |s| - 1) && |s| - l < tooBig && s[l] >= threshold
  }

  lemma FallNext(s: seq<Value>, x: Value, k: int, threshold: int, tooBig: int)
    requires s != []
    ensures ReportedFall(s + [x], k, threshold, tooBig)
       <==> ReportedFall(s, k, threshold, tooBig)
            || (k == |s| - 1 && Last(s) > x && Last(s) >= threshold && !Unstarted(s, k) && !NewPeak(s, x, k, threshold, tooBig))
  {
    var s' := s + [x];
    RawPeakNext(s, x, k, threshold, tooBig);
    if 0 <= k < |s| {
      assert forall j :: 0 <= j <= k ==> s'[j] == s[j];
      assert Unstarted(s', k) <==> Unstarted(s, k);
    }
  }

  /** The events of a stream are its rises, its raw peaks and its remaining falls. */
  ghost predicate EventsExactAt(s: seq<Value>, k: int, v: int, threshold: int, tooBig: Position) {
    var events := Events(s, threshold, tooBig);
    && (RawPeak(k, v, Rising) in events <==> RiseAt(s, k, threshold) && v == s[k])
    && (RawPeak(k, v, Peak) in events <==> RawPeakAt(s, k, threshold, tooBig) && 0 <= k < |s| && v == s[k])
    && (RawPeak(k, v, Falling) in events <==> ReportedFall(s, k, threshold, tooBig) && v == s[k])
  }

  lemma RawPeakInside(s: seq<Value>, c: int, threshold: int, tooBig: int)
    requires RawPeakAt(s, c, threshold, tooBig)
    ensures 0 < c < |s| - 1 && s[c] >= threshold
  {
  }

  lemma {:induction false} EventsExact(s: seq<Value>, threshold: int, tooBig: Position)
    requires 0 < tooBig && Countable(|s|, tooBig)
    ensures forall k, v :: EventsExactAt(s, k, v, threshold, tooBig)
  {
    hide EventsExactAt, Detect;
    if |s| <= 1 {
      forall k, v ensures EventsExactAt(s, k, v, threshold, tooBig) {
        NothingRaisedYet(s, k, v, threshold, tooBig);
      }
    } else {
      var before, x := DropLast(s), Last(s);
      assert s == before + [x];
      EventsExact(before, threshold, tooBig);
      forall k, v ensures EventsExactAt(s, k, v, threshold, tooBig) {
        EventsExactNext(before, x, k, v, threshold, tooBig);
      }
    }
  }

  /** A detector made for plateaus of up to maxPlateauSize samples takes exactly the hills of up to
      that length for peaks, whatever the maximum. */
  lemma PlateauLimitIsExact(s: seq<Value>, threshold: int, maxPlateauSize: Position, k: int, v: int)
    requires 0 < maxPlateauSize && |s| < FIRST_SAMPLE
    ensures RawPeak(k, v, Peak) in Events(s, threshold, TooBig(maxPlateauSize))
       <==> exists l, r :: Hill(s, l, r) && k == Middle(l, r) && r - l + 1 <= maxPlateauSize && s[l] >= threshold && v == s[l]
  {
    hide Detect;
    var tooBig := TooBig(maxPlateauSize);
    EventsExact(s, threshold, tooBig);
    assert EventsExactAt(s, k, v, threshold, tooBig);
    forall l, r | Hill(s, l, r) ensures r - l + 1 < tooBig <==> r - l + 1 <= maxPlateauSize {
    }
    if RawPeakAt(s, k, threshold, tooBig) {
      var l, r :| Hill(s, l, r) && k == Middle(l, r) && r - l + 1 < tooBig && s[l] >= threshold;
      assert s[k] == s[l];
    }
  }

  lemma NothingRaisedYet(s: seq<Value>, k: int, v: int, threshold: int, tooBig: Position)
    requires |s| <= 1
    ensures EventsExactAt(s, k, v, threshold, tooBig)
  {
    hide Detect;
    if s == [] {
      DetectNothing(START, 0, threshold, tooBig);
    } else {
      assert DropLast(s) == [];
      DetectNothing(START, 0, threshold, tooBig);
      DetectLast(START, s, 0, threshold, tooBig);
    }
  }

  lemma EventsExactNext(s: seq<Value>, x: Value, k: int, v: int, threshold: int, tooBig: Position)
    requires s != [] && 0 < tooBig && Countable(|s|, tooBig)
    requires EventsExactAt(s, k, v, threshold, tooBig)
    ensures EventsExactAt(s + [x], k, v, threshold, tooBig)
  {
    hide Detect, Step, Tracks, RawPeakAt, ReportedFall, NewPeak, Unstarted;
    EventsNext(s, x, threshold, tooBig);
    DetectorTracks(s, threshold, tooBig);
    var d := Detect(START, s, 0, threshold, tooBig).0;
    RawPeakNext(s, x, k, threshold, tooBig);
    FallNext(s, x, k, threshold, tooBig);
    RaisedAre(d, s, x, k, v, threshold, tooBig);
    RaisedInside(s, x, k, threshold, tooBig);
  }

  /** What one more sample raises. */
  lemma RaisedAre(d: DetectorState, s: seq<Value>, x: Value, k: int, v: int, threshold: int, tooBig: Position)
    requires s != [] && 0 < tooBig && Countable(|s|, tooBig) && Tracks(d, s, tooBig)
    ensures var more := Step(d, x, |s|, threshold, tooBig).1;
            && (RawPeak(k, v, Rising) in more <==> k == |s| && Last(s) < x && x >= threshold && v == x)
            && (RawPeak(k, v, Peak) in more <==> NewPeak(s, x, k, threshold, tooBig) && v == Last(s))
            && (RawPeak(k, v, Falling) in more <==>
                  k == |s| - 1 && Last(s) > x && Last(s) >= threshold && !Unstarted(s, k)
                  && !NewPeak(s, x, k, threshold, tooBig) && v == Last(s))
  {
    hide Unstarted;
    var l := RunStart(s);
    UnstartedIsFirstRun(s);
    assert l < |s| - 1 <==> Middle(l, |s| - 1) != |s| - 1;
  }

  lemma UnstartedIsFirstRun(s: seq<Value>)
    requires s != []
    ensures Unstarted(s, |s| - 1) ==> RunStart(s) == 0
  {
    var l := RunStart(s);
    if l > 0 {
      assert s[l - 1] != s[l];
    }
  }

  /** Rises, peaks and falls lie inside the stream, where one more sample changes no value. */
  lemma RaisedInside(s: seq<Value>, x: Value, k: int, threshold: int, tooBig: int)
    requires s != []
    ensures RiseAt(s + [x], k, threshold) <==> RiseAt(s, k, threshold) || (k == |s| && Last(s) < x && x >= threshold)
    ensures RawPeakAt(s, k, threshold, tooBig) ==> 0 <= k < |s|
    ensures NewPeak(s, x, k, threshold, tooBig) ==> 0 <= k < |s| && s[k] == Last(s)
    ensures ReportedFall(s, k, threshold, tooBig) ==> 0 <= k < |s|
    ensures 0 <= k < |s| ==> (s + [x])[k] == s[k]
  {
  }

  /** Processing a stream block by block raises the events of processing it at once. */
  lemma {:induction false} DetectSplit(d: DetectorState, a: seq<Value>, b: seq<Value>, pos: int, threshold: int, tooBig: Position)
    ensures var (d1, first) := Detect(d, a, pos, threshold, tooBig);
            var (d2, second) := Detect(d1, b, pos + |a|, threshold, tooBig);
            Detect(d, a + b, pos, threshold, tooBig) == (d2, first + second)
    decreases |b|
  {
    hide Detect, Step;
    var (d1, first) := Detect(d, a, pos, threshold, tooBig);
    if b == [] {
      assert a + b == a;
      DetectNothing(d1, pos + |a|, threshold, tooBig);
      NothingAfter(first);
    } else {
      DetectSplit(d, a, DropLast(b), pos, threshold, tooBig);
      assert DropLast(a + b) == a + DropLast(b) && Last(a + b) == Last(b);
      DetectLast(d, a + b, pos, threshold, tooBig);
      DetectLast(d1, b, pos + |a|, threshold, tooBig);
      var (d2, second) := Detect(d1, DropLast(b), pos + |a|, threshold, tooBig);
      AppendAll(first, second, Step(d2, Last(b), pos + |a| + |b| - 1, threshold, tooBig).1);
    }
  }
}
