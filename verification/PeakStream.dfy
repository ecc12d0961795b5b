/** What the events of the peak detector and the decisions of the isolator mean for the samples
    of the stream (dsp/peakfinder.hpp:425-517). Clock 0 is the first sample of the stream. */
module PeakStream {
  import opened RingMath
  import opened PeakTypes
  import opened PeakDetector
  import opened DominantPeaks
  import opened Sequences

  // ----- The events come in the order the isolator expects

  ghost predicate Risen(s: seq<Value>)
    requires s != []
  {
    RunStart(s) > 0 && s[RunStart(s) - 1] < s[RunStart(s)]
  }

  /** The youngest events, relative to the end of the stream. */
  ghost predicate Frontier(s: seq<Value>, events: seq<RawPeak>, threshold: int) {
    if s == [] then events == []
    else
      var l := RunStart(s);
      && (forall e :: e in events ==> e.streamPos <= if Risen(s) then l else |s| - 2)
      && (if Risen(s) && s[l] >= threshold
          then events != [] && Last(events) == RawPeak(l, s[l], Rising)
          else (events == [] || Last(events).kind != Rising) && (Risen(s) ==> forall e :: e in events ==> e.streamPos < l))
  }

  ghost predicate WellOrdered(events: seq<RawPeak>) {
    InOrder(events) && RisesContinue(events)
  }

  lemma AppendLater(events: seq<RawPeak>, e: RawPeak)
    requires WellOrdered(events)
    requires forall x :: x in events ==> x.streamPos < e.streamPos
    requires events != [] && Last(events).kind == Rising ==> Last(events).value <= e.value
    ensures WellOrdered(events + [e])
  {
    forall i | 0 <= i < |events| ensures events[i].streamPos < e.streamPos {
      assert events[i] in events;
    }
  }

  lemma AppendPromotion(events: seq<RawPeak>, e: RawPeak)
    requires WellOrdered(events)
    requires events != [] && Last(events).kind == Rising && e.kind != Rising
    requires Last(events).streamPos <= e.streamPos && Last(events).value == e.value
    ensures WellOrdered(events + [e])
  {
    var last := Last(events);
    forall i | 0 <= i < |events| - 1 ensures events[i].streamPos < last.streamPos {
      assert events[|events| - 1] == last;
    }
  }

  lemma {:induction false} EventsWellOrdered(s: seq<Value>, threshold: int, tooBig: Position)
    requires 0 < tooBig && Countable(|s|, tooBig)
    ensures WellOrdered(Events(s, threshold, tooBig)) && Frontier(s, Events(s, threshold, tooBig), threshold)
  {
    if |s| == 1 {
      FirstSampleIsSilent(s, threshold, tooBig);
    } else if |s| > 1 {
      var before, x := DropLast(s), Last(s);
      assert s == before + [x];
      EventsWellOrdered(before, threshold, tooBig);
      EventsNext(before, x, threshold, tooBig);
      NextEventsWellOrdered(before, x, threshold, tooBig);
    }
  }

  lemma FirstSampleIsSilent(s: seq<Value>, threshold: int, tooBig: Position)
    requires |s| == 1
    ensures Events(s, threshold, tooBig) == []
  {
    assert DropLast(s) == [];
    assert Detect(START, [], 0, threshold, tooBig) == (START, []);
  }

  /** The events of one more sample. */
  function NewEvents(s: seq<Value>, x: Value, threshold: int, tooBig: Position): seq<RawPeak> {
    Step(Detect(START, s, 0, threshold, tooBig).0, x, |s|, threshold, tooBig).1
  }

  /** The new events, told from the samples alone. */
  function RaisedBy(s: seq<Value>, x: Value, threshold: int, tooBig: Position): seq<RawPeak>
    requires s != []
  {
    if Last(s) < x then
      if x >= threshold then [RawPeak(|s|, x, Rising)] else []
    else if Last(s) == x || Last(s) < threshold then []
    else if RisenPlateau(s, tooBig) > 0 then PlateauEnd(RunStart(s), |s|, Last(s), tooBig)
    else if s[0] == VALUE_MAX && RunStart(s) == 0 then []
    else [RawPeak(|s| - 1, Last(s), Falling)]
  }

  function PlateauEnd(l: nat, end: nat, value: int, tooBig: Position): seq<RawPeak> {
    if end - l < tooBig then PeakEvents(l, end - 1, value) else [RawPeak(end - 1, value, Falling)]
  }

  /** A hill's peak, and the end of its plateau where that is another sample. */
  function PeakEvents(l: int, r: int, value: int): seq<RawPeak> {
    [RawPeak(Middle(l, r), value, Peak)] + (if r > l then [RawPeak(r, value, Falling)] else [])
  }

  lemma NewEventsAre(s: seq<Value>, x: Value, threshold: int, tooBig: Position)
    requires s != [] && 0 < tooBig && Countable(|s|, tooBig)
    ensures NewEvents(s, x, threshold, tooBig) == RaisedBy(s, x, threshold, tooBig)
  {
    DetectorTracks(s, threshold, tooBig);
    var d := Detect(START, s, 0, threshold, tooBig).0;
    UnstartedRun(s);
    if Last(s) > x && RisenPlateau(s, tooBig) > 0 {
      StepOffPlateau(d, RunStart(s), |s|, x, threshold, tooBig);
    }
  }

  lemma UnstartedRun(s: seq<Value>)
    requires s != []
    ensures Unstarted(s, |s| - 1) <==> s[0] == VALUE_MAX && RunStart(s) == 0
  {
    var l := RunStart(s);
    if l > 0 {
      assert s[l - 1] != s[l];
    }
  }

  lemma StepOffPlateau(d: DetectorState, l: nat, end: nat, x: Value, threshold: int, tooBig: Position)
    requires 0 < tooBig && l < end && Countable(end, tooBig)
    requires d.plateauSize == if end - l < tooBig then end - l else tooBig
    requires d.lastValue > x
    ensures Step(d, x, end, threshold, tooBig).1
         == if d.lastValue < threshold then [] else PlateauEnd(l, end, d.lastValue, tooBig)
  {
    MiddleFromEnd(l, end);
  }

  lemma MiddleFromEnd(l: int, end: int)
    requires l < end
    ensures end - (end - l) / 2 - 1 == Middle(l, end - 1)
    ensures (end - l) / 2 > 0 <==> end - 1 > l
  {
  }

  lemma NextEventsWellOrdered(s: seq<Value>, x: Value, threshold: int, tooBig: Position)
    requires s != [] && 0 < tooBig && Countable(|s|, tooBig)
    requires WellOrdered(Events(s, threshold, tooBig)) && Frontier(s, Events(s, threshold, tooBig), threshold)
    ensures var more := NewEvents(s, x, threshold, tooBig);
            var events := Events(s, threshold, tooBig);
            && |more| <= 2
            && (|more| > 0 ==> WellOrdered(events + [more[0]]))
            && WellOrdered(events + more)
            && Frontier(s + [x], events + more, threshold)
  {
    NewEventsAre(s, x, threshold, tooBig);
    RaisedInOrder(s, x, Events(s, threshold, tooBig), threshold, tooBig);
  }

  /** What a new sample raises fits behind the events so far. */
  lemma RaisedInOrder(s: seq<Value>, x: Value, events: seq<RawPeak>, threshold: int, tooBig: Position)
    requires s != [] && 0 < tooBig && Countable(|s|, tooBig)
    requires WellOrdered(events) && Frontier(s, events, threshold)
    ensures var more := RaisedBy(s, x, threshold, tooBig);
            && |more| <= 2
            && (|more| > 0 ==> WellOrdered(events + [more[0]]))
            && WellOrdered(events + more)
            && Frontier(s + [x], events + more, threshold)
  {
    var more := RaisedBy(s, x, threshold, tooBig);
    NextFrontier(s, x, events, more, threshold);
    if |more| == 0 {
      NothingAfter(events);
    } else {
      NextEventWellOrdered(s, events, more[0], threshold);
      if |more| == 1 {
        assert more == [more[0]];
      } else {
        AppendTwo(events, more);
        AppendLater(events + [more[0]], more[1]);
      }
    }
  }

  lemma NextFrontier(s: seq<Value>, x: Value, events: seq<RawPeak>, more: seq<RawPeak>, threshold: int)
    requires s != [] && Frontier(s, events, threshold)
    requires forall e :: e in more ==> e.streamPos <= if Last(s) < x then |s| else |s| - 1
    requires Last(s) < x ==> more == if x >= threshold then [RawPeak(|s|, x, Rising)] else []
    requires Last(s) == x ==> more == []
    requires Last(s) > x ==> if more == [] then Risen(s) ==> Last(s) < threshold else Last(more).kind != Rising
    ensures Frontier(s + [x], events + more, threshold)
  {
    RunStartNext(s, x);
    if more == [] {
      assert events + more == events;
    }
  }

  lemma NextEventWellOrdered(s: seq<Value>, events: seq<RawPeak>, e: RawPeak, threshold: int)
    requires s != [] && WellOrdered(events) && Frontier(s, events, threshold)
    requires || (e.kind == Rising && e.streamPos == |s| && e.value > Last(s))
             || (e.kind != Rising && e.value == Last(s) >= threshold
                 && (if Risen(s) then RunStart(s) else |s| - 1) <= e.streamPos)
    ensures WellOrdered(events + [e])
  {
    if e.kind != Rising && events != [] && Last(events).kind == Rising {
      AppendPromotion(events, e);
    } else {
      AppendLater(events, e);
    }
  }

  /** The lockout for the first sample precedes every event and, strictly, every peak. */
  lemma InitialPrecedes(s: seq<Value>, threshold: int, tooBig: Position)
    requires s != [] && 0 < tooBig && Countable(|s|, tooBig)
    ensures InitialFirst([ValueAtPos(0, s[0])], Events(s, threshold, tooBig))
  {
    var events := Events(s, threshold, tooBig);
    EventsExact(s, threshold, tooBig);
    forall e | e in events ensures 0 < e.streamPos || (e.AtPos() == ValueAtPos(0, s[0]) && e.kind == Falling) {
      assert EventsExactAt(s, e.streamPos, e.value, threshold, tooBig);
      if e.kind == Peak {
        RawPeakInside(s, e.streamPos, threshold, tooBig);
      }
    }
  }

  // ----- Right dominance among events is right dominance among samples

  ghost predicate NothingLargerAfter(s: seq<Value>, k: int, window: nat)
    requires 0 <= k < |s|
  {
    forall j :: k < j < |s| && j <= k + window ==> s[j] <= s[k]
  }

  /** The first sample that exceeds s[k] is a rise, so it raises an event. */
  lemma {:induction false} NoLargerBefore(s: seq<Value>, k: int, window: nat, threshold: int, tooBig: Position, j: int)
    requires 0 < tooBig && Countable(|s|, tooBig)
    requires 0 <= k < j < |s| && j <= k + window && s[k] >= threshold
    requires RightDominant(Events(s, threshold, tooBig), ValueAtPos(k, s[k]), window)
    ensures s[j] <= s[k]
    decreases j
  {
    if j > k + 1 {
      NoLargerBefore(s, k, window, threshold, tooBig, j - 1);
    }
    EventsExact(s, threshold, tooBig);
    assert EventsExactAt(s, j, s[j], threshold, tooBig);
    assert RawPeak(j, s[j], Rising) in Events(s, threshold, tooBig) <==> RiseAt(s, j, threshold);
  }

  lemma RightDominantSamples(s: seq<Value>, k: int, window: nat, threshold: int, tooBig: Position)
    requires 0 < tooBig && Countable(|s|, tooBig)
    requires 0 <= k < |s| && s[k] >= threshold
    ensures RightDominant(Events(s, threshold, tooBig), ValueAtPos(k, s[k]), window) <==> NothingLargerAfter(s, k, window)
  {
    var events := Events(s, threshold, tooBig);
    if RightDominant(events, ValueAtPos(k, s[k]), window) {
      forall j | k < j < |s| && j <= k + window ensures s[j] <= s[k] {
        NoLargerBefore(s, k, window, threshold, tooBig, j);
      }
    }
    EventsExact(s, threshold, tooBig);
    forall e | e in events ensures 0 <= e.streamPos < |s| && e.value == s[e.streamPos] >= threshold {
      assert EventsExactAt(s, e.streamPos, e.value, threshold, tooBig);
      if e.kind == Peak {
        RawPeakInside(s, e.streamPos, threshold, tooBig);
      }
    }
  }

  // ----- Left dominance among events is left dominance among samples

  /** A sample of the initial run of largest values other than the first: its fall is not reported. */
  ghost predicate Hidden(s: seq<Value>, j: int) {
    0 < j < |s| && Unstarted(s, j)
  }

  /** A visible sample before the hill, within the window, that is at least as high. */
  ghost predicate LockingSample(s: seq<Value>, l: int, c: int, window: nat, j: int)
    requires 0 <= c < |s|
  {
    0 <= j < l && l <= c && c - window <= j && s[j] >= s[c] && !Hidden(s, j)
  }

  lemma {:induction false} LastHigher(s: seq<Value>, l: int, v: int, j: int) returns (last: int)
    requires 0 <= j < l < |s| && s[j] >= v > s[l - 1]
    ensures j <= last < l - 1 && s[last] >= v > s[last + 1]
    decreases l - j
  {
    if s[j + 1] < v {
      last := j;
    } else {
      last := LastHigher(s, l, v, j + 1);
    }
  }

  lemma HiddenPrefix(s: seq<Value>, i: int, j: int)
    requires 0 <= i <= j && Hidden(s, j)
    ensures i == 0 || Hidden(s, i)
  {
  }

  /** Falls other than those of the initial run of largest values become lockouts. */
  lemma FallLocks(s: seq<Value>, k: int, threshold: int, tooBig: Position)
    requires 0 < tooBig && Countable(|s|, tooBig)
    requires FallAt(s, k, threshold) && !Hidden(s, k)
    ensures Lockout([ValueAtPos(0, s[0])], Events(s, threshold, tooBig), ValueAtPos(k, s[k]))
  {
    EventsExact(s, threshold, tooBig);
    assert EventsExactAt(s, k, s[k], threshold, tooBig);
  }

  lemma LockoutIsSample(s: seq<Value>, m: ValueAtPos, threshold: int, tooBig: Position)
    requires s != [] && 0 < tooBig && Countable(|s|, tooBig)
    requires Lockout([ValueAtPos(0, s[0])], Events(s, threshold, tooBig), m)
    ensures 0 <= m.streamPos < |s| && m.value == s[m.streamPos] && !Hidden(s, m.streamPos)
    ensures m.streamPos == 0 || RawPeakAt(s, m.streamPos, threshold, tooBig) || FallAt(s, m.streamPos, threshold)
  {
    EventsExact(s, threshold, tooBig);
    assert EventsExactAt(s, m.streamPos, m.value, threshold, tooBig);
    if RawPeakAt(s, m.streamPos, threshold, tooBig) {
      RawPeakInside(s, m.streamPos, threshold, tooBig);
      var l, r :| Hill(s, l, r) && m.streamPos == Middle(l, r);
      assert s[l - 1] < s[m.streamPos];
    }
  }

  lemma HillIsUnique(s: seq<Value>, l: int, r: int, l': int, r': int)
    requires Hill(s, l, r) && Hill(s, l', r')
    requires l <= Middle(l', r') <= r
    ensures l == l' && r == r'
  {
    var c := Middle(l', r');
    assert s[c] == s[l] && s[c] == s[l'];
    assert s[l - 1] < s[l] && s[l' - 1] < s[l'] && s[r + 1] < s[r] && s[r' + 1] < s[r'];
  }

  lemma LockedOutSamples(s: seq<Value>, l: int, r: int, window: nat, threshold: int, tooBig: Position)
    requires 0 < tooBig && Countable(|s|, tooBig)
    requires Hill(s, l, r) && s[l] >= threshold
    ensures var c := Middle(l, r);
            LockedOut([ValueAtPos(0, s[0])], Events(s, threshold, tooBig), ValueAtPos(c, s[c]), window)
            <==> exists j :: LockingSample(s, l, c, window, j)
  {
    var c := Middle(l, r);
    var initial, events, p := [ValueAtPos(0, s[0])], Events(s, threshold, tooBig), ValueAtPos(c, s[c]);
    assert s[c] == s[l];
    if m :| Lockout(initial, events, m) && Locks(m, p, window) {
      LockoutIsSample(s, m, threshold, tooBig);
      LockoutBeforeHill(s, l, r, m.streamPos, threshold, tooBig);
      assert LockingSample(s, l, c, window, m.streamPos);
    }
    if j :| LockingSample(s, l, c, window, j) {
      var last := LastHigher(s, l, s[c], j);
      var k := if Hidden(s, last) then 0 else last;
      if Hidden(s, last) {
        HiddenPrefix(s, j, last);
        assert Lockout(initial, events, ValueAtPos(k, s[k]));
      } else {
        FallLocks(s, k, threshold, tooBig);
      }
      assert Locks(ValueAtPos(k, s[k]), p, window);
    }
  }

  lemma LockoutBeforeHill(s: seq<Value>, l: int, r: int, k: int, threshold: int, tooBig: Position)
    requires Hill(s, l, r) && 0 <= k < Middle(l, r)
    requires k == 0 || RawPeakAt(s, k, threshold, tooBig) || FallAt(s, k, threshold)
    ensures k < l
  {
    if k >= l && RawPeakAt(s, k, threshold, tooBig) {
      var l', r' :| Hill(s, l', r') && k == Middle(l', r');
      HillIsUnique(s, l, r, l', r');
    } else if FallAt(s, k, threshold) {
      assert s[k] > s[k + 1];
    }
  }
}
