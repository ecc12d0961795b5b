/** The streaming peak finder against the slow reference: the queues of dsp/peakfinder.hpp report
    exactly what the windowed scan of dsp/tst_peakfinder.cpp reports. */
module PeakTheorems {
  import opened RingMath
  import opened PeakTypes
  import opened PeakDetector
  import opened PeakWindow
  import opened PeakStream
  import opened PeakPipeline
  import opened PeakSpacing
  import opened Sequences
  import D = DominantPeaks

  // ----- What the finder reports, told from the samples

  /** Like FirstTopRun, but blind to hidden samples before the run. */
  ghost predicate VisibleTopRun(s: seq<Value>, b: int, e: int, l: int, r: int) {
    && 0 <= b < l <= r < e - 1 < |s|
    && (forall k :: b <= k < l ==> s[k] < s[l] || Hidden(s, k))
    && s[l - 1] < s[l]
    && (forall k :: l <= k <= r ==> s[k] == s[l])
    && s[r + 1] < s[l]
    && (forall k :: r < k < e ==> s[k] <= s[l])
  }

  ghost predicate VisiblyDominantAt(s: seq<Value>, c: int, window: nat, threshold: int) {
    && 0 <= c < |s| - window && s[c] >= threshold
    && exists l, r :: VisibleTopRun(s, WindowBegin(c, window), c + window + 1, l, r) && c == Middle(l, r)
  }

  /** All visibly dominant samples whose windows are complete, in order. */
  ghost function VisiblePeaks(s: seq<Value>, window: nat, threshold: int): seq<ValueAtPos> {
    VisiblePeaksWithin(s, |s|, window, threshold)
  }

  /** Those whose windows end within the first n samples. */
  ghost function VisiblePeaksWithin(s: seq<Value>, n: nat, window: nat, threshold: int): seq<ValueAtPos>
    requires n <= |s|
  {
    if n == 0 then []
    else VisiblePeaksWithin(s, n - 1, window, threshold) + VisibleHit(s, n, window, threshold)
  }

  ghost function VisibleHit(s: seq<Value>, end: nat, window: nat, threshold: int): seq<ValueAtPos>
    requires 0 < end <= |s|
  {
    var c := end - 1 - window;
    if VisiblyDominantAt(s, c, window, threshold) then [ValueAtPos(c, s[c])] else []
  }

  /** A visible top run is a hill in the middle of its window. */
  lemma TopRunIsHill(s: seq<Value>, c: int, window: nat, l: int, r: int)
    requires 0 <= c < |s| - window && 1 <= window && c == Middle(l, r)
    ensures VisibleTopRun(s, WindowBegin(c, window), c + window + 1, l, r)
       <==> Hill(s, l, r) && r - l + 1 < 2 * window && NothingLargerAfter(s, c, window)
            && !(exists j :: LockingSample(s, l, c, window, j))
  {
    var b := WindowBegin(c, window);
    if VisibleTopRun(s, b, c + window + 1, l, r) {
      forall j ensures !LockingSample(s, l, c, window, j) {
      }
    }
    if Hill(s, l, r) && r - l + 1 < 2 * window && NothingLargerAfter(s, c, window) && !(exists j :: LockingSample(s, l, c, window, j)) {
      assert s[c] == s[l];
      forall k | b <= k < l ensures s[k] < s[l] || Hidden(s, k) {
        assert !LockingSample(s, l, c, window, k);
      }
      forall k | r < k < c + window + 1 ensures s[k] <= s[l] {
        assert c < k <= c + window;
      }
    }
  }

  /** The isolator's verdict on a peak event is a property of the samples around it. */
  lemma DominantIffVisible(s: seq<Value>, c: int, window: nat, threshold: int)
    requires s != [] && 1 <= window && 2 * window < RING
    requires 0 <= c < |s| - window
    ensures D.Dominant(InitialLockout(s), Events(s, threshold, TooBigFor(window)), RawPeak(c, s[c], Peak), window)
       <==> VisiblyDominantAt(s, c, window, threshold)
  {
    hide Hill, VisibleTopRun, D.Dominant, D.LockedOut, D.RightDominant, Events;
    if VisiblyDominantAt(s, c, window, threshold) {
      var l, r :| VisibleTopRun(s, WindowBegin(c, window), c + window + 1, l, r) && c == Middle(l, r);
      HillVerdict(s, c, l, r, window, threshold);
    }
    if D.Dominant(InitialLockout(s), Events(s, threshold, TooBigFor(window)), RawPeak(c, s[c], Peak), window) {
      var l, r := HillOfDominant(s, c, window, threshold);
      HillVerdict(s, c, l, r, window, threshold);
    }
  }

  lemma HillOfDominant(s: seq<Value>, c: int, window: nat, threshold: int) returns (l: int, r: int)
    requires s != [] && 1 <= window && 2 * window < RING && 0 <= c < |s|
    requires D.Dominant(InitialLockout(s), Events(s, threshold, TooBigFor(window)), RawPeak(c, s[c], Peak), window)
    ensures Hill(s, l, r) && c == Middle(l, r) && r - l + 1 < TooBigFor(window) && s[l] >= threshold
  {
    hide Detect, D.LockedOut, D.RightDominant;
    l, r := HillOfPeakEvent(s, threshold, TooBigFor(window), RawPeak(c, s[c], Peak));
  }

  lemma HillVerdict(s: seq<Value>, c: int, l: int, r: int, window: nat, threshold: int)
    requires s != [] && 1 <= window && 2 * window < RING
    requires 0 <= c < |s| - window && c == Middle(l, r)
    ensures VisibleTopRun(s, WindowBegin(c, window), c + window + 1, l, r) && s[c] >= threshold
       <==> Hill(s, l, r) && r - l + 1 < TooBigFor(window) && s[l] >= threshold
            && D.Dominant(InitialLockout(s), Events(s, threshold, TooBigFor(window)), RawPeak(c, s[c], Peak), window)
  {
    hide Detect, VisibleTopRun, D.RightDominant, D.LockedOut, LockingSample, NothingLargerAfter;
    TopRunIsHill(s, c, window, l, r);
    if Hill(s, l, r) && r - l + 1 < TooBigFor(window) && s[l] >= threshold {
      assert s[c] == s[l];
      HillRaisesPeak(s, c, l, r, threshold, TooBigFor(window));
      RightDominantSamples(s, c, window, threshold, TooBigFor(window));
      LockedOutSamples(s, l, r, window, threshold, TooBigFor(window));
    }
  }

  lemma HillRaisesPeak(s: seq<Value>, c: int, l: int, r: int, threshold: int, tooBig: Position)
    requires 0 < tooBig && Countable(|s|, tooBig)
    requires Hill(s, l, r) && c == Middle(l, r) && r - l + 1 < tooBig && s[l] >= threshold
    ensures RawPeak(c, s[c], Peak) in Events(s, threshold, tooBig)
  {
    hide Detect;
    EventsExact(s, threshold, tooBig);
    assert EventsExactAt(s, c, s[c], threshold, tooBig);
  }

  // ----- The report as a sequence

  function Places(found: seq<RawPeak>): (r: seq<ValueAtPos>)
    ensures |r| == |found|
    ensures forall i :: 0 <= i < |found| ==> r[i] == found[i].AtPos()
  {
    seq(|found|, i requires 0 <= i < |found| => found[i].AtPos())
  }

  ghost predicate Increasing(s: seq<ValueAtPos>) {
    forall i, j :: 0 <= i < j < |s| ==> s[i].streamPos < s[j].streamPos
  }

  /** Increasing sequences with the same members are the same. */
  lemma {:induction false} IncreasingIsUnique(a: seq<ValueAtPos>, b: seq<ValueAtPos>)
    requires Increasing(a) && Increasing(b)
    requires forall m :: m in a <==> m in b
    ensures a == b
    decreases |a|
  {
    if a == [] {
      if b != [] {
        FirstIsMember(b);
      }
    } else {
      assert Last(a) in a && b != [];
      assert Last(b) in b;
      LastIsLargest(a, Last(b));
      LastIsLargest(b, Last(a));
      assert Last(a) == Last(b) by {
        var i :| 0 <= i < |b| && b[i] == Last(a);
      }
      forall m ensures m in DropLast(a) <==> m in DropLast(b) {
        DropLastMembers(a, m);
        DropLastMembers(b, m);
      }
      IncreasingIsUnique(DropLast(a), DropLast(b));
      assert a == DropLast(a) + [Last(a)] && b == DropLast(b) + [Last(b)];
    }
  }

  lemma FirstIsMember(a: seq<ValueAtPos>)
    requires a != []
    ensures exists m :: m in a
  {
    assert a[0] in a;
  }

  lemma LastIsLargest(a: seq<ValueAtPos>, m: ValueAtPos)
    requires Increasing(a) && m in a
    ensures m.streamPos <= Last(a).streamPos
  {
  }

  lemma DropLastMembers(a: seq<ValueAtPos>, m: ValueAtPos)
    requires Increasing(a) && a != []
    ensures m in DropLast(a) <==> m in a && m != Last(a)
  {
    assert a == DropLast(a) + [Last(a)];
  }

  lemma NoneIsIncreasing()
    ensures Increasing([])
  {
  }

  lemma IncreasingAppend(a: seq<ValueAtPos>, b: seq<ValueAtPos>)
    requires Increasing(a) && |b| <= 1
    requires forall m, m' :: m in a && m' in b ==> m.streamPos < m'.streamPos
    ensures Increasing(a + b)
  {
    forall i | 0 <= i < |a| ensures a[i] in a {
    }
    if b != [] {
      assert b[0] in b;
    }
  }

  ghost predicate VisibleMember(s: seq<Value>, n: nat, window: nat, threshold: int, m: ValueAtPos) {
    m.streamPos + window < n && VisiblyDominantAt(s, m.streamPos, window, threshold) && m.value == s[m.streamPos]
  }

  lemma {:induction false} VisiblePeaksAre(s: seq<Value>, n: nat, window: nat, threshold: int)
    requires n <= |s|
    ensures Increasing(VisiblePeaksWithin(s, n, window, threshold))
    ensures forall m :: m in VisiblePeaksWithin(s, n, window, threshold) <==> VisibleMember(s, n, window, threshold, m)
  {
    hide VisiblyDominantAt, Increasing;
    if n == 0 {
      NoneIsIncreasing();
      forall m ensures !VisibleMember(s, 0, window, threshold, m) {
        VisiblyDominantInside(s, m.streamPos, window, threshold);
      }
    } else {
      VisiblePeaksAre(s, n - 1, window, threshold);
      var before, hit := VisiblePeaksWithin(s, n - 1, window, threshold), VisibleHit(s, n, window, threshold);
      forall m ensures VisibleMember(s, n, window, threshold, m) <==> VisibleMember(s, n - 1, window, threshold, m) || m in hit {
        VisibleMemberNext(s, n, window, threshold, m);
      }
      forall m, m' | m in before && m' in hit ensures m.streamPos < m'.streamPos {
      }
      IncreasingAppend(before, hit);
      assert forall m :: m in before + hit <==> m in before || m in hit;
    }
  }

  lemma VisibleMemberNext(s: seq<Value>, n: nat, window: nat, threshold: int, m: ValueAtPos)
    requires 0 < n <= |s|
    ensures VisibleMember(s, n, window, threshold, m)
       <==> VisibleMember(s, n - 1, window, threshold, m) || m in VisibleHit(s, n, window, threshold)
  {
    hide VisiblyDominantAt;
    VisiblyDominantInside(s, m.streamPos, window, threshold);
    VisiblyDominantInside(s, n - 1 - window, window, threshold);
  }

  lemma VisiblyDominantInside(s: seq<Value>, c: int, window: nat, threshold: int)
    ensures VisiblyDominantAt(s, c, window, threshold) ==> 0 <= c < |s| - window
  {
  }

  /** An exact finder has reported the visible peaks. */
  lemma ExactReportIsVisiblePeaks(st: FinderState, found: seq<RawPeak>, s: seq<Value>, threshold: int, window: nat)
    requires 2 * window < RING && 1 <= window
    requires FinderExact(st, found, s, threshold, window)
    ensures Places(found) == VisiblePeaks(s, window, threshold)
  {
    VisiblePeaksAre(s, |s|, window, threshold);
    hide VisiblePeaksWithin, VisiblyDominantAt;
    if s == [] {
      assert Places(found) == [];
    } else {
      ReportMembers(found, s, threshold, window);
      IncreasingIsUnique(Places(found), VisiblePeaks(s, window, threshold));
    }
  }

  lemma ReportMembers(found: seq<RawPeak>, s: seq<Value>, threshold: int, window: nat)
    requires s != [] && 2 * window < RING && 1 <= window
    requires D.Report(found, InitialLockout(s), Events(s, threshold, TooBigFor(window)), window, |s| - 1)
    ensures Increasing(Places(found))
    ensures forall m :: m in Places(found) <==>
              VisiblyDominantAt(s, m.streamPos, window, threshold) && m.value == s[m.streamPos]
  {
    forall m ensures m in Places(found) <==> RawPeak(m.streamPos, m.value, Peak) in found {
      if m in Places(found) {
        var i :| 0 <= i < |found| && Places(found)[i] == m;
        assert found[i] in found;
      }
      if RawPeak(m.streamPos, m.value, Peak) in found {
        var i :| 0 <= i < |found| && found[i] == RawPeak(m.streamPos, m.value, Peak);
        assert Places(found)[i] == m;
      }
    }
    forall m: ValueAtPos
      ensures RawPeak(m.streamPos, m.value, Peak) in found
         <==> VisiblyDominantAt(s, m.streamPos, window, threshold) && m.value == s[m.streamPos]
    {
      ReportMember(found, s, threshold, window, m);
    }
  }

  lemma ReportMember(found: seq<RawPeak>, s: seq<Value>, threshold: int, window: nat, m: ValueAtPos)
    requires s != [] && 2 * window < RING && 1 <= window
    requires D.Report(found, InitialLockout(s), Events(s, threshold, TooBigFor(window)), window, |s| - 1)
    ensures RawPeak(m.streamPos, m.value, Peak) in found
       <==> VisiblyDominantAt(s, m.streamPos, window, threshold) && m.value == s[m.streamPos]
  {
    var c := m.streamPos;
    EventsExact(s, threshold, TooBigFor(window));
    assert EventsExactAt(s, c, m.value, threshold, TooBigFor(window));
    if RawPeakAt(s, c, threshold, TooBigFor(window)) {
      RawPeakInside(s, c, threshold, TooBigFor(window));
    }
    if 0 <= c < |s| - window {
      DominantIffVisible(s, c, window, threshold);
    }
  }

  /** What any run reports: after every block, exactly the visible peaks whose windows are complete.
      The split into blocks does not matter, and no report comes early or late. */
  lemma RunReportsVisiblePeaks(blocks: seq<seq<Value>>, threshold: int, window: nat)
    requires 2 * window < RING && 1 <= window
    requires NonEmptyBlocks(blocks) && BlocksFit(blocks, window)
    ensures Places(ProcessBlocks(IDLE, blocks, threshold, window).1) == VisiblePeaks(Flatten(blocks), window, threshold)
  {
    RunIsExact(blocks, threshold, window);
    var (st, found) := ProcessBlocks(IDLE, blocks, threshold, window);
    ExactReportIsVisiblePeaks(st, found, Flatten(blocks), threshold, window);
  }

  // ----- Against the reference

  /** The stream begins with the value that doubles as the start-of-stream tag, twice. */
  ghost predicate StartsAtMaximum(s: seq<Value>) {
    |s| >= 2 && s[0] == VALUE_MAX && s[1] == VALUE_MAX
  }

  lemma NothingHidden(s: seq<Value>, j: int)
    requires !StartsAtMaximum(s)
    ensures !Hidden(s, j)
  {
  }

  lemma VisibleIsDominant(s: seq<Value>, c: int, window: nat, threshold: int)
    requires 1 <= window
    requires !StartsAtMaximum(s) || window == 1
    ensures VisiblyDominantAt(s, c, window, threshold) <==> DominantAt(s, c, window, threshold)
  {
    if 0 <= c < |s| - window {
      var b, e := WindowBegin(c, window), c + window + 1;
      forall l, r | c == Middle(l, r) ensures VisibleTopRun(s, b, e, l, r) <==> FirstTopRun(s, b, e, l, r) {
        forall k ensures Hidden(s, k) ==> window == 1 {
          if window != 1 {
            NothingHidden(s, k);
          }
        }
      }
    }
  }

  lemma VisibleHitIsWindowHit(s: seq<Value>, n: nat, window: nat, threshold: int)
    requires 0 < n <= |s| && 1 <= window
    requires !StartsAtMaximum(s) || window == 1
    ensures VisibleHit(s, n, window, threshold) == WindowHit(s, n, window, threshold)
  {
    hide PeakOfRange, VisiblyDominantAt, StartsAtMaximum;
    VisibleIsDominant(s, n - 1 - window, window, threshold);
  }

  lemma NoSamplesNoPeaks(window: nat, threshold: int)
    ensures ReferencePeaks([], window, threshold) == []
  {
  }

  lemma {:induction false} VisibleIsReference(s: seq<Value>, n: nat, window: nat, threshold: int)
    requires n <= |s| && 1 <= window
    requires !StartsAtMaximum(s) || window == 1
    ensures ReferencePeaks(s[..n], window, threshold) == VisiblePeaksWithin(s, n, window, threshold)
  {
    hide ReferencePeaks, VisibleHit, WindowHit, StartsAtMaximum;
    if n == 0 {
      NoSamplesNoPeaks(window, threshold);
    } else {
      VisibleIsReference(s, n - 1, window, threshold);
      DominantStep(s, n - 1, window, threshold);
      VisibleHitIsWindowHit(s, n, window, threshold);
    }
  }

  /** The fast form refines the simple form. */
  lemma FastRefinesReference(blocks: seq<seq<Value>>, threshold: int, window: nat)
    requires 2 * window < RING && 1 <= window
    requires NonEmptyBlocks(blocks) && BlocksFit(blocks, window)
    requires !StartsAtMaximum(Flatten(blocks)) || window == 1
    ensures Places(ProcessBlocks(IDLE, blocks, threshold, window).1) == ReferencePeaks(Flatten(blocks), window, threshold)
  {
    var s := Flatten(blocks);
    RunReportsVisiblePeaks(blocks, threshold, window);
    VisibleIsReference(s, |s|, window, threshold);
    assert s[..|s|] == s;
  }

  // ----- The bound on the block size is exact

  /** A stream cut into single samples. */
  function Singles(s: seq<Value>): (r: seq<seq<Value>>)
    ensures |r| == |s| && forall i :: 0 <= i < |s| ==> r[i] == [s[i]]
  {
    seq(|s|, i requires 0 <= i < |s| => [s[i]])
  }

  lemma {:induction false} FlattenSingles(s: seq<Value>)
    ensures Flatten(Singles(s)) == s
    decreases |s|
  {
    if s != [] {
      assert DropLast(Singles(s)) == Singles(DropLast(s));
      FlattenSingles(DropLast(s));
      assert s == DropLast(s) + [Last(s)];
    }
  }

  lemma {:induction false} ReferenceMember(s: seq<Value>, n: nat, window: nat, threshold: int, m: ValueAtPos)
    requires n <= |s| && m in ReferencePeaks(s[..n], window, threshold)
    ensures DominantAt(s, m.streamPos, window, threshold)
  {
    if n > 0 {
      DominantStep(s, n - 1, window, threshold);
      hide ReferencePeaks, PeakOfRange;
      if m in ReferencePeaks(s[..n - 1], window, threshold) {
        ReferenceMember(s, n - 1, window, threshold, m);
      }
    }
  }

  /** A low peak exactly one window after a high one, up to just before its verdict is due. */
  function LateStream(window: nat): (r: seq<Value>)
    requires 2 <= window
    ensures |r| == 2 * window + 1
  {
    seq(2 * window + 1, i => if i == 1 then 2 else if i == window + 1 then 1 else 0)
  }

  function Silence(length: nat): (r: seq<Value>)
    ensures |r| == length && forall i :: 0 <= i < length ==> r[i] == 0
  {
    seq(length, i => 0)
  }

  /** The block after which the finder reports too much. */
  function LateBlocks(window: nat): seq<seq<Value>>
    requires 2 <= window
  {
    Singles(LateStream(window)) + [Silence(window + 3)]
  }

  /** Before the last block the low peak is pending, and the memory holds nothing but the first
      sample and the high peak. */
  lemma LateQueues(q: D.Queues, found: seq<RawPeak>, window: nat, horizon: int)
    requires 2 <= window && 2 * window + 1 < FIRST_SAMPLE
    requires ExactNow(q, found, LateStream(window), 1, window, horizon)
    ensures q.right == [RawPeak(window + 1, 1, Peak)]
    ensures forall m :: m in q.memory ==> 0 <= m.streamPos <= 1
  {
    var s := LateStream(window);
    var tooBig := TooBigFor(window);
    var events := Events(s, 1, tooBig);
    var p := RawPeak(window + 1, 1, Peak);
    EventsExact(s, 1, tooBig);
    assert EventsExactAt(s, window + 1, 1, 1, tooBig);
    assert Hill(s, window + 1, window + 1) && Middle(window + 1, window + 1) == window + 1;
    assert p in events;
    RightDominantSamples(s, window + 1, window, 1, tooBig);
    assert p in q.right;
    forall e | e in events ensures e.streamPos == 1 || e == p || e.kind == Rising {
      assert EventsExactAt(s, e.streamPos, e.value, 1, tooBig);
      if e.kind == Peak {
        RawPeakInside(s, e.streamPos, 1, tooBig);
      }
    }
    forall e | e in q.right ensures e == p {
    }
    OnlyMember(q.right, p);
    forall m | m in q.memory ensures 0 <= m.streamPos <= 1 {
      if m !in InitialLockout(s) {
        var e := D.StoredAt(events, m);
      }
    }
  }

  lemma OnlyMember(right: seq<RawPeak>, p: RawPeak)
    requires D.Ascending(right) && p in right && forall e :: e in right ==> e == p
    ensures right == [p]
  {
    assert right[0] in right && Last(right) in right;
    RightGrows(right, |right| - 1);
  }

  lemma {:induction false} DropAgedEmpties(memory: seq<ValueAtPos>, pos: int, limit: nat)
    requires forall m :: m in memory ==> limit < pos - m.streamPos < RING
    ensures D.DropAged(memory, pos, limit) == []
    decreases |memory|
  {
    if memory != [] {
      assert memory[0] in memory;
      DropAgedEmpties(memory[1..], pos, limit);
    }
  }

  /** The last block's purge forgets the high peak before it judges the low one. */
  lemma LateBlockReports(st: FinderState, found: seq<RawPeak>, window: nat)
    requires 2 <= window && 3 * window + 4 < FIRST_SAMPLE
    requires FinderExact(st, found, LateStream(window), 1, window)
    ensures ProcessBlock(st, Silence(window + 3), 2 * window + 1, 1, window).1 == [RawPeak(window + 1, 1, Peak)]
  {
    hide FinderExact, LateStream, Detect, D.PurgeUpUntil, ProcessBlock;
    var tooBig := TooBigFor(window);
    var data, n := Silence(window + 3), 2 * window + 1;
    LateState(st, found, window);
    LevelIsSilent(st.detector, data, n, 1, tooBig);
    LatePurge(st.queues, window);
    QuietBlock(st, data, n, 1, window);
    assert PurgeDelay(st.detector, st.queues, tooBig) == 1;
  }

  /** A block without events only purges. */
  lemma QuietBlock(st: FinderState, data: seq<Value>, n: nat, threshold: int, window: nat)
    requires 0 < n && data != [] && 2 * window < RING
    requires Detect(st.detector, data, n, threshold, TooBigFor(window)) == (st.detector, [])
    ensures ProcessBlock(st, data, n, threshold, window).1
         == D.PurgeUpUntil(st.queues, n + |data| - PurgeDelay(st.detector, st.queues, TooBigFor(window)), window).1
  {
    hide Detect, D.PurgeUpUntil;
    assert D.Feed(st.queues, [], window) == (st.queues, []);
    NothingBefore(D.PurgeUpUntil(st.queues, n + |data| - PurgeDelay(st.detector, st.queues, TooBigFor(window)), window).1);
  }

  lemma LatePurge(q: D.Queues, window: nat)
    requires 2 <= window && 3 * window + 4 < FIRST_SAMPLE
    requires q.right == [RawPeak(window + 1, 1, Peak)]
    requires forall m :: m in q.memory ==> 0 <= m.streamPos <= 1
    ensures D.PurgeUpUntil(q, 3 * window + 3, window).1 == [RawPeak(window + 1, 1, Peak)]
  {
    DropAgedEmpties(q.memory, 3 * window + 3, 3 * window + 1);
    LateFlush(window);
    hide D.Flush, D.DropAged;
    assert Last(q.right) == RawPeak(window + 1, 1, Peak);
  }

  lemma LateState(st: FinderState, found: seq<RawPeak>, window: nat)
    requires 2 <= window && 3 * window + 4 < FIRST_SAMPLE
    requires FinderExact(st, found, LateStream(window), 1, window)
    ensures st.queues.right == [RawPeak(window + 1, 1, Peak)]
    ensures forall m :: m in st.queues.memory ==> 0 <= m.streamPos <= 1
    ensures st.detector.lastValue == 0 && st.detector.plateauSize == 0
  {
    var s := LateStream(window);
    var horizon :| ExactNow(st.queues, found, s, 1, window, horizon);
    hide ExactNow;
    LateQueues(st.queues, found, window, horizon);
    DetectorTracks(s, 1, TooBigFor(window));
    LateDetector(st.detector, window);
  }

  lemma LateFlush(window: nat)
    requires 2 <= window
    ensures D.Flush(D.Queues([RawPeak(window + 1, 1, Peak)], []), 3 * window + 3, window).1 == [RawPeak(window + 1, 1, Peak)]
  {
    var p := RawPeak(window + 1, 1, Peak);
    assert D.LeftDominators([], p, window) == [];
    assert [p][1..] == [];
  }

  lemma LateDetector(d: DetectorState, window: nat)
    requires 2 <= window && 2 * window < RING
    requires Tracks(d, LateStream(window), TooBigFor(window))
    ensures d.lastValue == 0 && d.plateauSize == 0
  {
    var s := LateStream(window);
    var l := RunStart(s);
    assert s[0] == 0 && s[window + 1] == 1;
    assert l > window + 1;
    assert forall k :: window + 2 <= k < |s| ==> s[k] == 0;
  }

  /** With longer blocks the finder reports a peak that the reference rejects. */
  lemma LateBlocksDisagree(window: nat)
    requires 2 <= window && 3 * window + 4 < FIRST_SAMPLE
    ensures NonEmptyBlocks(LateBlocks(window)) && |Flatten(LateBlocks(window))| == 3 * window + 4
    ensures forall i :: 0 <= i < |LateBlocks(window)| ==> |LateBlocks(window)[i]| <= window + 3
    ensures !StartsAtMaximum(Flatten(LateBlocks(window)))
    ensures ValueAtPos(window + 1, 1) in Places(ProcessBlocks(IDLE, LateBlocks(window), 1, window).1)
    ensures ValueAtPos(window + 1, 1) !in ReferencePeaks(Flatten(LateBlocks(window)), window, 1)
  {
    hide LateBlocks, ProcessBlocks, ReferencePeaks;
    LateBlocksShape(window);
    LateRun(window);
    LateIsNotReferencePeak(window);
  }

  lemma LateBlocksShape(window: nat)
    requires 2 <= window
    ensures var blocks := LateBlocks(window);
            && blocks != [] && NonEmptyBlocks(blocks) && (forall i :: 0 <= i < |blocks| ==> |blocks[i]| <= window + 3)
            && DropLast(blocks) == Singles(LateStream(window)) && Last(blocks) == Silence(window + 3)
            && Flatten(blocks) == LateStream(window) + Silence(window + 3)
            && !StartsAtMaximum(Flatten(blocks))
  {
    var s := LateStream(window);
    FlattenSingles(s);
    assert DropLast(LateBlocks(window)) == Singles(s);
    assert (s + Silence(window + 3))[0] == s[0] == 0;
  }

  lemma LateRun(window: nat)
    requires 2 <= window && 3 * window + 4 < FIRST_SAMPLE
    ensures NonEmptyBlocks(LateBlocks(window))
    ensures ValueAtPos(window + 1, 1) in Places(ProcessBlocks(IDLE, LateBlocks(window), 1, window).1)
  {
    hide LateBlocks, LateStream, ProcessBlock, Flatten, FinderExact, Singles, Places;
    var singles := Singles(LateStream(window));
    SinglesFit(LateStream(window), window);
    FlattenSingles(LateStream(window));
    LateBlocksShape(window);
    RunIsExact(singles, 1, window);
    var (st, found) := ProcessBlocks(IDLE, singles, 1, window);
    LateBlockReports(st, found, window);
    LateIsReported(found, ValueAtPos(window + 1, 1), window);
  }

  lemma SinglesFit(s: seq<Value>, window: nat)
    ensures NonEmptyBlocks(Singles(s)) && BlocksFit(Singles(s), window)
  {
  }

  lemma LateIsNotReferencePeak(window: nat)
    requires 2 <= window
    ensures ValueAtPos(window + 1, 1) !in ReferencePeaks(Flatten(LateBlocks(window)), window, 1)
  {
    var s := Flatten(LateBlocks(window));
    LateBlocksShape(window);
    LateIsNotDominant(s, window);
    NotReferencePeak(s, ValueAtPos(window + 1, 1), window, 1);
  }

  lemma NotReferencePeak(s: seq<Value>, m: ValueAtPos, window: nat, threshold: int)
    requires !DominantAt(s, m.streamPos, window, threshold)
    ensures m !in ReferencePeaks(s, window, threshold)
  {
    hide DominantAt;
    assert s[..|s|] == s;
    if m in ReferencePeaks(s, window, threshold) {
      ReferenceMember(s, |s|, window, threshold, m);
    }
  }

  lemma LateIsReported(found: seq<RawPeak>, late: ValueAtPos, window: nat)
    requires late == ValueAtPos(window + 1, 1)
    ensures late in Places(found + [RawPeak(window + 1, 1, Peak)])
  {
    assert Places(found + [RawPeak(window + 1, 1, Peak)])[|found|] == late;
  }

  lemma LateIsNotDominant(s: seq<Value>, window: nat)
    requires 2 <= window && LateStream(window) <= s
    ensures !DominantAt(s, window + 1, window, 1)
  {
    assert s[1] == LateStream(window)[1] == 2 && s[window + 1] == LateStream(window)[window + 1] == 1;
    assert WindowBegin(window + 1, window) == 1;
  }

  /** The finder agrees with the reference on every stream, however it is cut into blocks of at
      most `size` samples. */
  ghost predicate AgreesForBlocksUpTo(size: nat, window: nat)
    requires 2 * window < RING
  {
    forall blocks: seq<seq<Value>>, threshold: Value ::
      NonEmptyBlocks(blocks) && (forall i :: 0 <= i < |blocks| ==> |blocks[i]| <= size)
      && !StartsAtMaximum(Flatten(blocks))
      ==> Places(ProcessBlocks(IDLE, blocks, threshold, window).1) == ReferencePeaks(Flatten(blocks), window, threshold)
  }

  /** The exact condition on the block size: at most two samples more than the window, or a window
      of a single sample. */
  lemma BlockBoundIsExact(size: nat, window: nat)
    requires 1 <= window && 3 * window + 4 < FIRST_SAMPLE
    ensures AgreesForBlocksUpTo(size, window) <==> BlockFits(size, window)
  {
    if BlockFits(size, window) {
      forall blocks: seq<seq<Value>>, threshold: Value
        | NonEmptyBlocks(blocks) && (forall i :: 0 <= i < |blocks| ==> |blocks[i]| <= size)
          && !StartsAtMaximum(Flatten(blocks))
        ensures Places(ProcessBlocks(IDLE, blocks, threshold, window).1) == ReferencePeaks(Flatten(blocks), window, threshold)
      {
        FastRefinesReference(blocks, threshold, window);
      }
    } else {
      LateBlocksDisagree(window);
    }
  }

  // ----- The condition on the first two samples is exact

  /** A peak of the largest value whose window begins inside an initial run of that value. */
  function TagStream(window: nat): seq<Value>
    requires 2 <= window
  {
    seq(2 * window + 2, i => if i <= 1 || i == window + 1 then VALUE_MAX else VALUE_MIN)
  }

  lemma TagStreamDisagrees(window: nat, threshold: Value)
    requires 2 <= window && 3 * window + 4 < FIRST_SAMPLE
    ensures var blocks := Singles(TagStream(window));
            && NonEmptyBlocks(blocks) && BlocksFit(blocks, window) && Flatten(blocks) == TagStream(window)
            && ValueAtPos(window + 1, VALUE_MAX) in Places(ProcessBlocks(IDLE, blocks, threshold, window).1)
            && ValueAtPos(window + 1, VALUE_MAX) !in ReferencePeaks(TagStream(window), window, threshold)
  {
    var s, blocks := TagStream(window), Singles(TagStream(window));
    var c := window + 1;
    FlattenSingles(s);
    RunReportsVisiblePeaks(blocks, threshold, window);
    VisiblePeaksAre(s, |s|, window, threshold);
    TagIsVisible(window, threshold);
    TagIsNotDominant(s, c, window, threshold);
    NotReferencePeak(s, ValueAtPos(c, VALUE_MAX), window, threshold);
    hide VisibleMember, TagStream, DominantAt, VisiblePeaksWithin, ReferencePeaks, ProcessBlocks, Flatten;
    assert ValueAtPos(c, VALUE_MAX) in VisiblePeaks(s, window, threshold);
  }

  lemma TagIsVisible(window: nat, threshold: Value)
    requires 2 <= window
    ensures VisibleMember(TagStream(window), |TagStream(window)|, window, threshold, ValueAtPos(window + 1, VALUE_MAX))
    ensures TagStream(window)[1] == VALUE_MAX
  {
    var s, c := TagStream(window), window + 1;
    assert s[0] == VALUE_MAX && s[1] == VALUE_MAX && s[c] == VALUE_MAX && WindowBegin(c, window) == 1;
    assert Hidden(s, 1);
    assert VisibleTopRun(s, 1, c + window + 1, c, c);
    assert Middle(c, c) == c;
  }

  lemma TagIsNotDominant(s: seq<Value>, c: int, window: nat, threshold: int)
    requires 2 <= window && c == window + 1 < |s| && s[1] == VALUE_MAX
    ensures !DominantAt(s, c, window, threshold)
  {
  }

  lemma TagStreamStarts(first: seq<Value>, window: nat)
    requires 2 <= window && |first| == 2 && StartsAtMaximum(first)
    ensures first <= TagStream(window) && |TagStream(window)| < 3 * window + 4
  {
  }

  /** The finder agrees with the reference on every continuation of the given samples. */
  ghost predicate AgreesAfter(first: seq<Value>, window: nat, threshold: Value)
    requires 2 * window < RING
  {
    forall blocks: seq<seq<Value>> ::
      NonEmptyBlocks(blocks) && BlocksFit(blocks, window) && first <= Flatten(blocks)
      ==> Places(ProcessBlocks(IDLE, blocks, threshold, window).1) == ReferencePeaks(Flatten(blocks), window, threshold)
  }

  /** The exact condition on the first two samples: not both the largest representable value, which
      the detector uses to mark an unstarted stream. */
  lemma StartConditionIsExact(first: seq<Value>, window: nat, threshold: Value)
    requires |first| == 2 && 2 <= window && 3 * window + 4 < FIRST_SAMPLE
    ensures AgreesAfter(first, window, threshold) <==> !StartsAtMaximum(first)
  {
    if StartsAtMaximum(first) {
      TagStreamDisagrees(window, threshold);
      TagStreamStarts(first, window);
      hide TagStream, ProcessBlocks, ReferencePeaks, BlocksFit, Flatten;
    } else {
      hide ProcessBlocks, ReferencePeaks, BlocksFit, Flatten;
      forall blocks: seq<seq<Value>>
        | NonEmptyBlocks(blocks) && BlocksFit(blocks, window) && first <= Flatten(blocks)
        ensures Places(ProcessBlocks(IDLE, blocks, threshold, window).1) == ReferencePeaks(Flatten(blocks), window, threshold)
      {
        FastRefinesReference(blocks, threshold, window);
      }
    }
  }
}
