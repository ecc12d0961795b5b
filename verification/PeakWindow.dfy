/** The peak of a range (dsp/peakfinder.hpp:14-61) and the slow reference finder that scans a
    window around every sample (dsp/tst_peakfinder.cpp:53-122). */
module PeakWindow {
  import opened PeakTypes
  import opened PeakDetector
  import opened Sequences

  /** [l, r] is the first run of largest values in [b, e), and it touches neither end. */
  ghost predicate FirstTopRun(a: seq<Value>, b: int, e: int, l: int, r: int) {
    && 0 <= b < l <= r < e - 1 < |a|
    && (forall k :: b <= k < l ==> a[k] < a[l])
    && (forall k :: l <= k <= r ==> a[k] == a[l])
    && a[r + 1] < a[l]
    && (forall k :: r < k < e ==> a[k] <= a[l])
  }

  /** c is the peak of [b, e): the middle of its first run of largest values. */
  ghost predicate PeakOfRange(a: seq<Value>, b: int, e: int, c: int) {
    exists l, r :: FirstTopRun(a, b, e, l, r) && c == Middle(l, r)
  }

  lemma FirstTopRunIsUnique(a: seq<Value>, b: int, e: int, l: int, r: int, l': int, r': int)
    requires FirstTopRun(a, b, e, l, r) && FirstTopRun(a, b, e, l', r')
    ensures l == l' && r == r'
  {
    assert a[l] <= a[l'] && a[l'] <= a[l];
    assert a[r + 1] < a[l] && a[r' + 1] < a[l'];
  }

  /** std::max_element */
  method MaxElement(a: seq<Value>, b: nat, e: nat) returns (m: nat)
    requires b <= e <= |a|
    ensures b == e ==> m == e
    ensures b < e ==> b <= m < e && (forall k :: b <= k < m ==> a[k] < a[m]) && (forall k :: m <= k < e ==> a[k] <= a[m])
  {
    if b == e {
      return e;
    }
    m := b;
    for i := b + 1 to e
      invariant b <= m < i
      invariant (forall k :: b <= k < m ==> a[k] < a[m]) && (forall k :: m <= k < i ==> a[k] <= a[m])
    {
      if a[m] < a[i] {
        m := i;
      }
    }
  }

  lemma NoTopRunAtTheEdge(a: seq<Value>, b: int, e: int, m: int, left: int, right: int)
    requires 0 <= b <= left == m <= right < e <= |a|
    requires (forall k :: b <= k < m ==> a[k] < a[m]) && (forall k :: m <= k < e ==> a[k] <= a[m])
    requires forall k :: left <= k <= right ==> a[k] == a[m]
    requires left == b || right + 1 == e
    ensures forall l, r :: !FirstTopRun(a, b, e, l, r)
  {
    forall l, r ensures FirstTopRun(a, b, e, l, r) ==> l == m && r < right {
      if FirstTopRun(a, b, e, l, r) {
        assert a[l] >= a[m];
      }
    }
  }

  /** Finds the peak of a range, or returns its end. */
  method FindPeak(a: seq<Value>, b: nat, e: nat) returns (p: nat)
    requires b <= e <= |a|
    ensures p == e || b < p < e - 1
    ensures forall c :: c != e ==> (p == c <==> PeakOfRange(a, b, e, c))
  {
    var iMax := MaxElement(a, b, e);
    if iMax == e {
      return e;
    }
    var maxValue := a[iMax];
    var left := iMax;
    while left != b && a[left] == maxValue
      invariant b <= left && iMax - 1 <= left <= iMax
      invariant forall k :: left < k <= iMax ==> a[k] == maxValue
    {
      left := left - 1;
    }
    if a[left] != maxValue {
      left := left + 1;
    }
    assert left == iMax;
    var right := iMax + 1;
    while right != e && a[right] == maxValue
      invariant iMax < right <= e
      invariant forall k :: iMax <= k < right ==> a[k] == maxValue
    {
      right := right + 1;
    }
    if right == e || a[right] != maxValue {
      right := right - 1;
    }
    if left == b || right + 1 == e {
      p := e;
      NoTopRunAtTheEdge(a, b, e, iMax, left, right);
    } else {
      p := left + (right - left) / 2;
      assert FirstTopRun(a, b, e, left, right);
      forall l, r | FirstTopRun(a, b, e, l, r) ensures l == left && r == right {
        FirstTopRunIsUnique(a, b, e, l, r, left, right);
      }
    }
  }

  /** [l, r] is the run of equal values around `at` within [b, e). */
  ghost predicate RunAround(a: seq<Value>, b: int, e: int, at: int, l: int, r: int) {
    && 0 <= b <= l <= at <= r < e <= |a|
    && (forall k :: l <= k <= r ==> a[k] == a[at])
    && (l > b ==> a[l - 1] != a[at])
    && (r + 1 < e ==> a[r + 1] != a[at])
  }

  /** Whether the plateau around a peak, as far as the range shows it, exceeds a length. */
  method IsPlateauTooLong(a: seq<Value>, peak: nat, b: nat, e: nat, maxPlateauSize: nat) returns (tooLong: bool)
    requires b <= peak < e <= |a|
    ensures forall l, r :: RunAround(a, b, e, peak, l, r) ==> (tooLong <==> r - l + 1 > maxPlateauSize)
    ensures exists l, r :: RunAround(a, b, e, peak, l, r)
  {
    var peakValue := a[peak];
    var plateauBegin := peak;
    while plateauBegin != b && a[plateauBegin] == peakValue
      invariant b <= plateauBegin <= peak
      invariant forall k :: plateauBegin < k <= peak ==> a[k] == peakValue
    {
      plateauBegin := plateauBegin - 1;
    }
    if a[plateauBegin] != peakValue {
      plateauBegin := plateauBegin + 1;
    }
    var plateauEnd := peak + 1;
    while plateauEnd != e && a[plateauEnd] == peakValue
      invariant peak < plateauEnd <= e
      invariant forall k :: peak <= k < plateauEnd ==> a[k] == peakValue
    {
      plateauEnd := plateauEnd + 1;
    }
    tooLong := plateauEnd - plateauBegin > maxPlateauSize;
    assert RunAround(a, b, e, peak, plateauBegin, plateauEnd - 1);
    forall l, r | RunAround(a, b, e, peak, l, r) ensures l == plateauBegin && r == plateauEnd - 1 {
      RunAroundIsUnique(a, b, e, peak, l, r, plateauBegin, plateauEnd - 1);
    }
  }

  lemma RunAroundIsUnique(a: seq<Value>, b: int, e: int, at: int, l: int, r: int, l': int, r': int)
    requires RunAround(a, b, e, at, l, r) && RunAround(a, b, e, at, l', r')
    ensures l == l' && r == r'
  {
  }

  /** In a window of at most 2W + 1 samples no peak's plateau is longer than 2W - 1, so the
      reference's extra check never rejects anything. */
  lemma PeakOfWindowIsShort(a: seq<Value>, b: int, e: int, c: int, window: nat, l: int, r: int)
    requires e - b <= 2 * window + 1
    requires PeakOfRange(a, b, e, c) && RunAround(a, b, e, c, l, r)
    ensures r - l + 1 <= 2 * window - 1
  {
    var l', r' :| FirstTopRun(a, b, e, l', r') && c == Middle(l', r');
    assert RunAround(a, b, e, c, l', r');
    RunAroundIsUnique(a, b, e, c, l, r, l', r');
  }

  // ----- The reference finder

  function WindowBegin(c: int, window: nat): int {
    if c - window < 0 then 0 else c - window
  }

  /** c dominates its window, the window is complete, and c reaches the threshold. */
  ghost predicate DominantAt(s: seq<Value>, c: int, window: nat, threshold: int) {
    0 <= c < |s| - window && PeakOfRange(s, WindowBegin(c, window), c + window + 1, c) && s[c] >= threshold
  }

  /** All dominant samples whose windows are complete, in order. */
  ghost function ReferencePeaks(s: seq<Value>, window: nat, threshold: int): seq<ValueAtPos> {
    if s == [] then []
    else
      var c := |s| - 1 - window;
      ReferencePeaks(DropLast(s), window, threshold)
      + (if DominantAt(s, c, window, threshold) then [ValueAtPos(c, s[c])] else [])
  }

  /** The dominant sample, if any, of the window that ends before `end`. */
  ghost function WindowHit(s: seq<Value>, end: nat, window: nat, threshold: int): seq<ValueAtPos>
    requires 0 < end <= |s|
  {
    var c := end - 1 - window;
    if 0 <= c && PeakOfRange(s, WindowBegin(c, window), end, c) && s[c] >= threshold then [ValueAtPos(c, s[c])] else []
  }

  class ReferenceStreamingPeakFinder {
    const lockoutDistance: nat
    var numSamplesRead: nat

    constructor (patternSize: nat)
      ensures lockoutDistance == patternSize / 2 && numSamplesRead == 0
    {
      lockoutDistance := patternSize / 2;
      numSamplesRead := 0;
    }

    /** Scans the windows that the last `blockSize` samples of `data` complete. */
    method Process(data: seq<Value>, blockSize: nat, peakThreshold: Value) returns (found: seq<ValueAtPos>)
      requires lockoutDistance > 0
      requires |data| == numSamplesRead + blockSize
      modifies this
      ensures numSamplesRead == |data|
      ensures ReferencePeaks(data, lockoutDistance, peakThreshold)
           == ReferencePeaks(data[..old(numSamplesRead)], lockoutDistance, peakThreshold) + found
    {
      hide PeakOfRange, WindowHit, ReferencePeaks;
      found := [];
      ghost var before := ReferencePeaks(data[..numSamplesRead], lockoutDistance, peakThreshold);
      for i := 0 to blockSize
        invariant numSamplesRead == old(numSamplesRead) + i
        invariant ReferencePeaks(data[..numSamplesRead], lockoutDistance, peakThreshold) == before + found
      {
        numSamplesRead := numSamplesRead + 1;
        var hit := ScanWindow(data, |data| - (blockSize - 1 - i), peakThreshold);
        DominantNext(data, old(numSamplesRead) + i, lockoutDistance, peakThreshold, before, found);
        found := found + hit;
      }
      assert data[..numSamplesRead] == data;
    }

    /** One iteration: the window that ends with sample `end - 1`. */
    method ScanWindow(data: seq<Value>, end: nat, peakThreshold: Value) returns (hit: seq<ValueAtPos>)
      requires lockoutDistance > 0
      requires 0 < end == numSamplesRead <= |data|
      ensures hit == WindowHit(data, end, lockoutDistance, peakThreshold)
    {
      hit := [];
      if numSamplesRead <= lockoutDistance {
        return;
      }
      var numSamplesLookBack := if 2 * lockoutDistance + 1 < numSamplesRead then 2 * lockoutDistance + 1 else numSamplesRead;
      var candidate := end - (lockoutDistance + 1);
      var begin := end - numSamplesLookBack;
      assert begin == WindowBegin(candidate, lockoutDistance);
      var peak := FindPeak(data, begin, end);
      if peak != candidate {
        return;
      }
      var tooLong := IsPlateauTooLong(data, peak, begin, end, 2 * lockoutDistance - 1);
      PeakIsNotTooLong(data, begin, end, peak, lockoutDistance, tooLong);
      if tooLong {
        return;
      }
      if data[peak] < peakThreshold {
        return;
      }
      hit := [ValueAtPos(|data| - (|data| - peak), data[peak])];
    }
  }

  /** One more sample completes one more window. */
  lemma DominantStep(s: seq<Value>, n: nat, window: nat, threshold: int)
    requires n < |s|
    ensures ReferencePeaks(s[..n + 1], window, threshold)
         == ReferencePeaks(s[..n], window, threshold) + WindowHit(s, n + 1, window, threshold)
  {
    hide FirstTopRun;
    var c := n - window;
    assert DropLast(s[..n + 1]) == s[..n];
    if 0 <= c {
      PrefixPeak(s, WindowBegin(c, window), n + 1, c);
    }
  }

  lemma DominantNext(s: seq<Value>, n: nat, window: nat, threshold: int, before: seq<ValueAtPos>, found: seq<ValueAtPos>)
    requires n < |s|
    requires ReferencePeaks(s[..n], window, threshold) == before + found
    ensures ReferencePeaks(s[..n + 1], window, threshold) == before + (found + WindowHit(s, n + 1, window, threshold))
  {
    DominantStep(s, n, window, threshold);
    AppendAll(before, found, WindowHit(s, n + 1, window, threshold));
  }

  lemma PeakIsNotTooLong(a: seq<Value>, b: int, e: int, c: int, window: nat, tooLong: bool)
    requires 1 <= window && e - b <= 2 * window + 1
    requires PeakOfRange(a, b, e, c)
    requires forall l, r :: RunAround(a, b, e, c, l, r) ==> (tooLong <==> r - l + 1 > 2 * window - 1)
    requires exists l, r :: RunAround(a, b, e, c, l, r)
    ensures !tooLong
  {
    var l, r :| RunAround(a, b, e, c, l, r);
    PeakOfWindowIsShort(a, b, e, c, window, l, r);
  }

  lemma PrefixPeak(s: seq<Value>, b: int, e: int, c: int)
    requires 0 <= b <= e <= |s|
    ensures PeakOfRange(s, b, e, c) <==> PeakOfRange(s[..e], b, e, c)
  {
    forall l, r ensures FirstTopRun(s, b, e, l, r) <==> FirstTopRun(s[..e], b, e, l, r) {
    }
  }
}
