/** SlidingWindowLocalMaximaFinder (dsp/peakfinder.hpp:190-246): a windowed maximum kept in a
    monotone deque. The sample counter may wrap around at any time, any number of times. */
module LocalMaxima {
  import opened RingMath
  import opened RingBuffer
  import opened PeakTypes
  import opened PeakDetector
  import opened Sequences

  /** v is the maximum of s[lo..]. */
  ghost predicate IsMaximumFrom(s: seq<Value>, lo: int, v: int) {
    && 0 <= lo < |s|
    && (exists k :: lo <= k < |s| && s[k] == v)
    && (forall k :: lo <= k < |s| ==> s[k] <= v)
  }

  /** Start of the window that ends with the last sample. */
  function WindowStart(n: nat, window: nat): nat {
    if n < window then 0 else n - window
  }

  /** The samples that can still become a maximum: in the window and larger than all later ones. */
  ghost predicate Candidate(s: seq<Value>, window: nat, m: ValueAtPos) {
    && WindowStart(|s|, window) <= m.streamPos < |s|
    && m.value == s[m.streamPos]
    && forall j :: m.streamPos < j < |s| ==> s[j] < m.value
  }

  ghost predicate Descending(c: seq<ValueAtPos>) {
    forall i, j :: 0 <= i < j < |c| ==> c[i].streamPos < c[j].streamPos && c[i].value > c[j].value
  }

  /** The deque holds exactly the candidates, oldest first. */
  ghost predicate HoldsCandidates(c: seq<ValueAtPos>, s: seq<Value>, window: nat) {
    Descending(c) && forall m :: m in c <==> Candidate(s, window, m)
  }

  /** Some sample from lo on is a maximum and exceeds everything after it. */
  lemma {:induction false} LastMaximum(s: seq<Value>, lo: nat) returns (k: nat)
    requires lo < |s|
    ensures lo <= k < |s| && IsMaximumFrom(s, lo, s[k]) && forall j :: k < j < |s| ==> s[j] < s[k]
    decreases |s| - lo
  {
    if lo == |s| - 1 {
      k := lo;
    } else {
      k := LastMaximum(s, lo + 1);
      if s[k] < s[lo] {
        k := lo;
      }
    }
  }

  /** The front of the deque is the window's maximum. */
  lemma FrontIsMaximum(c: seq<ValueAtPos>, s: seq<Value>, window: nat)
    requires HoldsCandidates(c, s, window) && 0 < window && s != []
    ensures c != [] && IsMaximumFrom(s, WindowStart(|s|, window), c[0].value)
  {
    var k := LastMaximum(s, WindowStart(|s|, window));
    var m := ValueAtPos(k, s[k]);
    assert Candidate(s, window, m);
    assert m in c;
    assert c[0] in c;
  }

  /** Drops the front entry if it has just left the window. */
  ghost function Expire(c: seq<ValueAtPos>, n: nat, window: nat): seq<ValueAtPos> {
    if n >= window && c != [] && n - c[0].streamPos >= window then c[1..] else c
  }

  /** Drops what a new sample reaches or exceeds. */
  ghost function Shrink(c: seq<ValueAtPos>, x: Value): seq<ValueAtPos> {
    if c != [] && Last(c).value <= x then Shrink(DropLast(c), x) else c
  }

  lemma {:induction false} ShrinkFilters(c: seq<ValueAtPos>, x: Value)
    requires Descending(c)
    ensures Descending(Shrink(c, x))
    ensures forall m :: m in Shrink(c, x) <==> m in c && m.value > x
  {
    if c != [] {
      assert c == DropLast(c) + [Last(c)];
      if Last(c).value <= x {
        ShrinkFilters(DropLast(c), x);
      }
    }
  }

  /** Ascending positions, none of them older than the window of n samples. */
  ghost predicate Aged(c: seq<ValueAtPos>, n: nat, window: nat) {
    && (forall i, j :: 0 <= i < j < |c| ==> c[i].streamPos < c[j].streamPos)
    && forall i :: 0 <= i < |c| ==> 0 <= c[i].streamPos <= n && (n >= window ==> n - c[i].streamPos <= window)
  }

  lemma AgesAreShort(c: seq<ValueAtPos>, s: seq<Value>, window: nat)
    requires HoldsCandidates(c, s, window)
    ensures Aged(c, |s|, window)
  {
    forall i | 0 <= i < |c| ensures Candidate(s, window, c[i]) {
      assert c[i] in c;
    }
  }

  /** At most the front entry expires. */
  lemma OnlyFrontExpires(c: seq<ValueAtPos>, n: nat, window: nat)
    requires Aged(c, n, window) && c != [] && window <= n
    ensures n - c[0].streamPos < window ==> Expire(c, n, window) == c
    ensures n - c[0].streamPos >= window ==>
              var rest := c[1..]; Expire(c, n, window) == rest == Expire(rest, n, window) && Aged(rest, n, window)
  {
  }

  lemma NothingExpires(n: nat, window: nat)
    ensures Expire([], n, window) == []
  {
  }

  lemma RestMembers(c: seq<ValueAtPos>, n: nat, window: nat, m: ValueAtPos)
    requires Aged(c, n, window) && c != []
    ensures m in c[1..] <==> m in c && c[0].streamPos < m.streamPos
  {
    if m in c[1..] {
      var i :| 0 <= i < |c[1..]| && c[1..][i] == m;
      assert m == c[i + 1];
    }
    if m in c && c[0].streamPos < m.streamPos {
      var i :| 0 <= i < |c| && c[i] == m;
      assert m == c[1..][i - 1];
    }
  }

  lemma ExpireFilters(c: seq<ValueAtPos>, n: nat, window: nat, m: ValueAtPos)
    requires Aged(c, n, window) && 0 < window
    ensures m in Expire(c, n, window) <==> m in c && n - m.streamPos < window
  {
    if m in c {
      var i :| 0 <= i < |c| && c[i] == m;
    }
    if c != [] {
      RestMembers(c, n, window, m);
    }
  }

  /** What the two pop loops leave of the candidates. */
  lemma KeptMembers(c: seq<ValueAtPos>, s: seq<Value>, x: Value, window: nat)
    requires HoldsCandidates(c, s, window) && 0 < window
    ensures Descending(Shrink(Expire(c, |s|, window), x))
    ensures forall m :: m in Shrink(Expire(c, |s|, window), x)
                   <==> Candidate(s, window, m) && |s| - m.streamPos < window && m.value > x
  {
    hide Candidate, Aged, Expire, Shrink;
    AgesAreShort(c, s, window);
    var recent := Expire(c, |s|, window);
    RecentDescending(c, |s|, window);
    ShrinkFilters(recent, x);
    forall m ensures m in recent <==> m in c && |s| - m.streamPos < window {
      ExpireFilters(c, |s|, window, m);
    }
  }

  lemma RecentDescending(c: seq<ValueAtPos>, n: nat, window: nat)
    requires Descending(c)
    ensures Descending(Expire(c, n, window))
  {
  }

  /** The step of `add` keeps exactly the candidates of the longer history. */
  lemma AddKeepsCandidates(c: seq<ValueAtPos>, s: seq<Value>, x: Value, window: nat)
    requires HoldsCandidates(c, s, window) && 0 < window
    ensures HoldsCandidates(Shrink(Expire(c, |s|, window), x) + [ValueAtPos(|s|, x)], s + [x], window)
    ensures |Shrink(Expire(c, |s|, window), x)| < window
    ensures |s| < window ==> Expire(c, |s|, window) == c
  {
    hide Shrink;
    AgesAreShort(c, s, window);
    KeptMembers(c, s, x, window);
    var kept := Shrink(Expire(c, |s|, window), x);
    forall i | 0 <= i < |kept| ensures |s| - window < kept[i].streamPos < |s| && kept[i].value > x {
      assert kept[i] in kept;
    }
    forall m ensures m in kept + [ValueAtPos(|s|, x)] <==> Candidate(s + [x], window, m) {
      CandidateNext(s, x, window, m);
    }
    FewCandidates(kept, |s| - window, |s|);
  }

  lemma CandidateNext(s: seq<Value>, x: Value, window: nat, m: ValueAtPos)
    requires 0 < window
    ensures Candidate(s + [x], window, m)
       <==> m == ValueAtPos(|s|, x) || (Candidate(s, window, m) && |s| - m.streamPos < window && m.value > x)
  {
    var s' := s + [x];
    if 0 <= m.streamPos < |s| {
      assert s'[m.streamPos] == s[m.streamPos] && s'[|s|] == x;
      assert forall j :: m.streamPos < j < |s| ==> s'[j] == s[j];
    }
  }

  /** Distinct positions strictly between two bounds. */
  lemma {:induction false} FewCandidates(c: seq<ValueAtPos>, lo: int, hi: int)
    requires Descending(c) && lo < hi
    requires forall i :: 0 <= i < |c| ==> lo < c[i].streamPos < hi
    ensures |c| < hi - lo
    decreases |c|
  {
    if c != [] {
      FewCandidates(DropLast(c), lo, Last(c).streamPos);
    }
  }

  class SlidingWindowLocalMaximaFinder {
    const windowSize: nat
    var initialElementsRead: nat
    var currentSamplePos: Position
    const maximumCandidates: ChunkedRingBuffer<ValueAtPos>

    // All samples added so far, the candidates among them on an unbounded clock, and the pops.
    ghost var history: seq<Value>
    ghost var candidates: seq<ValueAtPos>
    ghost var pops: nat

    ghost predicate Represented()
      reads this, maximumCandidates, maximumCandidates.data
    {
      && 0 < windowSize < RING - 1
      && maximumCandidates.Valid() && maximumCandidates.FrontToBack() == StampPlaces(0, candidates)
      && maximumCandidates.Capacity() == windowSize
    }

    ghost predicate Valid()
      reads this, maximumCandidates, maximumCandidates.data
    {
      && Represented()
      && initialElementsRead == (if |history| < windowSize then |history| else windowSize)
      && currentSamplePos == Wrap(|history|)
      && HoldsCandidates(candidates, history, windowSize)
      && pops + |candidates| == |history|
    }

    constructor (windowSize: nat)
      requires 0 < windowSize < RING - 1
      ensures Valid() && fresh(maximumCandidates) && fresh(maximumCandidates.data)
      ensures this.windowSize == windowSize && history == []
    {
      this.windowSize := windowSize;
      initialElementsRead := 0;
      currentSamplePos := 0;
      maximumCandidates := new ChunkedRingBuffer<ValueAtPos>(windowSize);
      history, candidates, pops := [], [], 0;
    }

    /** Adds a sample. Returns the maximum of the window before it, once there is a whole window. */
    method Add(value: Value) returns (retval: Value)
      requires Valid()
      modifies this, maximumCandidates, maximumCandidates.data
      ensures Valid() && history == old(history) + [value]
      ensures |old(history)| < windowSize ==> retval == VALUE_MIN
      ensures |old(history)| >= windowSize ==> IsMaximumFrom(old(history), |old(history)| - windowSize, retval)
      ensures pops <= |history|
    {
      hide Slots, Reverse, Wrap, HoldsCandidates, Descending, Candidate, Expire, Shrink, IsMaximumFrom, StampPlaces, Aged;
      ghost var n := |history|;
      retval := VALUE_MIN;
      AddKeepsCandidates(candidates, history, value, windowSize);
      AgesAreShort(candidates, history, windowSize);
      if initialElementsRead >= windowSize {
        FrontIsMaximum(candidates, history, windowSize);
        var front := maximumCandidates.Front();
        retval := front.value;
        PopExpired(n);
      } else {
        initialElementsRead := initialElementsRead + 1;
      }
      ghost var recent := candidates;
      PopReached(value);
      maximumCandidates.PushBack(ValueAtPos(currentSamplePos, value));
      StampPlacesAppend(0, candidates, ValueAtPos(n, value));
      candidates := candidates + [ValueAtPos(n, value)];
      history := history + [value];
      currentSamplePos := Wrap(currentSamplePos + 1);
      WrapDifferences(n, -1);
    }

    /** The loop that pops entries that have left the window. */
    method PopExpired(ghost n: nat)
      requires Represented() && windowSize <= n && currentSamplePos == Wrap(n)
      requires Aged(candidates, n, windowSize)
      modifies this`candidates, this`pops, maximumCandidates
      ensures Represented()
      ensures candidates == Expire(old(candidates), n, windowSize)
      ensures pops + |candidates| == old(pops) + |old(candidates)|
    {
      hide Slots, Reverse, Wrap, Expire;
      while !maximumCandidates.Empty()
        invariant Represented()
        invariant Aged(candidates, n, windowSize)
        invariant Expire(candidates, n, windowSize) == Expire(old(candidates), n, windowSize)
        invariant pops + |candidates| == old(pops) + |old(candidates)|
        decreases |candidates|
      {
        var front := maximumCandidates.Front();
        OnlyFrontExpires(candidates, n, windowSize);
        MinusIsElapsed(n, candidates[0].streamPos);
        if !(Minus(currentSamplePos, front.streamPos) >= windowSize) {
          break;
        }
        StampPlacesTail(0, candidates);
        maximumCandidates.PopFront();
        candidates := candidates[1..];
        pops := pops + 1;
      }
      if candidates == [] {
        NothingExpires(n, windowSize);
      }
    }

    /** The loop that pops entries that the new sample reaches. */
    method PopReached(value: Value)
      requires Represented()
      modifies this`candidates, this`pops, maximumCandidates
      ensures Represented()
      ensures candidates == Shrink(old(candidates), value)
      ensures pops + |candidates| == old(pops) + |old(candidates)|
    {
      hide Slots, Reverse, Wrap;
      while !maximumCandidates.Empty()
        invariant Represented()
        invariant Shrink(candidates, value) == Shrink(old(candidates), value)
        invariant pops + |candidates| == old(pops) + |old(candidates)|
        decreases |candidates|
      {
        var back := maximumCandidates.Back();
        if !(back.value <= value) {
          break;
        }
        StampPlacesDropLast(0, candidates);
        maximumCandidates.PopBack();
        candidates := DropLast(candidates);
        pops := pops + 1;
      }
    }

    /** Returns the maximum of the last window, or of all samples if there are fewer. */
    method Finalize() returns (v: Value)
      requires Valid()
      ensures history == [] ==> v == VALUE_MIN
      ensures history != [] ==> IsMaximumFrom(history, WindowStart(|history|, windowSize), v)
    {
      hide Slots, Reverse, Wrap;
      if history != [] {
        FrontIsMaximum(candidates, history, windowSize);
      }
      if maximumCandidates.Empty() {
        v := VALUE_MIN;
      } else {
        var front := maximumCandidates.Front();
        v := front.value;
      }
    }
  }
}
