/** SlidingWindowDominantPeakIsolator (dsp/peakfinder.hpp:249-422) as the source keeps it: two
    fixed-size deques of 64-bit stream positions that may wrap around at any time. Its methods do
    what the functions of `StoredPeaks` do, as long as neither deque overflows. */
module PeakIsolator {
  import opened RingMath
  import opened RingBuffer
  import opened PeakTypes
  import opened PeakDetector
  import opened Sequences
  import D = DominantPeaks
  import S = StoredPeaks

  class SlidingWindowDominantPeakIsolator {
    const windowSize: nat
    const right: ChunkedRingBuffer<RawPeak>
    const memory: ChunkedRingBuffer<ValueAtPos>

    // The calls that may add an entry, and the entries taken out again by any call.
    ghost var calls: nat
    ghost var pops: nat

    ghost predicate Shaped()
      reads this, right, right.data, memory, memory.data
    {
      && 0 < windowSize && 3 * windowSize + 1 < RING
      && right.Valid() && right.Capacity() == S.Capacity(windowSize)
      && memory.Valid() && memory.Capacity() == S.Capacity(windowSize)
      && (right as object) != memory && (right.data as object) != memory.data
    }

    /** The entries taken out, and those that still can be: a right entry twice, since it moves to
        the memory. */
    ghost function Work(): nat
      requires Shaped()
      reads this, right, right.data, memory, memory.data
    {
      pops + 2 * |right.FrontToBack()| + |memory.FrontToBack()|
    }

    /** Every call pays for at most two pops. */
    ghost predicate Valid()
      reads this, right, right.data, memory, memory.data
    {
      Shaped() && Work() <= 2 * calls
    }

    /** Both deques. */
    ghost function Contents(): D.Queues
      requires Shaped()
      reads this, right, right.data, memory, memory.data
    {
      D.Queues(right.FrontToBack(), memory.FrontToBack())
    }

    constructor (lockoutDistance: nat)
      requires 0 < lockoutDistance && 3 * lockoutDistance + 1 < RING
      ensures Valid() && Contents() == D.Queues([], []) && windowSize == lockoutDistance
      ensures right.Capacity() == memory.Capacity() == 2 * lockoutDistance + 1
      ensures calls == pops == 0
      ensures fresh(right) && fresh(right.data) && fresh(memory) && fresh(memory.data)
    {
      windowSize := lockoutDistance;
      right := new ChunkedRingBuffer<RawPeak>(2 * lockoutDistance + 1);
      memory := new ChunkedRingBuffer<ValueAtPos>(2 * lockoutDistance + 1);
      calls, pops := 0, 0;
    }

    /** Lets the first sample of the stream lock out later peaks. */
    method AddLockoutForInitialValue(initialValue: ValueAtPos)
      requires Valid() && |Contents().memory| < S.Capacity(windowSize)
      modifies this`calls, memory, memory.data
      ensures Valid() && calls == old(calls) + 1
      ensures Contents() == D.Queues(old(Contents()).right, old(Contents()).memory + [initialValue])
    {
      hide Slots, Reverse;
      calls := calls + 1;
      memory.PushBack(initialValue);
    }

    method OnRawPeakEvent(rawPeak: RawPeak) returns (found: seq<RawPeak>)
      requires Valid() && S.RoomForEvent(Contents(), rawPeak, windowSize)
      modifies this`calls, this`pops, right, right.data, memory, memory.data
      ensures Valid() && calls == old(calls) + 1 && pops <= 2 * calls
      ensures (Contents(), found) == S.OnRawPeakEvent(old(Contents()), rawPeak, windowSize)
    {
      hide Slots, Reverse, S.Flush, S.RoomToFlush, S.DropDominated;
      found := [];
      calls := calls + 1;
      var now := rawPeak.streamPos;
      if !right.Empty() {
        var back := right.Back();
        if now == back.streamPos {
          // The rising sample turned out to be the top.
          right.AssignBack(back.(kind := rawPeak.kind));
          return;
        }
      }
      Enqueue(rawPeak);
      found := CleanOldRightDominantPeaks(now);
    }

    /** Pops what the event dominates, and queues it unless it only rises. */
    method Enqueue(rawPeak: RawPeak)
      requires Shaped() && |S.Enqueue(Contents(), rawPeak, windowSize).right| <= S.Capacity(windowSize)
      modifies this`pops, right, right.data
      ensures Shaped() && Work() <= old(Work()) + 2
      ensures Contents() == S.Enqueue(old(Contents()), rawPeak, windowSize)
    {
      hide Slots, Reverse, S.DropDominated;
      PopDominated(rawPeak);
      if rawPeak.kind != Rising {
        right.PushBack(rawPeak);
      } else {
        NothingAfter(right.FrontToBack());
      }
    }

    /** Settles what is pending as of a position that no later event will precede. */
    method PurgeUpUntil(streamPos: Position) returns (found: seq<RawPeak>)
      requires Valid() && S.RoomToPurge(Contents(), streamPos, windowSize)
      modifies this`pops, right, right.data, memory, memory.data
      ensures Valid() && pops <= 2 * calls
      ensures (Contents(), found) == S.PurgeUpUntil(old(Contents()), streamPos, windowSize)
    {
      hide Slots, Reverse, S.Flush, S.RoomToFlush, S.DropOld;
      found := [];
      var youngest := streamPos;
      if !right.Empty() {
        var back := right.Back();
        youngest := Wrap(back.streamPos);
      }
      if RingGreaterEq(youngest, streamPos) {
        return;
      }
      PopOld(streamPos, 3 * windowSize + 1);
      found := CleanOldRightDominantPeaks(streamPos);
    }

    method YoungestRawPeakValue() returns (v: int)
      requires Valid()
      ensures v == if Contents().right == [] then VALUE_MIN else Last(Contents().right).value
    {
      hide Slots, Reverse;
      if right.Empty() {
        v := VALUE_MIN;
      } else {
        var back := right.Back();
        v := back.value;
      }
    }

    method CleanOldRightDominantPeaks(now: int) returns (found: seq<RawPeak>)
      requires Shaped() && S.RoomToFlush(Contents(), now, windowSize)
      modifies this`pops, right, memory, memory.data
      ensures Shaped() && Work() <= old(Work())
      ensures (Contents(), found) == S.Flush(old(Contents()), now, windowSize)
    {
      hide Slots, Reverse, S.LeftDominators;
      found := [];
      NothingBefore(S.Flush(Contents(), now, windowSize).1);
      while !right.Empty()
        invariant Shaped() && S.RoomToFlush(Contents(), now, windowSize) && Work() <= old(Work())
        invariant S.Flush(old(Contents()), now, windowSize)
               == (S.Flush(Contents(), now, windowSize).0, found + S.Flush(Contents(), now, windowSize).1)
        decreases |Contents().right|
      {
        var front := right.Front();
        if !(S.Age(now, front.streamPos) >= windowSize) {
          break;
        }
        ghost var q := Contents();
        var hit := CheckLeftDominanceAndRemember(front);
        right.PopFront();
        pops := pops + 1;
        assert Contents() == S.FlushedFront(q, windowSize);
        AppendAll(found, hit, S.Flush(Contents(), now, windowSize).1);
        found := found + hit;
      }
      NothingAfter(found);
    }

    /** Reports a right-dominant peak if nothing in the memory dominates it, and remembers it. */
    method CheckLeftDominanceAndRemember(rightDominantPeak: RawPeak) returns (accepted: seq<RawPeak>)
      requires Shaped()
      requires |S.LeftDominators(Contents().memory, rightDominantPeak, windowSize)| < S.Capacity(windowSize)
      modifies this`pops, memory, memory.data
      ensures Shaped() && Work() == old(Work()) + 1
      ensures var kept := S.LeftDominators(old(Contents()).memory, rightDominantPeak, windowSize);
              && Contents() == D.Queues(old(Contents()).right, kept + [rightDominantPeak.AtPos()])
              && accepted == D.Accepted(rightDominantPeak, kept)
    {
      hide Slots, Reverse, S.DropOld, D.DropSmaller;
      PopOld(rightDominantPeak.streamPos, windowSize);
      PopSmaller(rightDominantPeak.value);
      accepted := if rightDominantPeak.kind == Peak && memory.Empty() then [rightDominantPeak] else [];
      memory.PushBack(rightDominantPeak.AtPos());
    }

    /** The loop that pops what a new event dominates. */
    method PopDominated(rawPeak: RawPeak)
      requires Shaped()
      modifies this`pops, right
      ensures Shaped() && Work() <= old(Work()) && right.FrontToBack() == S.DropDominated(old(right.FrontToBack()), rawPeak, windowSize)
    {
      hide Slots, Reverse;
      while !right.Empty()
        invariant Shaped() && Work() <= old(Work())
        invariant S.DropDominated(right.FrontToBack(), rawPeak, windowSize)
               == S.DropDominated(old(right.FrontToBack()), rawPeak, windowSize)
        decreases |right.FrontToBack()|
      {
        var back := right.Back();
        if !(back.value < rawPeak.value && S.Age(rawPeak.streamPos, back.streamPos) <= windowSize) {
          break;
        }
        right.PopBack();
        pops := pops + 1;
      }
    }

    /** The loop that pops memory entries older than a limit. */
    method PopOld(streamPos: int, limit: nat)
      requires Shaped()
      modifies this`pops, memory
      ensures Shaped() && Work() == old(Work()) && memory.FrontToBack() == S.DropOld(old(memory.FrontToBack()), streamPos, limit)
    {
      hide Slots, Reverse;
      while !memory.Empty()
        invariant Shaped() && Work() == old(Work())
        invariant S.DropOld(memory.FrontToBack(), streamPos, limit) == S.DropOld(old(memory.FrontToBack()), streamPos, limit)
        decreases |memory.FrontToBack()|
      {
        var front := memory.Front();
        if !(S.Age(streamPos, front.streamPos) > limit) {
          break;
        }
        memory.PopFront();
        pops := pops + 1;
      }
    }

    /** The loop that pops memory entries smaller than a value. */
    method PopSmaller(value: int)
      requires Shaped()
      modifies this`pops, memory
      ensures Shaped() && Work() == old(Work()) && memory.FrontToBack() == D.DropSmaller(old(memory.FrontToBack()), value)
    {
      hide Slots, Reverse;
      while !memory.Empty()
        invariant Shaped() && Work() == old(Work())
        invariant D.DropSmaller(memory.FrontToBack(), value) == D.DropSmaller(old(memory.FrontToBack()), value)
        decreases |memory.FrontToBack()|
      {
        var back := memory.Back();
        if !(back.value < value) {
          break;
        }
        memory.PopBack();
        pops := pops + 1;
      }
    }
  }
}
