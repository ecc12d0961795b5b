/** The pointer-wrapping queue of container/ringbuffer.hpp and the deque derived from it.

    `FixedSizeDeque` derives from `ChunkedRingBuffer` and adds no state, so the operations of
    both live in one class here; pointers into `mpData` are indices into `data`. */
module RingBuffer {
  import opened Sequences

  /** The same elements, last one first. */
  function Reverse<T>(s: seq<T>): (r: seq<T>)
    ensures |r| == |s|
    ensures forall i :: 0 <= i < |s| ==> r[i] == s[|s| - 1 - i]
  {
    seq(|s|, i requires 0 <= i < |s| => s[|s| - 1 - i])
  }

  lemma ReverseEnds<T>(s: seq<T>, x: T)
    ensures Reverse(s + [x]) == [x] + Reverse(s)
    ensures Reverse([x] + s) == Reverse(s) + [x]
  {
  }

  lemma ReverseWithoutEnds<T>(s: seq<T>)
    requires s != []
    ensures Reverse(s[1..]) == Reverse(s)[..|s| - 1]
    ensures Reverse(s[..|s| - 1]) == Reverse(s)[1..]
  {
  }

  /** The slots from `tail` up to, not including, `head`, wrapping at the end. */
  ghost function Slots<T>(slots: seq<T>, tail: nat, head: nat): (r: seq<T>)
    requires head < |slots| && tail < |slots|
    ensures |r| == if tail <= head then head - tail else |slots| - tail + head
  {
    if tail <= head then slots[tail..head] else slots[tail..] + slots[..head]
  }

  /** The slot behind another. */
  function NextSlot(slot: nat, count: nat): nat {
    if slot + 1 == count then 0 else slot + 1
  }

  /** One more slot at the head. */
  lemma HeadGrows<T>(slots: seq<T>, tail: nat, head: nat, x: T)
    requires head < |slots| && tail < |slots| && NextSlot(head, |slots|) != tail
    ensures Slots(slots[head := x], tail, NextSlot(head, |slots|)) == Slots(slots, tail, head) + [x]
  {
    var after := slots[head := x];
    if tail <= head {
      assert after[tail..head] == slots[tail..head];
    } else {
      assert after[tail..] == slots[tail..] && after[..head] == slots[..head];
    }
  }

  /** Advancing the tail inside the array. */
  lemma TailMoves<T>(slots: seq<T>, tail: nat, head: nat, count: nat)
    requires head < |slots| && tail + count < |slots| && count <= |Slots(slots, tail, head)|
    ensures Slots(slots, tail, head) == slots[tail..tail + count] + Slots(slots, tail + count, head)
  {
    if tail <= head {
      SplitAt(slots, tail, tail + count, head);
    } else {
      SplitAt(slots, tail, tail + count, |slots|);
      AppendAll(slots[tail..tail + count], slots[tail + count..], slots[..head]);
    }
  }

  /** Advancing the tail to the start of the array, and on. */
  lemma TailWraps<T>(slots: seq<T>, tail: nat, head: nat, count: nat)
    requires head < tail < |slots| && |slots| <= tail + count && count <= |Slots(slots, tail, head)|
    ensures Slots(slots, tail, head)
         == slots[tail..] + slots[..tail + count - |slots|] + Slots(slots, tail + count - |slots|, head)
  {
    var wrapped := tail + count - |slots|;
    SplitAt(slots, 0, wrapped, head);
    AppendAll(slots[tail..], slots[..wrapped], slots[wrapped..head]);
  }

  /** Advancing the tail by `count` splits off the first `count` queued elements. */
  lemma AdvancedTail<T>(slots: seq<T>, tail: nat, head: nat, count: nat)
    requires head < |slots| && tail < |slots|
    requires count <= |Slots(slots, tail, head)|
    ensures tail + count <= |slots| ==>
              Slots(slots, tail, head)
              == slots[tail..tail + count]
                 + Slots(slots, if tail + count == |slots| then 0 else tail + count, head)
    ensures tail + count > |slots| ==>
              Slots(slots, tail, head)
              == slots[tail..] + slots[..count - (|slots| - tail)]
                 + Slots(slots, count - (|slots| - tail), head)
  {
    hide Slots;
    if tail + count < |slots| {
      TailMoves(slots, tail, head, count);
    } else {
      TailWraps(slots, tail, head, count);
      NothingAfter(slots[tail..]);
    }
  }

  /** One slot less at the tail. */
  lemma TailGivesUp<T>(slots: seq<T>, tail: nat, head: nat)
    requires head < |slots| && tail < |slots| && tail != head
    ensures Slots(slots, tail, head) == [slots[tail]] + Slots(slots, NextSlot(tail, |slots|), head)
  {
    AdvancedTail(slots, tail, head, 1);
    assert slots[tail..tail + 1] == [slots[tail]];
  }

  /** One more slot before the tail. */
  lemma TailGrows<T>(slots: seq<T>, tail: nat, head: nat, x: T)
    requires head < |slots| && tail < |slots| && tail != head
    ensures Slots(slots[tail := x], tail, head) == [x] + Slots(slots, NextSlot(tail, |slots|), head)
  {
    TailGivesUp(slots[tail := x], tail, head);
    var next := NextSlot(tail, |slots|);
    if next <= head {
      assert slots[tail := x][next..head] == slots[next..head];
    } else {
      assert slots[tail := x][next..] == slots[next..] && slots[tail := x][..head] == slots[..head];
    }
  }

  /** One slot less at the head. */
  lemma HeadGivesUp<T>(slots: seq<T>, tail: nat, head: nat)
    requires head < |slots| && tail < |slots| && NextSlot(head, |slots|) != tail
    ensures Slots(slots, tail, NextSlot(head, |slots|)) == Slots(slots, tail, head) + [slots[head]]
  {
    HeadGrows(slots, tail, head, slots[head]);
    assert slots[head := slots[head]] == slots;
  }

  /** What a copy loop leaves. */
  ghost function Overwritten<T>(s: seq<T>, at: nat, chunk: seq<T>): (r: seq<T>)
    requires at + |chunk| <= |s|
    ensures |r| == |s|
  {
    s[..at] + chunk + s[at + |chunk|..]
  }

  lemma OverwrittenParts<T>(s: seq<T>, at: nat, chunk: seq<T>, from: nat, to: nat)
    requires at + |chunk| <= |s| && from <= at && at + |chunk| <= to <= |s|
    ensures Overwritten(s, at, chunk)[..at + |chunk|] == s[..at] + chunk
    ensures Overwritten(s, at, chunk)[from..at + |chunk|] == s[from..at] + chunk
    ensures Overwritten(s, at, chunk)[to..] == s[to..]
  {
  }

  /** Copying a chunk behind the head appends it. */
  lemma AppendedInPlace<T>(slots: seq<T>, tail: nat, head: nat, chunk: seq<T>)
    requires head < |slots| && tail < |slots| && |chunk| < |slots| - |Slots(slots, tail, head)|
    requires head + |chunk| <= |slots|
    ensures var newHead := if head + |chunk| == |slots| then 0 else head + |chunk|;
            Slots(Overwritten(slots, head, chunk), tail, newHead) == Slots(slots, tail, head) + chunk
  {
    hide Overwritten;
    var after := Overwritten(slots, head, chunk);
    if tail <= head {
      OverwrittenParts(slots, head, chunk, tail, |slots|);
      if head + |chunk| == |slots| {
        NothingAfter(after[tail..]);
        assert after[tail..] == after[tail..|slots|];
      }
    } else {
      OverwrittenParts(slots, head, chunk, 0, tail);
      AppendAll(slots[tail..], slots[..head], chunk);
    }
  }

  /** The same for a chunk that wraps. */
  lemma AppendedAround<T>(slots: seq<T>, tail: nat, head: nat, chunk: seq<T>)
    requires head < |slots| && tail < |slots| && |chunk| < |slots| - |Slots(slots, tail, head)|
    requires head + |chunk| > |slots|
    ensures var toEnd := |slots| - head;
            Slots(Overwritten(Overwritten(slots, head, chunk[..toEnd]), 0, chunk[toEnd..]), tail, |chunk| - toEnd)
            == Slots(slots, tail, head) + chunk
  {
    var toEnd := |slots| - head;
    var once := Overwritten(slots, head, chunk[..toEnd]);
    var after := Overwritten(once, 0, chunk[toEnd..]);
    assert tail <= head;
    assert once[tail..] == slots[tail..head] + chunk[..toEnd];
    assert after[tail..] == once[tail..];
    assert after[..|chunk| - toEnd] == chunk[toEnd..];
    assert chunk == chunk[..toEnd] + chunk[toEnd..];
    AppendAll(slots[tail..head], chunk[..toEnd], chunk[toEnd..]);
  }

  /** Two copies that fill the target. */
  lemma FilledOnce<T>(target: seq<T>, part: seq<T>)
    requires |target| == |part|
    ensures Overwritten(target, 0, part) == part
  {
  }

  lemma FilledTwice<T>(target: seq<T>, a: seq<T>, b: seq<T>)
    requires |target| == |a| + |b|
    ensures Overwritten(Overwritten(target, 0, a), |a|, b) == a + b
  {
  }

  class ChunkedRingBuffer<T(0)> {
    // One slot stays unused, so that head == tail means empty.
    const data: array<T>
    var head: nat
    var tail: nat

    ghost predicate Valid()
      reads this
    {
      0 < data.Length && head < data.Length && tail < data.Length
    }

    /** The queued elements, the next one to pop first. */
    ghost function Contents(): (c: seq<T>)
      requires Valid()
      reads this, data
      ensures |c| == Size()
    {
      Slots(data[..], tail, head)
    }

    /** The deque's view of the same elements, from front() to back(). */
    ghost function FrontToBack(): (c: seq<T>)
      requires Valid()
      reads this, data
      ensures |c| == Size()
    {
      Reverse(Contents())
    }

    constructor (capacity: nat)
      ensures Valid() && fresh(data) && Capacity() == capacity
      ensures Contents() == [] && FrontToBack() == []
    {
      data := new T[capacity + 1];
      head, tail := 0, 0;
    }

    function Capacity(): nat
      requires Valid()
      reads this
    {
      data.Length - 1
    }

    function Size(): nat
      requires Valid()
      reads this
    {
      if head >= tail then head - tail else data.Length - (tail - head)
    }

    function AvailableSize(): nat
      requires Valid()
      reads this
    {
      Capacity() - Size()
    }

    predicate Empty()
      requires Valid()
      reads this
      ensures Empty() <==> Size() == 0
    {
      head == tail
    }

    predicate Full()
      requires Valid()
      reads this
    {
      Size() == Capacity()
    }

    method Push(x: T)
      requires Valid() && !Full()
      modifies this, data
      ensures Valid()
      ensures Contents() == old(Contents()) + [x]
      ensures FrontToBack() == [x] + old(FrontToBack())
    {
      hide Slots, Reverse;
      ghost var slots := data[..];
      HeadGrows(slots, tail, head, x);
      ReverseEnds(Contents(), x);
      var newHead := head + 1;
      if newHead == data.Length {
        newHead := 0;
      }
      data[head] := x;
      assert data[..] == slots[head := x];
      head := newHead;
    }

    method Pop() returns (x: T)
      requires Valid() && !Empty()
      modifies this
      ensures Valid()
      ensures old(Contents()) == [x] + Contents()
      ensures FrontToBack() == old(FrontToBack())[..old(Size()) - 1]
    {
      hide Slots, Reverse;
      TailGivesUp(data[..], tail, head);
      ReverseWithoutEnds(Contents());
      var newTail := tail + 1;
      x := data[tail];
      tail := if newTail == data.Length then 0 else newTail;
    }

    method Peek() returns (x: T)
      requires Valid() && !Empty()
      ensures x == Contents()[0]
    {
      hide Slots, Reverse;
      TailGivesUp(data[..], tail, head);
      x := data[tail];
    }

    method Drop()
      requires Valid() && !Empty()
      modifies this
      ensures Valid()
      ensures Contents() == old(Contents())[1..]
      ensures FrontToBack() == old(FrontToBack())[..old(Size()) - 1]
    {
      hide Slots, Reverse;
      TailGivesUp(data[..], tail, head);
      ReverseWithoutEnds(Contents());
      var newTail := tail + 1;
      tail := if newTail >= data.Length then 0 else newTail;
    }

    /** The copy loop: overwrites the slots from `at` on. */
    method WriteSlots(at: nat, chunk: seq<T>)
      requires at + |chunk| <= data.Length
      modifies data
      ensures data[..] == Overwritten(old(data[..]), at, chunk)
    {
      for i := 0 to |chunk|
        invariant data[..at] == old(data[..at])
        invariant data[at..at + i] == chunk[..i]
        invariant data[at + i..] == old(data[at + i..])
      {
        data[at + i] := chunk[i];
      }
    }

    /** The copy loop in the other direction: reads `count` slots from `at` on. */
    method ReadSlots(at: nat, count: nat, target: array<T>, offset: nat)
      requires at + count <= data.Length && offset + count <= target.Length && target != data
      modifies target
      ensures target[..] == Overwritten(old(target[..]), offset, data[at..at + count])
    {
      for i := 0 to count
        invariant target[..offset] == old(target[..offset])
        invariant target[offset..offset + i] == data[at..at + i]
        invariant target[offset + i..] == old(target[offset + i..])
      {
        target[offset + i] := data[at + i];
      }
    }

    /** Appends a chunk in at most two contiguous copies: the same as pushing it element by
        element. */
    method FillFrom(chunk: seq<T>)
      requires Valid() && |chunk| <= AvailableSize()
      modifies this, data
      ensures Valid()
      ensures Contents() == old(Contents()) + chunk
    {
      hide Slots, Reverse, Overwritten;
      ghost var before := data[..];
      var end := data.Length;
      var newHead := head + |chunk|;
      if newHead <= end {
        AppendedInPlace(before, tail, head, chunk);
        WriteSlots(head, chunk);
        head := if newHead == end then 0 else newHead;
      } else {
        var toEnd := end - head;
        AppendedAround(before, tail, head, chunk);
        WriteSlots(head, chunk[..toEnd]);
        WriteSlots(0, chunk[toEnd..]);
        head := |chunk| - toEnd;
      }
    }

    /** Takes a chunk in at most two contiguous copies: the same as popping it element by
        element. */
    method DrainTo(target: array<T>)
      requires Valid() && target.Length <= Size() && target != data
      modifies this, target
      ensures Valid()
      ensures old(Contents()) == target[..] + Contents()
    {
      hide Slots, Reverse, Overwritten;
      var count, end := target.Length, data.Length;
      ghost var slots, before := data[..], target[..];
      AdvancedTail(slots, tail, head, count);
      var newTail := tail + count;
      if newTail <= end {
        FilledOnce(before, slots[tail..newTail]);
        ReadSlots(tail, count, target, 0);
        tail := if newTail == end then 0 else newTail;
      } else {
        var fromEnd := end - tail;
        assert data[tail..tail + fromEnd] == slots[tail..] && data[0..count - fromEnd] == slots[..count - fromEnd];
        FilledTwice(before, slots[tail..], slots[..count - fromEnd]);
        ReadSlots(tail, fromEnd, target, 0);
        ReadSlots(0, count - fromEnd, target, fromEnd);
        tail := count - fromEnd;
      }
    }

    // ----- FixedSizeDeque: back() is the tail side, front() the head side

    method Back() returns (x: T)
      requires Valid() && !Empty()
      ensures x == FrontToBack()[Size() - 1]
    {
      x := Peek();
    }

    /** Assignment through the reference that back() returns. */
    method AssignBack(x: T)
      requires Valid() && !Empty()
      modifies data
      ensures Valid()
      ensures FrontToBack() == old(FrontToBack())[..Size() - 1] + [x]
    {
      hide Slots, Reverse;
      ghost var slots := data[..];
      TailGivesUp(slots, tail, head);
      TailGrows(slots, tail, head, x);
      ReverseEnds(Slots(slots, NextSlot(tail, |slots|), head), x);
      ReverseEnds(Slots(slots, NextSlot(tail, |slots|), head), slots[tail]);
      data[tail] := x;
      assert data[..] == slots[tail := x];
    }

    method PopBack()
      requires Valid() && !Empty()
      modifies this
      ensures Valid()
      ensures FrontToBack() == old(FrontToBack())[..old(Size()) - 1]
    {
      Drop();
    }

    method PushBack(x: T)
      requires Valid() && !Full()
      modifies this, data
      ensures Valid()
      ensures FrontToBack() == old(FrontToBack()) + [x]
    {
      hide Slots, Reverse;
      ghost var slots := data[..];
      ReverseEnds(Contents(), x);
      var newTail := (if tail == 0 then data.Length else tail) - 1;
      TailGrows(slots, newTail, head, x);
      data[newTail] := x;
      assert data[..] == slots[newTail := x];
      tail := newTail;
    }

    method Front() returns (x: T)
      requires Valid() && !Empty()
      ensures x == FrontToBack()[0]
    {
      hide Slots, Reverse;
      var wrappedHead := if head == 0 then data.Length else head;
      HeadGivesUp(data[..], tail, wrappedHead - 1);
      ReverseEnds(Slots(data[..], tail, wrappedHead - 1), data[wrappedHead - 1]);
      x := data[wrappedHead - 1];
    }

    method PopFront()
      requires Valid() && !Empty()
      modifies this
      ensures Valid()
      ensures FrontToBack() == old(FrontToBack())[1..]
    {
      hide Slots, Reverse;
      ReverseWithoutEnds(Contents());
      var newHead := (if head == 0 then data.Length else head) - 1;
      HeadGivesUp(data[..], tail, newHead);
      head := newHead;
    }

    method PushFront(x: T)
      requires Valid() && !Full()
      modifies this, data
      ensures Valid()
      ensures FrontToBack() == [x] + old(FrontToBack())
    {
      Push(x);
    }
  }

  /** Specification-level drivers: a queue fed one element at a time. */
  function PushAll<T>(queue: seq<T>, chunk: seq<T>): seq<T>
    decreases |chunk|
  {
    if chunk == [] then queue else PushAll(queue + [chunk[0]], chunk[1..])
  }

  /** Pops count elements one by one: what came out, and the queue that is left. */
  function PopAll<T>(queue: seq<T>, count: nat): (r: (seq<T>, seq<T>))
    requires count <= |queue|
    decreases count
  {
    if count == 0 then ([], queue)
    else
      var (popped, left) := PopAll(queue[1..], count - 1);
      ([queue[0]] + popped, left)
  }

  /** What repeated pushes queue is what one FillFrom queues. */
  lemma {:induction false} FillFromIsRepeatedPush<T>(queue: seq<T>, chunk: seq<T>)
    ensures PushAll(queue, chunk) == queue + chunk
    decreases |chunk|
  {
    if chunk == [] {
      assert queue + chunk == queue;
    } else {
      FillFromIsRepeatedPush(queue + [chunk[0]], chunk[1..]);
      assert queue + [chunk[0]] + chunk[1..] == queue + chunk;
    }
  }

  /** What repeated pops take out and leave is what one DrainTo takes out and leaves. */
  lemma {:induction false} DrainToIsRepeatedPop<T>(queue: seq<T>, drained: seq<T>, left: seq<T>)
    requires queue == drained + left
    ensures PopAll(queue, |drained|) == (drained, left)
    decreases |drained|
  {
    if drained == [] {
      assert queue == left;
    } else {
      assert queue[1..] == drained[1..] + left;
      DrainToIsRepeatedPop(queue[1..], drained[1..], left);
      assert [queue[0]] + drained[1..] == drained;
    }
  }

  /** A new buffer takes exactly as many elements as its capacity says: it is full behind the last
      and not before. */
  method FillUp<T(0)>(values: seq<T>) returns (buffer: ChunkedRingBuffer<T>)
    ensures fresh(buffer) && buffer.Valid() && buffer.Contents() == values
    ensures buffer.Capacity() == |values| && buffer.AvailableSize() == 0 && buffer.Full()
  {
    hide Slots, Reverse;
    buffer := new ChunkedRingBuffer(|values|);
    for i := 0 to |values|
      invariant fresh(buffer) && fresh(buffer.data) && buffer.Valid() && buffer.Capacity() == |values|
      invariant buffer.Contents() == values[..i]
      invariant buffer.AvailableSize() == |values| - i && (buffer.Full() <==> i == |values|)
    {
      PrefixGrows([], values, i);
      buffer.Push(values[i]);
    }
    assert values[..|values|] == values;
  }

  /** Two buffers with the same contents, wherever their pointers stand: one takes a chunk at once,
      the other element by element, and the contents stay the same. */
  method FillAgainstPushes<T(0)>(filled: ChunkedRingBuffer<T>, pushed: ChunkedRingBuffer<T>, chunk: seq<T>)
    requires filled.Valid() && pushed.Valid() && filled != pushed && filled.data != pushed.data
    requires filled.Contents() == pushed.Contents()
    requires |chunk| <= filled.AvailableSize() && |chunk| <= pushed.AvailableSize()
    modifies filled, filled.data, pushed, pushed.data
    ensures filled.Valid() && pushed.Valid()
    ensures filled.Contents() == pushed.Contents() == PushAll(old(pushed.Contents()), chunk)
  {
    hide Slots, Reverse, PushAll;
    FillFromIsRepeatedPush(pushed.Contents(), chunk);
    filled.FillFrom(chunk);
    for i := 0 to |chunk|
      invariant filled.Valid() && pushed.Valid()
      invariant filled.Contents() == old(filled.Contents()) + chunk
      invariant pushed.Contents() == old(pushed.Contents()) + chunk[..i]
    {
      PrefixGrows(old(pushed.Contents()), chunk, i);
      pushed.Push(chunk[i]);
    }
    assert chunk[..|chunk|] == chunk;
  }

  /** The same for taking a chunk out. */
  method DrainAgainstPops<T(0)>(drained: ChunkedRingBuffer<T>, popped: ChunkedRingBuffer<T>, target: array<T>)
    returns (values: seq<T>)
    requires drained.Valid() && popped.Valid() && drained != popped && drained.data != popped.data
    requires drained.Contents() == popped.Contents()
    requires target.Length <= drained.Size() && target != drained.data && target != popped.data
    modifies drained, popped, target
    ensures drained.Valid() && popped.Valid()
    ensures target[..] == values && drained.Contents() == popped.Contents()
    ensures PopAll(old(popped.Contents()), target.Length) == (values, popped.Contents())
  {
    hide Slots, Reverse, PopAll;
    drained.DrainTo(target);
    values := [];
    for i := 0 to target.Length
      invariant drained.Valid() && popped.Valid() && |values| == i
      invariant old(drained.Contents()) == target[..] + drained.Contents()
      invariant old(popped.Contents()) == values + popped.Contents()
    {
      ghost var before := popped.Contents();
      var x := popped.Pop();
      AppendAll(values, [x], popped.Contents());
      values := values + [x];
    }
    SameSplit(target[..], drained.Contents(), values, popped.Contents());
    DrainToIsRepeatedPop(old(popped.Contents()), values, popped.Contents());
  }

  lemma PrefixGrows<T>(start: seq<T>, chunk: seq<T>, i: nat)
    requires i < |chunk|
    ensures start + chunk[..i + 1] == start + chunk[..i] + [chunk[i]]
  {
  }

  lemma SameSplit<T>(a: seq<T>, b: seq<T>, c: seq<T>, d: seq<T>)
    requires a + b == c + d && |a| == |c|
    ensures a == c && b == d
  {
    assert a == (a + b)[..|a|] && c == (c + d)[..|c|];
    assert b == (a + b)[|a|..] && d == (c + d)[|c|..];
  }
}
