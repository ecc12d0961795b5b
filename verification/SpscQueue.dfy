/** `ChunkedRingBuffer` as the single-producer, single-consumer queue that it is documented to be
    (container/ringbuffer.hpp:12-133, 159-168).

    A thread runs fillFrom or drainTo as one step per slot and a last step that publishes its
    pointer; push and pop are the case of one element. Steps of the two threads interleave in
    any order. Before an operation a thread has compared its own pointer with the other
    thread's; by the time of the operation that comparison may be stale. */
module SpscQueue {
  import opened DivMod
  import opened RingBuffer
  import opened Sequences

  datatype Fill<T> = NoFill | Filling(data: seq<T>, written: nat)

  datatype Drain<T> = NoDrain | Draining(count: nat, taken: seq<T>)

  /** An access to a slot. */
  datatype Access<T> = Wrote(slot: nat, value: T) | Fetched(slot: nat, value: T)

  /** room and available are what the last checks left to use; log lists all slot accesses. */
  datatype Queue<T> = Queue(
    slots: seq<T>, head: nat, tail: nat,
    room: nat, fill: Fill<T>,
    available: nat, drain: Drain<T>,
    log: seq<Access<T>>)

  datatype Step<T> =
    | CheckRoom
    | BeginFill(data: seq<T>)
    | WriteSlot
    | PublishHead
    | CheckSize
    | BeginDrain(count: nat)
    | FetchSlot
    | PublishTail

  /** `size` with the pointers that a thread sees. */
  function Size(head: nat, tail: nat, slotCount: nat): int {
    if head >= tail then head - tail else slotCount - (tail - head)
  }

  /** Where the copy loops of an operation on `count` elements access element i. */
  function SlotAt(pointer: nat, count: nat, slotCount: nat, i: nat): int {
    if pointer + count <= slotCount then
      pointer + i
    else if i < slotCount - pointer then
      pointer + i
    else
      i - (slotCount - pointer)
  }

  /** Where an operation on `count` elements leaves its pointer. */
  function Advanced(pointer: nat, count: nat, slotCount: nat): int {
    if pointer + count <= slotCount then
      if pointer + count == slotCount then 0 else pointer + count
    else
      count - (slotCount - pointer)
  }

  ghost predicate Start<T>(q: Queue<T>) {
    && 0 < |q.slots|
    && q.head == q.tail == q.room == q.available == 0
    && q.fill == NoFill && q.drain == NoDrain && q.log == []
  }

  predicate Enabled<T(==)>(q: Queue<T>, step: Step<T>) {
    match step
    case CheckRoom => q.fill == NoFill
    case BeginFill(data) => q.fill == NoFill && |data| <= q.room
    case WriteSlot => q.fill.Filling? && q.fill.written < |q.fill.data|
    case PublishHead => q.fill.Filling? && q.fill.written == |q.fill.data|
    case CheckSize => q.drain == NoDrain
    case BeginDrain(count) => q.drain == NoDrain && count <= q.available
    case FetchSlot => q.drain.Draining? && |q.drain.taken| < q.drain.count
    case PublishTail => q.drain.Draining? && |q.drain.taken| == q.drain.count
  }

  /** One step between two states. Slot accesses must hit an existing slot. */
  ghost predicate Next<T>(q: Queue<T>, step: Step<T>, q': Queue<T>) {
    var n := |q.slots|;
    && Enabled(q, step)
    && match step
       case CheckRoom => Size(q.head, q.tail, n) < n && q' == q.(room := n - 1 - Size(q.head, q.tail, n))
       case BeginFill(data) => q' == q.(fill := Filling(data, 0))
       case WriteSlot =>
         var (slot, x) := (SlotAt(q.head, |q.fill.data|, n, q.fill.written), q.fill.data[q.fill.written]);
         && 0 <= slot < n
         && q' == q.(slots := q.slots[slot := x],
                     fill := Filling(q.fill.data, q.fill.written + 1),
                     log := q.log + [Wrote(slot, x)])
       case PublishHead =>
         var count := |q.fill.data|;
         && 0 <= Advanced(q.head, count, n) && count <= q.room
         && q' == q.(head := Advanced(q.head, count, n), room := q.room - count, fill := NoFill)
       case CheckSize => 0 <= Size(q.head, q.tail, n) && q' == q.(available := Size(q.head, q.tail, n))
       case BeginDrain(count) => q' == q.(drain := Draining(count, []))
       case FetchSlot =>
         var slot := SlotAt(q.tail, q.drain.count, n, |q.drain.taken|);
         && 0 <= slot < n
         && q' == q.(drain := Draining(q.drain.count, q.drain.taken + [q.slots[slot]]),
                     log := q.log + [Fetched(slot, q.slots[slot])])
       case PublishTail =>
         var count := q.drain.count;
         && 0 <= Advanced(q.tail, count, n) && count <= q.available
         && q' == q.(tail := Advanced(q.tail, count, n), available := q.available - count, drain := NoDrain)
  }

  /** The values written so far, and the values taken so far. */
  ghost function Produced<T>(log: seq<Access<T>>): seq<T> {
    if log == [] then [] else
      Produced(DropLast(log)) + if Last(log).Wrote? then [Last(log).value] else []
  }

  ghost function Consumed<T>(log: seq<Access<T>>): seq<T> {
    if log == [] then [] else
      Consumed(DropLast(log)) + if Last(log).Fetched? then [Last(log).value] else []
  }

  datatype Touched<T> = Untouched | Touched(access: Access<T>)

  /** The last access to a slot. */
  ghost function LastAccess<T>(log: seq<Access<T>>, slot: nat): Touched<T> {
    if log == [] then Untouched
    else if Last(log).slot == slot then Touched(Last(log))
    else LastAccess(DropLast(log), slot)
  }

  /** A slot is read only right after it was written, which gives the value, and is written
      only when untouched or right after it was read. */
  ghost predicate MayAccess<T>(before: seq<Access<T>>, a: Access<T>) {
    var last := LastAccess(before, a.slot);
    if a.Wrote? then last == Untouched || last.access.Fetched? else last == Touched(Wrote(a.slot, a.value))
  }

  ghost predicate Alternates<T>(log: seq<Access<T>>) {
    log == [] || (Alternates(DropLast(log)) && MayAccess(DropLast(log), Last(log)))
  }

  /** Elements whose head pointer has been published. */
  ghost function PublishedCount<T>(q: Queue<T>): int {
    |Produced(q.log)| - if q.fill.Filling? then q.fill.written else 0
  }

  /** Elements whose slots have been given back. */
  ghost function ReleasedCount<T>(q: Queue<T>): int {
    |Consumed(q.log)| - if q.drain.Draining? then |q.drain.taken| else 0
  }

  /** Slot of the k-th element. */
  ghost function Place(k: int, n: nat): int
    requires 0 < n
  {
    k % n
  }

  ghost predicate CountsFit<T>(q: Queue<T>) {
    var (n, produced, consumed) := (|q.slots|, |Produced(q.log)|, |Consumed(q.log)|);
    var (published, released) := (PublishedCount(q), ReleasedCount(q));
    && 0 < n
    && 0 <= released <= consumed <= published <= produced <= released + n - 1
    && q.head == Place(published, n) && q.tail == Place(released, n)
    && published + q.room <= released + n - 1
    && released + q.available <= published
    && (q.fill.Filling? ==> q.fill.written <= |q.fill.data| <= q.room)
    && (q.drain.Draining? ==> |q.drain.taken| <= q.drain.count <= q.available)
  }

  ghost predicate ValuesFit<T>(q: Queue<T>)
    requires CountsFit(q)
  {
    var (produced, consumed) := (Produced(q.log), Consumed(q.log));
    && consumed <= produced
    && (q.fill.Filling? ==> produced[PublishedCount(q)..] == q.fill.data[..q.fill.written])
    && (q.drain.Draining? ==> consumed[ReleasedCount(q)..] == q.drain.taken)
  }

  /** The slots not given back hold their values. */
  ghost predicate HoldsFrom<T>(slots: seq<T>, produced: seq<T>, released: int)
    requires 0 < |slots|
  {
    forall k :: 0 <= k < |produced| && released <= k ==> slots[Place(k, |slots|)] == produced[k]
  }

  /** The last access to a slot is a write exactly if the value written there still waits. */
  ghost predicate WaitingFrom<T>(log: seq<Access<T>>, produced: seq<T>, consumed: nat, n: nat)
    requires 0 < n
  {
    && (forall k :: consumed <= k < |produced| ==>
          LastAccess(log, Place(k, n)) == Touched(Wrote(Place(k, n), produced[k])))
    && (forall slot :: 0 <= slot < n && LastAccess(log, slot).Touched? && LastAccess(log, slot).access.Wrote? ==>
          exists k :: consumed <= k < |produced| && Place(k, n) == slot)
  }

  ghost predicate SlotsFit<T>(slots: seq<T>, log: seq<Access<T>>, released: int)
    requires 0 < |slots|
  {
    && HoldsFrom(slots, Produced(log), released)
    && WaitingFrom(log, Produced(log), |Consumed(log)|, |slots|)
  }

  ghost predicate Inv<T>(q: Queue<T>) {
    CountsFit(q) && ValuesFit(q) && SlotsFit(q.slots, q.log, ReleasedCount(q)) && Alternates(q.log)
  }

  /** Elements less than a lap apart have different slots. */
  lemma PlacesDiffer(j: int, k: int, n: nat)
    requires 0 < n && j < k < j + n
    ensures Place(j, n) != Place(k, n)
  {
    PlaceShifts(j, k - j, n);
  }

  lemma PlaceShifts(position: int, i: nat, n: nat)
    requires 0 < n && i < n
    ensures Place(position + i, n)
         == if Place(position, n) + i < n then Place(position, n) + i else Place(position, n) + i - n
  {
    var turns := position / n;
    assert position == turns * n + position % n;
    var sum := position % n + i;
    if sum < n {
      QuotientIs(position + i, turns, sum, n);
    } else {
      assert (turns + 1) * n == turns * n + n;
      QuotientIs(position + i, turns + 1, sum - n, n);
    }
  }

  /** The pointer arithmetic of the operations stays on the ring. */
  lemma PointerIsPlace(position: int, i: nat, count: nat, n: nat)
    requires 0 < n && 0 <= position && count < n && i <= count
    ensures i < count ==> SlotAt(Place(position, n), count, n, i) == Place(position + i, n)
    ensures i == count ==> Advanced(Place(position, n), count, n) == Place(position + i, n)
    ensures 0 <= Place(position + i, n) < n
  {
    PlaceShifts(position, i, n);
  }

  /** `size` is exact for pointers read at one moment. */
  lemma SizeIsDifference(published: int, released: int, n: nat)
    requires 0 < n && 0 <= released <= published < released + n
    ensures Size(Place(published, n), Place(released, n), n) == published - released
  {
    PlaceShifts(released, published - released, n);
  }

  lemma {:induction false} StartIsFine<T>(q: Queue<T>)
    requires Start(q)
    ensures Inv(q)
  {
  }

  // Invariance, step by step.

  lemma CheckRoomKeepsInv<T>(q: Queue<T>) returns (q': Queue<T>)
    requires Inv(q) && Enabled(q, CheckRoom)
    ensures Next(q, CheckRoom, q') && Inv(q')
    ensures q'.room == |q.slots| - 1 - (PublishedCount(q) - ReleasedCount(q))
  {
    hide SlotsFit, Alternates, Place, Produced, Consumed;
    var n := |q.slots|;
    SizeIsDifference(PublishedCount(q), ReleasedCount(q), n);
    q' := q.(room := n - 1 - Size(q.head, q.tail, n));
  }

  lemma CheckSizeKeepsInv<T>(q: Queue<T>) returns (q': Queue<T>)
    requires Inv(q) && Enabled(q, CheckSize)
    ensures Next(q, CheckSize, q') && Inv(q')
    ensures q'.available == PublishedCount(q) - ReleasedCount(q)
  {
    hide SlotsFit, Alternates, Place, Produced, Consumed;
    var n := |q.slots|;
    SizeIsDifference(PublishedCount(q), ReleasedCount(q), n);
    q' := q.(available := Size(q.head, q.tail, n));
  }

  lemma BeginFillKeepsInv<T>(q: Queue<T>, data: seq<T>) returns (q': Queue<T>)
    requires Inv(q) && Enabled(q, BeginFill(data))
    ensures Next(q, BeginFill(data), q') && Inv(q')
  {
    hide SlotsFit, Alternates, Place, Produced, Consumed;
    q' := q.(fill := Filling(data, 0));
  }

  lemma BeginDrainKeepsInv<T>(q: Queue<T>, count: nat) returns (q': Queue<T>)
    requires Inv(q) && Enabled(q, BeginDrain(count))
    ensures Next(q, BeginDrain(count), q') && Inv(q')
  {
    hide SlotsFit, Alternates, Place, Produced, Consumed;
    q' := q.(drain := Draining(count, []));
  }

  lemma PublishHeadKeepsInv<T>(q: Queue<T>) returns (q': Queue<T>)
    requires Inv(q) && Enabled(q, PublishHead)
    ensures Next(q, PublishHead, q') && Inv(q')
  {
    hide SlotsFit, Alternates, Place, Produced, Consumed;
    var n, count := |q.slots|, |q.fill.data|;
    PointerIsPlace(PublishedCount(q), count, count, n);
    q' := q.(head := Advanced(q.head, count, n), room := q.room - count, fill := NoFill);
  }

  lemma ReleasingKeepsSlots<T>(slots: seq<T>, log: seq<Access<T>>, before: int, after: int)
    requires 0 < |slots| && SlotsFit(slots, log, before) && before <= after
    ensures SlotsFit(slots, log, after)
  {
  }

  lemma PublishTailKeepsInv<T>(q: Queue<T>) returns (q': Queue<T>)
    requires Inv(q) && Enabled(q, PublishTail)
    ensures Next(q, PublishTail, q') && Inv(q')
  {
    hide SlotsFit, Alternates, Place, Produced, Consumed;
    ReleasingKeepsSlots(q.slots, q.log, ReleasedCount(q), |Consumed(q.log)|);
    var n, count := |q.slots|, q.drain.count;
    PointerIsPlace(ReleasedCount(q), count, count, n);
    q' := q.(tail := Advanced(q.tail, count, n), available := q.available - count, drain := NoDrain);
  }

  lemma LogGrows<T>(log: seq<Access<T>>, a: Access<T>)
    ensures Produced(log + [a]) == Produced(log) + (if a.Wrote? then [a.value] else [])
    ensures Consumed(log + [a]) == Consumed(log) + (if a.Fetched? then [a.value] else [])
    ensures forall slot :: LastAccess(log + [a], slot) == if slot == a.slot then Touched(a) else LastAccess(log, slot)
    ensures Alternates(log + [a]) == (Alternates(log) && MayAccess(log, a))
  {
    assert DropLast(log + [a]) == log && Last(log + [a]) == a;
  }

  lemma WriteKeepsSlots<T>(slots: seq<T>, log: seq<Access<T>>, released: nat, slot: nat, x: T)
    requires 0 < |slots| && SlotsFit(slots, log, released)
    requires released <= |Consumed(log)| <= |Produced(log)| < released + |slots|
    requires slot == Place(|Produced(log)|, |slots|)
    ensures SlotsFit(slots[slot := x], log + [Wrote(slot, x)], released) && MayAccess(log, Wrote(slot, x))
  {
    var n, produced, consumed, log' := |slots|, |Produced(log)|, |Consumed(log)|, log + [Wrote(slot, x)];
    LogGrows(log, Wrote(slot, x));
    forall k | released <= k < produced ensures Place(k, n) != slot {
      PlacesDiffer(k, produced, n);
    }
    forall other | 0 <= other < n && LastAccess(log', other).Touched? && LastAccess(log', other).access.Wrote?
      ensures exists k :: consumed <= k < |Produced(log')| && Place(k, n) == other
    {
      if other == slot {
        assert Place(produced, n) == other;
      } else {
        var k :| consumed <= k < produced && Place(k, n) == other;
      }
    }
  }

  lemma TakeOneMore<T>(s: seq<T>, from: nat, data: seq<T>, count: nat)
    requires from <= |s| && count < |data| && s[from..] == data[..count]
    ensures (s + [data[count]])[from..] == data[..count + 1]
  {
  }

  lemma WriteSlotKeepsInv<T>(q: Queue<T>) returns (q': Queue<T>)
    requires Inv(q) && Enabled(q, WriteSlot)
    ensures Next(q, WriteSlot, q') && Inv(q')
  {
    hide SlotsFit, Alternates, MayAccess, Place, Produced, Consumed;
    var n, written := |q.slots|, q.fill.written;
    var slot, x := SlotAt(q.head, |q.fill.data|, n, written), q.fill.data[written];
    PointerIsPlace(PublishedCount(q), written, |q.fill.data|, n);
    q' := q.(slots := q.slots[slot := x],
             fill := Filling(q.fill.data, written + 1),
             log := q.log + [Wrote(slot, x)]);
    LogGrows(q.log, Wrote(slot, x));
    TakeOneMore(Produced(q.log), PublishedCount(q), q.fill.data, written);
    WriteKeepsSlots(q.slots, q.log, ReleasedCount(q), slot, x);
  }

  lemma FetchKeepsSlots<T>(slots: seq<T>, log: seq<Access<T>>, released: nat, slot: nat)
    requires 0 < |slots| && SlotsFit(slots, log, released)
    requires released <= |Consumed(log)| < |Produced(log)| < released + |slots|
    requires slot == Place(|Consumed(log)|, |slots|)
    ensures slots[slot] == Produced(log)[|Consumed(log)|]
    ensures SlotsFit(slots, log + [Fetched(slot, slots[slot])], released) && MayAccess(log, Fetched(slot, slots[slot]))
  {
    var n, produced, consumed := |slots|, |Produced(log)|, |Consumed(log)|;
    var log' := log + [Fetched(slot, slots[slot])];
    LogGrows(log, Fetched(slot, slots[slot]));
    forall k | consumed < k < produced ensures Place(k, n) != slot {
      PlacesDiffer(consumed, k, n);
    }
    forall other | 0 <= other < n && LastAccess(log', other).Touched? && LastAccess(log', other).access.Wrote?
      ensures exists k :: consumed + 1 <= k < produced && Place(k, n) == other
    {
      var k :| consumed <= k < produced && Place(k, n) == other;
    }
  }

  lemma FetchSlotKeepsInv<T>(q: Queue<T>) returns (q': Queue<T>)
    requires Inv(q) && Enabled(q, FetchSlot)
    ensures Next(q, FetchSlot, q') && Inv(q')
  {
    hide SlotsFit, Alternates, MayAccess, Place, Produced, Consumed;
    var n := |q.slots|;
    var slot := SlotAt(q.tail, q.drain.count, n, |q.drain.taken|);
    PointerIsPlace(ReleasedCount(q), |q.drain.taken|, q.drain.count, n);
    var x := q.slots[slot];
    q' := q.(drain := Draining(q.drain.count, q.drain.taken + [x]), log := q.log + [Fetched(slot, x)]);
    LogGrows(q.log, Fetched(slot, x));
    FetchKeepsSlots(q.slots, q.log, ReleasedCount(q), slot);
  }

  /** Whatever step comes next, it touches only existing slots and keeps the invariant. */
  lemma EveryStepKeepsInv<T>(q: Queue<T>, step: Step<T>) returns (q': Queue<T>)
    requires Inv(q) && Enabled(q, step)
    ensures Next(q, step, q') && Inv(q')
  {
    hide Inv, CountsFit;
    match step
    case CheckRoom => q' := CheckRoomKeepsInv(q);
    case BeginFill(data) => q' := BeginFillKeepsInv(q, data);
    case WriteSlot => q' := WriteSlotKeepsInv(q);
    case PublishHead => q' := PublishHeadKeepsInv(q);
    case CheckSize => q' := CheckSizeKeepsInv(q);
    case BeginDrain(count) => q' := BeginDrainKeepsInv(q, count);
    case FetchSlot => q' := FetchSlotKeepsInv(q);
    case PublishTail => q' := PublishTailKeepsInv(q);
  }

  lemma NextIsUnique<T>(q: Queue<T>, step: Step<T>, a: Queue<T>, b: Queue<T>)
    requires Next(q, step, a) && Next(q, step, b)
    ensures a == b
  {
  }

  /** An interleaving: the states of a run from an empty queue. */
  ghost predicate Run<T>(states: seq<Queue<T>>, steps: seq<Step<T>>) {
    && |states| == |steps| + 1
    && Start(states[0])
    && forall i :: 0 <= i < |steps| ==> Next(states[i], steps[i], states[i + 1])
  }

  lemma {:induction false} RunKeepsInv<T>(states: seq<Queue<T>>, steps: seq<Step<T>>, i: nat)
    requires Run(states, steps) && i < |states|
    ensures Inv(states[i])
  {
    hide Inv, Next, Start;
    if i == 0 {
      StartIsFine(states[0]);
    } else {
      RunKeepsInv(states, steps, i - 1);
      var q, step := states[i - 1], steps[i - 1];
      assert Next(q, step, states[i]);
      NextIsEnabled(q, step, states[i]);
      var q' := EveryStepKeepsInv(q, step);
      NextIsUnique(q, step, q', states[i]);
    }
  }

  lemma NextIsEnabled<T>(q: Queue<T>, step: Step<T>, q': Queue<T>)
    requires Next(q, step, q')
    ensures Enabled(q, step)
  {
  }

  /** In every interleaving the values consumed are a prefix of the values produced, no slot is
      read before it is written or overwritten before it is read, and no step that a thread
      wants to take is stuck. */
  lemma RunIsFirstInFirstOut<T>(states: seq<Queue<T>>, steps: seq<Step<T>>, i: nat)
    requires Run(states, steps) && i < |states|
    ensures var q := states[i];
      && Consumed(q.log) <= Produced(q.log)
      && Alternates(q.log)
      && (forall step :: Enabled(q, step) ==> exists q' :: Next(q, step, q'))
  {
    RunKeepsInv(states, steps, i);
    var q := states[i];
    forall step | Enabled(q, step) ensures exists q' :: Next(q, step, q') {
      var q' := EveryStepKeepsInv(q, step);
    }
  }

  /** The elements between the published pointers, oldest first. */
  ghost function Queued<T>(q: Queue<T>): seq<T>
    requires Inv(q)
  {
    Produced(q.log)[ReleasedCount(q)..PublishedCount(q)]
  }

  lemma SlotsByPlace<T>(slots: seq<T>, tail: nat, head: nat)
    requires head < |slots| && tail < |slots|
    ensures |Slots(slots, tail, head)| == Size(head, tail, |slots|)
    ensures forall k :: 0 <= k < |Slots(slots, tail, head)| ==>
              Slots(slots, tail, head)[k] == slots[if tail + k < |slots| then tail + k else tail + k - |slots|]
  {
  }

  lemma WaitingSlot<T>(slots: seq<T>, log: seq<Access<T>>, released: nat, k: nat)
    requires 0 < |slots| && SlotsFit(slots, log, released) && released <= k < |Produced(log)|
    ensures slots[Place(k, |slots|)] == Produced(log)[k]
  {
  }

  /** The array slots between the two pointers hold exactly the queued elements. */
  lemma QueuedIsSlots<T>(q: Queue<T>)
    requires Inv(q)
    ensures Slots(q.slots, q.tail, q.head) == Queued(q)
  {
    hide Slots, SlotsFit, Alternates, Produced, Consumed, Place;
    var n, released, queued := |q.slots|, ReleasedCount(q), Queued(q);
    PointerIsPlace(PublishedCount(q), 0, 0, n);
    PointerIsPlace(released, 0, 0, n);
    SlotsByPlace(q.slots, q.tail, q.head);
    SizeIsDifference(PublishedCount(q), released, n);
    forall k | 0 <= k < |queued| ensures Slots(q.slots, q.tail, q.head)[k] == queued[k] {
      PlaceShifts(released, k, n);
      WaitingSlot(q.slots, q.log, released, released + k);
    }
  }

  lemma CheckIsAtomic<T>(q: Queue<T>, step: Step<T>, q': Queue<T>)
    requires Inv(q) && Inv(q') && Next(q, step, q') && (step == CheckRoom || step == CheckSize)
    ensures Queued(q') == Queued(q)
    ensures step == CheckRoom ==> q'.room == |q.slots| - 1 - |Queued(q)|
    ensures step == CheckSize ==> q'.available == |Queued(q)|
  {
    hide SlotsFit, Alternates, Produced, Consumed, Place, ValuesFit;
    SizeIsDifference(PublishedCount(q), ReleasedCount(q), |q.slots|);
  }

  lemma PublishHeadIsAtomic<T>(q: Queue<T>, q': Queue<T>)
    requires Inv(q) && Inv(q') && Next(q, PublishHead, q')
    ensures Queued(q') == Queued(q) + q.fill.data
  {
    hide SlotsFit, Alternates, Produced, Consumed, Place, Advanced;
    var produced, published := Produced(q.log), PublishedCount(q);
    SplitAt(produced, ReleasedCount(q), published, |produced|);
    assert produced[published..|produced|] == produced[published..];
  }

  lemma PublishTailIsAtomic<T>(q: Queue<T>, q': Queue<T>)
    requires Inv(q) && Inv(q') && Next(q, PublishTail, q')
    ensures Queued(q) == q.drain.taken + Queued(q')
  {
    hide SlotsFit, Alternates, Produced, Consumed, Place, Advanced;
    var produced, consumed := Produced(q.log), Consumed(q.log);
    assert produced[..|consumed|] == consumed;
    SplitAt(produced, ReleasedCount(q), |consumed|, PublishedCount(q));
    assert consumed[ReleasedCount(q)..] == produced[ReleasedCount(q)..|consumed|];
  }

  lemma AccessIsInvisible<T>(q: Queue<T>, step: Step<T>, q': Queue<T>)
    requires Inv(q) && Inv(q') && Next(q, step, q') && (step == WriteSlot || step == FetchSlot)
    ensures Queued(q') == Queued(q)
  {
    hide SlotsFit, Alternates, Produced, Consumed, Place, SlotAt, ValuesFit;
    LogGrows(q.log, Last(q'.log));
    assert PublishedCount(q') == PublishedCount(q) && ReleasedCount(q') == ReleasedCount(q);
    SlicePrefix(Produced(q.log), Produced(q'.log), ReleasedCount(q), PublishedCount(q));
  }

  lemma SlicePrefix<T>(a: seq<T>, b: seq<T>, from: nat, to: nat)
    requires a <= b && from <= to <= |a|
    ensures a[from..to] == b[from..to]
  {
  }

  lemma BeginIsInvisible<T>(q: Queue<T>, step: Step<T>, q': Queue<T>)
    requires Inv(q) && Inv(q') && Next(q, step, q') && (step.BeginFill? || step.BeginDrain?)
    ensures Queued(q') == Queued(q)
  {
    hide SlotsFit, Alternates, Produced, Consumed, Place, ValuesFit;
  }

  lemma StepIsAtomic<T>(q: Queue<T>, step: Step<T>, q': Queue<T>)
    requires Inv(q) && Inv(q') && Next(q, step, q')
    ensures match step
            case CheckRoom => Queued(q') == Queued(q) && q'.room == |q.slots| - 1 - |Queued(q)|
            case PublishHead => Queued(q') == Queued(q) + q.fill.data
            case CheckSize => Queued(q') == Queued(q) && q'.available == |Queued(q)|
            case PublishTail => Queued(q) == q.drain.taken + Queued(q')
            case _ => Queued(q') == Queued(q)
  {
    hide Inv, Next, Queued;
    match step
    case CheckRoom => CheckIsAtomic(q, step, q');
    case PublishHead => PublishHeadIsAtomic(q, q');
    case CheckSize => CheckIsAtomic(q, step, q');
    case PublishTail => PublishTailIsAtomic(q, q');
    case WriteSlot => AccessIsInvisible(q, step, q');
    case FetchSlot => AccessIsInvisible(q, step, q');
    case _ => BeginIsInvisible(q, step, q');
  }

  lemma NothingIsLost<T>(q: Queue<T>)
    requires Inv(q) && q.fill == NoFill && q.drain == NoDrain
    ensures Produced(q.log) == Consumed(q.log) + Slots(q.slots, q.tail, q.head)
  {
    hide Slots, Alternates, Produced, Consumed, Place, SlotsFit;
    QueuedIsSlots(q);
    var produced, consumed := Produced(q.log), Consumed(q.log);
    assert produced == produced[..|consumed|] + produced[|consumed|..];
  }

  /** The queue behaves like an atomic one: publishing the head appends the whole block in one
      step, publishing the tail removes exactly the block that was copied out, no other step
      changes the queued elements, and the checks see their number. */
  lemma RunIsAtomic<T>(states: seq<Queue<T>>, steps: seq<Step<T>>, i: nat)
    requires Run(states, steps) && i < |steps|
    ensures Inv(states[i]) && Inv(states[i + 1])
    ensures var (before, after) := (Queued(states[i]), Queued(states[i + 1]));
      match steps[i]
      case CheckRoom => after == before && states[i + 1].room == |states[i].slots| - 1 - |before|
      case PublishHead => after == before + states[i].fill.data
      case CheckSize => after == before && states[i + 1].available == |before|
      case PublishTail => before == states[i].drain.taken + after
      case _ => after == before
  {
    hide Inv, Next, Queued;
    RunKeepsInv(states, steps, i);
    RunKeepsInv(states, steps, i + 1);
    StepIsAtomic(states[i], steps[i], states[i + 1]);
  }

  /** With both threads between operations nothing is lost: what was produced is what was
      consumed followed by what is queued. */
  lemma RunLosesNothing<T>(states: seq<Queue<T>>, steps: seq<Step<T>>, i: nat)
    requires Run(states, steps) && i < |states|
    requires states[i].fill == NoFill && states[i].drain == NoDrain
    ensures states[i].head < |states[i].slots| && states[i].tail < |states[i].slots|
    ensures var q := states[i]; Produced(q.log) == Consumed(q.log) + Slots(q.slots, q.tail, q.head)
  {
    hide Slots;
    RunKeepsInv(states, steps, i);
    NothingIsLost(states[i]);
  }

  // What the two threads ask for, told from the steps alone.

  /** All data handed to fillFrom so far. */
  ghost function Offered<T>(steps: seq<Step<T>>): seq<T> {
    if steps == [] then [] else
      Offered(DropLast(steps)) + if Last(steps).BeginFill? then Last(steps).data else []
  }

  /** The counts of all calls of drainTo so far. */
  ghost function Wanted<T>(steps: seq<Step<T>>): seq<nat> {
    if steps == [] then [] else
      Wanted(DropLast(steps)) + if Last(steps).BeginDrain? then [Last(steps).count] else []
  }

  ghost function Sum(counts: seq<nat>): nat {
    if counts == [] then 0 else Sum(DropLast(counts)) + Last(counts)
  }

  /** What is offered and not written is the rest of the fill in progress. */
  ghost predicate FillFits<T>(q: Queue<T>, offered: seq<T>) {
    && (q.fill.Filling? ==> q.fill.written <= |q.fill.data|)
    && offered == Produced(q.log) + (if q.fill.Filling? then q.fill.data[q.fill.written..] else [])
  }

  /** What is wanted and not taken is the rest of the drain in progress. */
  ghost predicate DrainFits<T>(q: Queue<T>, wanted: seq<nat>) {
    && (q.drain == NoDrain ==> |Consumed(q.log)| == Sum(wanted))
    && (q.drain.Draining? ==> wanted != [] && Last(wanted) == q.drain.count
                              && |Consumed(q.log)| == Sum(DropLast(wanted)) + |q.drain.taken|)
  }

  lemma StepsGrow<T>(steps: seq<Step<T>>, step: Step<T>)
    ensures Offered(steps + [step]) == Offered(steps) + (if step.BeginFill? then step.data else [])
    ensures Wanted(steps + [step]) == Wanted(steps) + (if step.BeginDrain? then [step.count] else [])
  {
    assert DropLast(steps + [step]) == steps;
  }

  lemma SumGrows(counts: seq<nat>, count: nat)
    ensures Sum(counts + [count]) == Sum(counts) + count && DropLast(counts + [count]) == counts
  {
    assert DropLast(counts + [count]) == counts;
  }

  lemma SumOfAll(counts: seq<nat>)
    requires counts != []
    ensures Sum(counts) == Sum(DropLast(counts)) + Last(counts)
  {
  }

  lemma FillInStep<T>(q: Queue<T>, step: Step<T>, q': Queue<T>, offered: seq<T>)
    requires Next(q, step, q') && FillFits(q, offered)
    ensures FillFits(q', offered + (if step.BeginFill? then step.data else []))
  {
    hide Produced, Advanced, SlotAt, Size;
    NothingAfter(offered);
    NothingAfter(Produced(q.log));
    if step == WriteSlot {
      LogGrows(q.log, Last(q'.log));
      NextOfData(q.fill.data, q.fill.written);
      AppendAll(Produced(q.log), [q.fill.data[q.fill.written]], q.fill.data[q.fill.written + 1..]);
    } else if step == FetchSlot {
      LogGrows(q.log, Last(q'.log));
    } else if step.BeginFill? {
      assert q'.fill.data[0..] == step.data;
    }
  }

  lemma DrainInStep<T>(q: Queue<T>, step: Step<T>, q': Queue<T>, wanted: seq<nat>)
    requires Next(q, step, q') && DrainFits(q, wanted)
    ensures DrainFits(q', wanted + (if step.BeginDrain? then [step.count] else []))
  {
    hide Consumed, Sum, Advanced, SlotAt, Size;
    NothingAfter(wanted);
    if step == WriteSlot || step == FetchSlot {
      LogGrows(q.log, Last(q'.log));
      NothingAfter(Consumed(q.log));
    } else if step.BeginDrain? {
      SumGrows(wanted, step.count);
    } else if step == PublishTail {
      SumOfAll(wanted);
    }
  }

  lemma NextOfData<T>(data: seq<T>, i: nat)
    requires i < |data|
    ensures data[i..] == [data[i]] + data[i + 1..]
  {
  }

  lemma {:induction false} RunInStep<T>(states: seq<Queue<T>>, steps: seq<Step<T>>, i: nat)
    requires Run(states, steps) && i < |states|
    ensures FillFits(states[i], Offered(steps[..i])) && DrainFits(states[i], Wanted(steps[..i]))
  {
    hide Next, Start, FillFits, DrainFits, Offered, Wanted;
    if i == 0 {
      NothingAsked(states[0], steps[..0]);
    } else {
      RunInStep(states, steps, i - 1);
      FillInStep(states[i - 1], steps[i - 1], states[i], Offered(steps[..i - 1]));
      DrainInStep(states[i - 1], steps[i - 1], states[i], Wanted(steps[..i - 1]));
      StepsGrow(steps[..i - 1], steps[i - 1]);
      assert steps[..i] == steps[..i - 1] + [steps[i - 1]];
    }
  }

  lemma NothingAsked<T>(q: Queue<T>, steps: seq<Step<T>>)
    requires Start(q) && steps == []
    ensures FillFits(q, Offered(steps)) && DrainFits(q, Wanted(steps))
  {
  }

  /** What is written to the slots is what the producer passes in: in every state of every run a
      prefix of all data handed to fillFrom so far, and all of them between two fills. */
  lemma ProducedIsOffered<T>(states: seq<Queue<T>>, steps: seq<Step<T>>, i: nat)
    requires Run(states, steps) && i < |states|
    ensures Produced(states[i].log) <= Offered(steps[..i])
    ensures states[i].fill == NoFill ==> Produced(states[i].log) == Offered(steps[..i])
  {
    hide Run, Produced, Offered, Wanted, Sum;
    RunInStep(states, steps, i);
  }

  /** What a drain returns depends on the calls alone and not on how the threads interleave: as many
      elements as it asks for, from what was offered, behind those that all drains before it asked
      for. */
  lemma DrainsTakeInOrder<T>(states: seq<Queue<T>>, steps: seq<Step<T>>, i: nat)
    requires Run(states, steps) && i < |steps| && steps[i] == PublishTail
    ensures states[i].drain.Draining? && Wanted(steps[..i]) != []
    ensures var wanted := Wanted(steps[..i]);
      && Sum(wanted) <= |Offered(steps[..i])|
      && states[i].drain.taken == Offered(steps[..i])[Sum(DropLast(wanted))..Sum(wanted)]
      && |states[i].drain.taken| == Last(wanted)
  {
    RunKeepsInv(states, steps, i);
    RunInStep(states, steps, i);
    ProducedIsOffered(states, steps, i);
    hide Start, Produced, Consumed, Offered, Wanted, Sum, SlotsFit, Alternates, Place;
    var q, wanted := states[i], Wanted(steps[..i]);
    assert Next(q, steps[i], states[i + 1]);
    SumOfAll(wanted);
    var consumed := Consumed(q.log);
    assert consumed[ReleasedCount(q)..] == q.drain.taken;
    assert Offered(steps[..i])[..|consumed|] == consumed;
  }

  // When the threads may go on.

  ghost function Waiting<T>(q: Queue<T>): nat {
    if Inv(q) then |Queued(q)| else 0
  }

  /** What the last check of the producer leaves it to use: the slots free at that time, except one,
      less all that it was called with since. */
  ghost function RoomLeft<T>(states: seq<Queue<T>>, steps: seq<Step<T>>, i: nat): int
    requires i <= |steps| && |states| == |steps| + 1
  {
    if i == 0 then 0
    else if steps[i - 1] == CheckRoom then |states[0].slots| - 1 - Waiting(states[i - 1])
    else RoomLeft(states, steps, i - 1) - if steps[i - 1].BeginFill? then |steps[i - 1].data| else 0
  }

  /** What the last check of the consumer leaves it to use. */
  ghost function SizeLeft<T>(states: seq<Queue<T>>, steps: seq<Step<T>>, i: nat): int
    requires i <= |steps| && |states| == |steps| + 1
  {
    if i == 0 then 0
    else if steps[i - 1] == CheckSize then Waiting(states[i - 1])
    else SizeLeft(states, steps, i - 1) - if steps[i - 1].BeginDrain? then steps[i - 1].count else 0
  }

  ghost predicate ChecksFit<T>(q: Queue<T>, slotCount: nat, roomLeft: int, sizeLeft: int) {
    && |q.slots| == slotCount
    && roomLeft == q.room - (if q.fill.Filling? then |q.fill.data| else 0)
    && sizeLeft == q.available - (if q.drain.Draining? then q.drain.count else 0)
  }

  lemma StepChecksFit<T>(q: Queue<T>, step: Step<T>, q': Queue<T>, slotCount: nat, roomLeft: int, sizeLeft: int)
    requires Inv(q) && Inv(q') && Next(q, step, q') && ChecksFit(q, slotCount, roomLeft, sizeLeft)
    ensures ChecksFit(q', slotCount,
                      if step == CheckRoom then slotCount - 1 - Waiting(q)
                      else roomLeft - (if step.BeginFill? then |step.data| else 0),
                      if step == CheckSize then Waiting(q)
                      else sizeLeft - (if step.BeginDrain? then step.count else 0))
  {
    hide Inv, Queued, Advanced, SlotAt, Size;
    StepIsAtomic(q, step, q');
  }

  lemma {:induction false} RunChecksFit<T>(states: seq<Queue<T>>, steps: seq<Step<T>>, i: nat)
    requires Run(states, steps) && i < |states|
    ensures ChecksFit(states[i], |states[0].slots|, RoomLeft(states, steps, i), SizeLeft(states, steps, i))
  {
    hide Inv, Next, Start, ChecksFit, Waiting;
    if i == 0 {
      NothingChecked(states[0]);
    } else {
      RunChecksFit(states, steps, i - 1);
      RunKeepsInv(states, steps, i - 1);
      RunKeepsInv(states, steps, i);
      StepChecksFit(states[i - 1], steps[i - 1], states[i], |states[0].slots|,
                    RoomLeft(states, steps, i - 1), SizeLeft(states, steps, i - 1));
    }
  }

  lemma NothingChecked<T>(q: Queue<T>)
    requires Start(q)
    ensures ChecksFit(q, |q.slots|, 0, 0)
  {
  }

  lemma ProgressFits<T>(q: Queue<T>)
    requires Inv(q)
    ensures q.fill.Filling? ==> q.fill.written <= |q.fill.data|
    ensures q.drain.Draining? ==> |q.drain.taken| <= q.drain.count
  {
  }

  /** Between two fills the producer may check its room, and may fill in exactly as much as its last
      check still leaves; in a fill, it may write the next slot or publish. */
  lemma ProducerMayGoOn<T>(states: seq<Queue<T>>, steps: seq<Step<T>>, i: nat, data: seq<T>)
    requires Run(states, steps) && i < |states|
    ensures var q := states[i];
      if q.fill == NoFill then
        Enabled(q, CheckRoom) && (Enabled(q, BeginFill(data)) <==> |data| <= RoomLeft(states, steps, i))
      else
        if q.fill.written < |q.fill.data| then Enabled(q, WriteSlot) else Enabled(q, PublishHead)
  {
    hide Run, Inv, RoomLeft, SizeLeft;
    RunChecksFit(states, steps, i);
    RunKeepsInv(states, steps, i);
    ProgressFits(states[i]);
  }

  /** Likewise the consumer: between two drains it may take out exactly as much as its last check
      still leaves. */
  lemma ConsumerMayGoOn<T>(states: seq<Queue<T>>, steps: seq<Step<T>>, i: nat, count: nat)
    requires Run(states, steps) && i < |states|
    ensures var q := states[i];
      if q.drain == NoDrain then
        Enabled(q, CheckSize) && (Enabled(q, BeginDrain(count)) <==> count <= SizeLeft(states, steps, i))
      else
        if |q.drain.taken| < q.drain.count then Enabled(q, FetchSlot) else Enabled(q, PublishTail)
  {
    hide Run, Inv, RoomLeft, SizeLeft;
    RunChecksFit(states, steps, i);
    RunKeepsInv(states, steps, i);
    ProgressFits(states[i]);
  }
}
