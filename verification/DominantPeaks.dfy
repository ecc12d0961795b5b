/** SlidingWindowDominantPeakIsolator (dsp/peakfinder.hpp:249-422) on an unbounded clock.

    The functions below say what one call does to the two queues; `PeakClock` relates them to the
    same functions on wrapping 64-bit positions. The lemmas say what whole runs compute. */
module DominantPeaks {
  import opened RingMath
  import opened PeakTypes
  import opened Sequences

  /** Both queues, each listed from its front to its back. */
  datatype Queues = Queues(right: seq<RawPeak>, memory: seq<ValueAtPos>)

  // ----- What one call does

  /** Pops from the back what the new event dominates within the window. */
  function DropDominated(right: seq<RawPeak>, e: RawPeak, window: nat): seq<RawPeak> {
    if right != [] && Last(right).value < e.value && e.streamPos - Last(right).streamPos <= window
    then DropDominated(DropLast(right), e, window)
    else right
  }

  /** Pops from the front what is more than `limit` older than `pos`. */
  function DropOld(memory: seq<ValueAtPos>, pos: int, limit: nat): seq<ValueAtPos> {
    if memory != [] && pos - memory[0].streamPos > limit
    then DropOld(memory[1..], pos, limit)
    else memory
  }

  /** Pops from the front what looks more than `limit` older than `pos`. The purge may find entries
      that are older than a turn of the 64-bit position, and those look younger than they are. */
  function DropAged(memory: seq<ValueAtPos>, pos: int, limit: nat): seq<ValueAtPos> {
    if memory != [] && Wrap(pos - memory[0].streamPos) > limit
    then DropAged(memory[1..], pos, limit)
    else memory
  }

  /** Pops from the back what is smaller than `value`. */
  function DropSmaller(memory: seq<ValueAtPos>, value: int): seq<ValueAtPos> {
    if memory != [] && Last(memory).value < value
    then DropSmaller(DropLast(memory), value)
    else memory
  }

  /** The memory entries that can still dominate `p` from the left. */
  function LeftDominators(memory: seq<ValueAtPos>, p: RawPeak, window: nat): seq<ValueAtPos> {
    DropSmaller(DropOld(memory, p.streamPos, window), p.value)
  }

  /** Moves entries that are at least a window old into the memory, reporting those peaks that
      nothing in the memory dominates. */
  function Flush(q: Queues, now: int, window: nat): (Queues, seq<RawPeak>)
    decreases |q.right|
  {
    if q.right != [] && now - q.right[0].streamPos >= window then
      var p := q.right[0];
      var kept := LeftDominators(q.memory, p, window);
      var (rest, found) := Flush(Queues(q.right[1..], kept + [p.AtPos()]), now, window);
      (rest, Accepted(p, kept) + found)
    else
      (q, [])
  }

  function Accepted(p: RawPeak, dominators: seq<ValueAtPos>): seq<RawPeak> {
    if p.kind == Peak && dominators == [] then [p] else []
  }

  /** The right queue once an event has been weighed against it. */
  function Enqueue(right: seq<RawPeak>, e: RawPeak, window: nat): seq<RawPeak> {
    DropDominated(right, e, window) + (if e.kind == Rising then [] else [e])
  }

  function OnRawPeakEvent(q: Queues, e: RawPeak, window: nat): (Queues, seq<RawPeak>) {
    if q.right != [] && Last(q.right).streamPos == e.streamPos then
      (q.(right := DropLast(q.right) + [Last(q.right).(kind := e.kind)]), [])
    else
      Flush(Queues(Enqueue(q.right, e, window), q.memory), e.streamPos, window)
  }

  function PurgeUpUntil(q: Queues, pos: int, window: nat): (Queues, seq<RawPeak>) {
    if q.right == [] || Last(q.right).streamPos >= pos then (q, [])
    else Flush(q.(memory := DropAged(q.memory, pos, 3 * window + 1)), pos, window)
  }

  // ----- What the events say

  ghost predicate Stored(e: RawPeak) {
    e.kind != Rising
  }

  /** Nothing larger follows within the window. */
  ghost predicate RightDominant(events: seq<RawPeak>, at: ValueAtPos, window: nat) {
    forall x :: x in events && at.streamPos < x.streamPos <= at.streamPos + window ==> x.value <= at.value
  }

  /** A value that can lock out later peaks. */
  ghost predicate Lockout(initial: seq<ValueAtPos>, events: seq<RawPeak>, m: ValueAtPos) {
    || m in initial
    || RawPeak(m.streamPos, m.value, Peak) in events
    || RawPeak(m.streamPos, m.value, Falling) in events
  }

  ghost predicate Locks(m: ValueAtPos, p: ValueAtPos, window: nat) {
    p.streamPos - window <= m.streamPos < p.streamPos && m.value >= p.value
  }

  /** Something at least as large precedes within the window. */
  ghost predicate LockedOut(initial: seq<ValueAtPos>, events: seq<RawPeak>, p: ValueAtPos, window: nat) {
    exists m :: Lockout(initial, events, m) && Locks(m, p, window)
  }

  /** A peak that dominates its window on both sides. */
  ghost predicate Dominant(initial: seq<ValueAtPos>, events: seq<RawPeak>, p: RawPeak, window: nat) {
    && p in events
    && p.kind == Peak
    && RightDominant(events, p.AtPos(), window)
    && !LockedOut(initial, events, p.AtPos(), window)
  }

  /** Positions grow, except that a rising event may turn into a peak at the same position. */
  ghost predicate InOrder(events: seq<RawPeak>) {
    forall i, j :: 0 <= i < j < |events| ==>
      || events[i].streamPos < events[j].streamPos
      || (j == i + 1 && events[i].streamPos == events[j].streamPos && events[i].kind == Rising
          && events[j].kind != Rising && events[i].value == events[j].value)
  }

  /** A rising slope leads to something at least as large. */
  ghost predicate RisesContinue(events: seq<RawPeak>) {
    forall i :: 0 <= i < |events| - 1 && events[i].kind == Rising ==> events[i].value <= events[i + 1].value
  }

  /** At most one initial value, which comes before all events; only a non-peak may repeat it. */
  ghost predicate InitialFirst(initial: seq<ValueAtPos>, events: seq<RawPeak>) {
    && |initial| <= 1
    && forall m, e :: m in initial && e in events ==>
         || m.streamPos < e.streamPos
         || (m == e.AtPos() && e.kind != Peak)
  }

  // ----- What the queues hold after everything up to `flushed` has been flushed

  ghost predicate Ascending(right: seq<RawPeak>) {
    forall i, j :: 0 <= i < j < |right| ==> right[i].streamPos < right[j].streamPos
  }

  /** The right queue: the stored events not yet flushed that are right-dominant so far. */
  ghost predicate RightQueue(right: seq<RawPeak>, events: seq<RawPeak>, window: nat, flushed: int) {
    && Ascending(right)
    && (forall e :: e in right <==>
          e in events && Stored(e) && e.streamPos + window > flushed && RightDominant(events, e.AtPos(), window))
  }

  /** Values that were put into the memory at some time. */
  ghost predicate Remembered(initial: seq<ValueAtPos>, events: seq<RawPeak>, m: ValueAtPos, window: nat, flushed: int) {
    || m in initial
    || (Lockout([], events, m) && m.streamPos + window <= flushed && RightDominant(events, m, window))
  }

  ghost predicate Surpassed(initial: seq<ValueAtPos>, events: seq<RawPeak>, m: ValueAtPos, window: nat, flushed: int) {
    exists m' :: Remembered(initial, events, m', window, flushed) && m.streamPos < m'.streamPos && m.value < m'.value
  }

  ghost predicate Unsurpassed(initial: seq<ValueAtPos>, events: seq<RawPeak>, m: ValueAtPos, window: nat, flushed: int) {
    && Remembered(initial, events, m, window, flushed)
    && !Surpassed(initial, events, m, window, flushed)
  }

  ghost predicate MemoryOrdered(memory: seq<ValueAtPos>) {
    forall i, j :: 0 <= i < j < |memory| ==>
      memory[i].streamPos <= memory[j].streamPos && memory[i].value >= memory[j].value
  }

  /** The memory queue: only remembered values, and all of them from `horizon` on that have not
      been surpassed. */
  ghost predicate MemoryQueue(memory: seq<ValueAtPos>, initial: seq<ValueAtPos>, events: seq<RawPeak>,
                              window: nat, flushed: int, horizon: int)
  {
    && MemoryOrdered(memory)
    && (forall m :: m in memory ==> Remembered(initial, events, m, window, flushed))
    && (forall m :: Unsurpassed(initial, events, m, window, flushed) && m.streamPos >= horizon ==> m in memory)
  }

  /** What was reported: exactly the dominant peaks whose window has been flushed, in order. */
  ghost predicate Report(found: seq<RawPeak>, initial: seq<ValueAtPos>, events: seq<RawPeak>, window: nat, flushed: int) {
    && Ascending(found)
    && (forall p :: p in found <==> Dominant(initial, events, p, window) && p.streamPos + window <= flushed)
  }

  ghost predicate Inv(q: Queues, found: seq<RawPeak>, initial: seq<ValueAtPos>, events: seq<RawPeak>,
                      window: nat, flushed: int, horizon: int)
  {
    && RightQueue(q.right, events, window, flushed)
    && MemoryQueue(q.memory, initial, events, window, flushed, horizon)
    && Report(found, initial, events, window, flushed)
  }

  // ----- The three pops are filters on ordered queues

  lemma {:induction false} DropDominatedFilters(right: seq<RawPeak>, e: RawPeak, window: nat)
    requires Ascending(right)
    requires forall i, j :: 0 <= i < j < |right| ==> right[i].value >= right[j].value
    ensures DropDominated(right, e, window) <= right
    ensures forall x :: x in DropDominated(right, e, window) <==>
              x in right && !(x.value < e.value && e.streamPos - x.streamPos <= window)
  {
    if right != [] {
      assert right == DropLast(right) + [Last(right)];
      if Last(right).value < e.value && e.streamPos - Last(right).streamPos <= window {
        DropDominatedFilters(DropLast(right), e, window);
      }
    }
  }

  lemma {:induction false} DropOldFilters(memory: seq<ValueAtPos>, pos: int, limit: nat)
    requires MemoryOrdered(memory)
    ensures MemoryOrdered(DropOld(memory, pos, limit))
    ensures forall m :: m in DropOld(memory, pos, limit) <==> m in memory && pos - m.streamPos <= limit
  {
    if memory != [] {
      assert memory == [memory[0]] + memory[1..];
      if pos - memory[0].streamPos > limit {
        DropOldFilters(memory[1..], pos, limit);
      }
    }
  }

  lemma {:induction false} DropSmallerFilters(memory: seq<ValueAtPos>, value: int)
    requires MemoryOrdered(memory)
    ensures MemoryOrdered(DropSmaller(memory, value))
    ensures forall m :: m in DropSmaller(memory, value) <==> m in memory && m.value >= value
  {
    if memory != [] {
      assert memory == DropLast(memory) + [Last(memory)];
      if Last(memory).value < value {
        DropSmallerFilters(DropLast(memory), value);
      }
    }
  }

  lemma LeftDominatorsFilter(memory: seq<ValueAtPos>, p: RawPeak, window: nat)
    requires MemoryOrdered(memory)
    ensures MemoryOrdered(LeftDominators(memory, p, window))
    ensures forall m :: m in LeftDominators(memory, p, window) <==>
              m in memory && p.streamPos - m.streamPos <= window && m.value >= p.value
  {
    DropOldFilters(memory, p.streamPos, window);
    DropSmallerFilters(DropOld(memory, p.streamPos, window), p.value);
  }

  // ----- The memory holds a blocker whenever there is one

  /** The event behind a lockout value. */
  lemma StoredAt(events: seq<RawPeak>, m: ValueAtPos) returns (e: RawPeak)
    requires Lockout([], events, m)
    ensures e in events && Stored(e) && e.AtPos() == m
  {
    e := RawPeak(m.streamPos, m.value, if RawPeak(m.streamPos, m.value, Peak) in events then Peak else Falling);
  }

  /** The last value that locks p out. */
  lemma LastLockout(initial: seq<ValueAtPos>, events: seq<RawPeak>, p: ValueAtPos, window: nat, m: ValueAtPos)
    returns (last: ValueAtPos)
    requires Lockout(initial, events, m) && Locks(m, p, window)
    ensures Lockout(initial, events, last) && Locks(last, p, window)
    ensures forall m' :: Lockout(initial, events, m') && Locks(m', p, window) ==> m'.streamPos <= last.streamPos
    decreases p.streamPos - m.streamPos
  {
    last := m;
    if m' :| Lockout(initial, events, m') && Locks(m', p, window) && m.streamPos < m'.streamPos {
      last := LastLockout(initial, events, p, window, m');
    }
  }

  /** A slope that rises above p between its last lockout and p would end in a later lockout. */
  lemma {:induction false} NoHigherRise(initial: seq<ValueAtPos>, events: seq<RawPeak>, window: nat, last: ValueAtPos, i: nat, j: nat)
    requires InOrder(events) && RisesContinue(events)
    requires i < j < |events| && Stored(events[j])
    requires events[j].streamPos - window <= last.streamPos < events[i].streamPos
    requires forall m' :: Lockout(initial, events, m') && Locks(m', events[j].AtPos(), window) ==> m'.streamPos <= last.streamPos
    ensures events[i].value <= events[j].value
    decreases j - i
  {
    var e := events[i];
    if Stored(e) {
      assert Lockout(initial, events, e.AtPos());
      assert Locks(e.AtPos(), events[j].AtPos(), window) <==> e.value >= events[j].value;
    } else if i + 1 < j {
      NoHigherRise(initial, events, window, last, i + 1, j);
    }
  }

  lemma LastLockoutIsRightDominant(initial: seq<ValueAtPos>, events: seq<RawPeak>, p: RawPeak, window: nat, last: ValueAtPos)
    requires InOrder(events) && RisesContinue(events)
    requires p in events && Stored(p) && RightDominant(events, p.AtPos(), window)
    requires Locks(last, p.AtPos(), window)
    requires forall m' :: Lockout(initial, events, m') && Locks(m', p.AtPos(), window) ==> m'.streamPos <= last.streamPos
    ensures RightDominant(events, last, window)
  {
    forall x | x in events && last.streamPos < x.streamPos <= last.streamPos + window
      ensures x.value <= last.value
    {
      var i :| 0 <= i < |events| && events[i] == x;
      var j :| 0 <= j < |events| && events[j] == p;
      if i < j {
        NoHigherRise(initial, events, window, last, i, j);
      } else if j < i {
        assert p.streamPos < x.streamPos;
        assert p.AtPos().streamPos < x.streamPos <= p.AtPos().streamPos + window;
      }
    }
  }

  /** The front of the right queue is locked out exactly when the memory keeps a dominator. */
  lemma LockedOutIffDominated(q: Queues, initial: seq<ValueAtPos>, events: seq<RawPeak>, window: nat, flushed: int, horizon: int)
    requires InOrder(events) && RisesContinue(events) && InitialFirst(initial, events)
    requires RightQueue(q.right, events, window, flushed)
    requires MemoryQueue(q.memory, initial, events, window, flushed, horizon)
    requires q.right != [] && q.right[0].kind == Peak
    requires LockedOut(initial, events, q.right[0].AtPos(), window) ==> horizon <= q.right[0].streamPos - window
    ensures LeftDominators(q.memory, q.right[0], window) == []
       <==> !LockedOut(initial, events, q.right[0].AtPos(), window)
  {
    var p := q.right[0];
    assert p in q.right;
    var kept := LeftDominators(q.memory, p, window);
    LeftDominatorsFilter(q.memory, p, window);
    if kept != [] {
      var m := kept[0];
      assert m in kept && m in q.memory;
      assert Lockout(initial, events, m) && Locks(m, p.AtPos(), window);
    }
    if m :| Lockout(initial, events, m) && Locks(m, p.AtPos(), window) {
      var last := LastLockout(initial, events, p.AtPos(), window, m);
      LastLockoutIsRightDominant(initial, events, p, window, last);
      LastLockoutIsRemembered(q, initial, events, window, flushed, last);
      assert last in q.memory;
      assert last in kept;
    }
  }

  lemma LastLockoutIsRemembered(q: Queues, initial: seq<ValueAtPos>, events: seq<RawPeak>, window: nat, flushed: int, last: ValueAtPos)
    requires InitialFirst(initial, events)
    requires RightQueue(q.right, events, window, flushed) && q.right != []
    requires Lockout(initial, events, last) && Locks(last, q.right[0].AtPos(), window)
    requires RightDominant(events, last, window)
    requires forall m' :: Lockout(initial, events, m') && Locks(m', q.right[0].AtPos(), window) ==> m'.streamPos <= last.streamPos
    ensures Remembered(initial, events, last, window, flushed)
    ensures !Surpassed(initial, events, last, window, flushed)
  {
    var p := q.right[0];
    assert p in q.right;
    if last !in initial {
      var e := StoredAt(events, last);
      assert e in q.right <==> e.streamPos + window > flushed;
    }
    forall m' | Remembered(initial, events, m', window, flushed) && last.streamPos < m'.streamPos
      ensures m'.value <= last.value
    {
      assert Lockout(initial, events, m');
      if m' !in initial {
        assert Locks(m', p.AtPos(), window) <==> m'.value >= p.value;
      }
    }
  }

  // ----- Flushing

  /** Flushing the front entry. */
  lemma FlushOne(q: Queues, found: seq<RawPeak>, initial: seq<ValueAtPos>, events: seq<RawPeak>,
                 window: nat, flushed: int, horizon: int) returns (horizon': int)
    requires InOrder(events) && RisesContinue(events) && InitialFirst(initial, events)
    requires Inv(q, found, initial, events, window, flushed, horizon)
    requires q.right != []
    requires q.right[0].kind == Peak && LockedOut(initial, events, q.right[0].AtPos(), window)
             ==> horizon <= q.right[0].streamPos - window
    ensures var p := q.right[0];
            var kept := LeftDominators(q.memory, p, window);
            Inv(Queues(q.right[1..], kept + [p.AtPos()]), found + Accepted(p, kept), initial, events, window,
                p.streamPos + window, horizon')
    ensures horizon' == if horizon <= q.right[0].streamPos - window then q.right[0].streamPos - window else horizon
  {
    var p := q.right[0];
    var kept := LeftDominators(q.memory, p, window);
    horizon' := if horizon <= p.streamPos - window then p.streamPos - window else horizon;
    assert q.right == [p] + q.right[1..];
    assert p in q.right;
    if p.kind == Peak {
      LockedOutIffDominated(q, initial, events, window, flushed, horizon);
    }
    FlushedRight(q, events, window, flushed);
    FlushedReport(q, found, initial, events, window, flushed, kept);
    FlushedMemory(q, initial, events, window, flushed, horizon);
  }

  lemma FlushedRight(q: Queues, events: seq<RawPeak>, window: nat, flushed: int)
    requires RightQueue(q.right, events, window, flushed) && q.right != []
    ensures RightQueue(q.right[1..], events, window, q.right[0].streamPos + window)
    ensures forall e | e in events && Stored(e) && RightDominant(events, e.AtPos(), window) ::
              flushed < e.streamPos + window <= q.right[0].streamPos + window ==> e == q.right[0]
  {
    assert q.right == [q.right[0]] + q.right[1..];
  }

  lemma FlushedReport(q: Queues, found: seq<RawPeak>, initial: seq<ValueAtPos>, events: seq<RawPeak>,
                      window: nat, flushed: int, kept: seq<ValueAtPos>)
    requires RightQueue(q.right, events, window, flushed) && q.right != []
    requires Report(found, initial, events, window, flushed)
    requires q.right[0].kind == Peak ==> (kept == [] <==> !LockedOut(initial, events, q.right[0].AtPos(), window))
    ensures Report(found + Accepted(q.right[0], kept), initial, events, window, q.right[0].streamPos + window)
  {
    var p := q.right[0];
    assert p in q.right;
    FlushedRight(q, events, window, flushed);
    var found' := found + Accepted(p, kept);
    forall i, j | 0 <= i < j < |found'| ensures found'[i].streamPos < found'[j].streamPos {
      if j == |found| {
        assert found'[i] in found;
      }
    }
  }

  /** Flushing p adds exactly p to what is remembered. */
  lemma RememberedAfterFlush(q: Queues, initial: seq<ValueAtPos>, events: seq<RawPeak>, window: nat, flushed: int, m: ValueAtPos)
    requires RightQueue(q.right, events, window, flushed) && q.right != []
    ensures Remembered(initial, events, m, window, q.right[0].streamPos + window)
       <==> Remembered(initial, events, m, window, flushed) || m == q.right[0].AtPos()
  {
    assert q.right[0] in q.right;
    assert Lockout([], events, q.right[0].AtPos());
    if Lockout([], events, m) {
      var e := StoredAt(events, m);
      FlushedRight(q, events, window, flushed);
    }
  }

  lemma FlushedMemory(q: Queues, initial: seq<ValueAtPos>, events: seq<RawPeak>, window: nat, flushed: int, horizon: int)
    requires InOrder(events) && InitialFirst(initial, events)
    requires RightQueue(q.right, events, window, flushed) && q.right != []
    requires MemoryQueue(q.memory, initial, events, window, flushed, horizon)
    ensures var p := q.right[0];
            MemoryQueue(LeftDominators(q.memory, p, window) + [p.AtPos()], initial, events, window, p.streamPos + window,
                        if horizon <= p.streamPos - window then p.streamPos - window else horizon)
  {
    var p := q.right[0];
    assert p in q.right;
    var kept := LeftDominators(q.memory, p, window);
    var flushed' := p.streamPos + window;
    LeftDominatorsFilter(q.memory, p, window);
    forall m | m in q.memory ensures m.streamPos <= p.streamPos {
      assert Remembered(initial, events, m, window, flushed);
    }
    forall m | m in kept + [p.AtPos()] ensures Remembered(initial, events, m, window, flushed') {
      RememberedAfterFlush(q, initial, events, window, flushed, m);
    }
    forall m | Unsurpassed(initial, events, m, window, flushed') && m.streamPos >= horizon && m.streamPos >= p.streamPos - window
      ensures m in kept + [p.AtPos()]
    {
      StillUnsurpassed(q, initial, events, window, flushed, m);
    }
  }

  lemma StillUnsurpassed(q: Queues, initial: seq<ValueAtPos>, events: seq<RawPeak>, window: nat, flushed: int, m: ValueAtPos)
    requires InOrder(events) && InitialFirst(initial, events)
    requires RightQueue(q.right, events, window, flushed) && q.right != []
    requires Unsurpassed(initial, events, m, window, q.right[0].streamPos + window)
    ensures m == q.right[0].AtPos() || (Unsurpassed(initial, events, m, window, flushed) && m.value >= q.right[0].value)
  {
    var p := q.right[0];
    assert p in q.right;
    RememberedAfterFlush(q, initial, events, window, flushed, m);
    RememberedAfterFlush(q, initial, events, window, flushed, p.AtPos());
    if m != p.AtPos() {
      forall m' | Remembered(initial, events, m', window, flushed) ensures Remembered(initial, events, m', window, p.streamPos + window) {
        RememberedAfterFlush(q, initial, events, window, flushed, m');
      }
    }
  }

  /** Advancing past entries that are not there changes nothing. */
  lemma NothingToFlush(q: Queues, found: seq<RawPeak>, initial: seq<ValueAtPos>, events: seq<RawPeak>,
                       window: nat, flushed: int, horizon: int, flushed': int)
    requires Inv(q, found, initial, events, window, flushed, horizon)
    requires flushed <= flushed'
    requires forall e :: e in q.right ==> flushed' < e.streamPos + window
    ensures Inv(q, found, initial, events, window, flushed', horizon)
  {
    assert forall e | e in events && Stored(e) && RightDominant(events, e.AtPos(), window) ::
        e.streamPos + window <= flushed' ==> e !in q.right;
    forall m | Remembered(initial, events, m, window, flushed') ensures Remembered(initial, events, m, window, flushed) {
      if m !in initial {
        var e := StoredAt(events, m);
      }
    }
    forall m | Unsurpassed(initial, events, m, window, flushed') ensures Unsurpassed(initial, events, m, window, flushed) {
    }
  }

  /** Flushing keeps the queues and the report exact, provided no entry that is flushed is locked
      out only by values the memory has already forgotten. */
  lemma {:induction false} FlushAll(q: Queues, found: seq<RawPeak>, initial: seq<ValueAtPos>, events: seq<RawPeak>,
                                    window: nat, flushed: int, horizon: int, now: int) returns (horizon': int)
    requires InOrder(events) && RisesContinue(events) && InitialFirst(initial, events)
    requires Inv(q, found, initial, events, window, flushed, horizon)
    requires forall p :: p in q.right && p.kind == Peak && LockedOut(initial, events, p.AtPos(), window)
               ==> horizon <= p.streamPos - window
    ensures var (q', more) := Flush(q, now, window);
            Inv(q', found + more, initial, events, window, if flushed <= now then now else flushed, horizon')
    ensures horizon' == horizon || horizon' <= now - 2 * window
    decreases |q.right|
  {
    if q.right != [] && now - q.right[0].streamPos >= window {
      var p := q.right[0];
      var kept := LeftDominators(q.memory, p, window);
      var next := Queues(q.right[1..], kept + [p.AtPos()]);
      var horizon1 := FlushStep(q, found, initial, events, window, flushed, horizon);
      horizon' := FlushAll(next, found + Accepted(p, kept), initial, events, window, p.streamPos + window, horizon1, now);
      FlushUnfolds(q, found, now, window);
    } else {
      horizon' := horizon;
      assert found + [] == found;
      FlushNone(q, found, initial, events, window, flushed, horizon, now);
    }
  }

  lemma FlushUnfolds(q: Queues, found: seq<RawPeak>, now: int, window: nat)
    requires q.right != [] && now - q.right[0].streamPos >= window
    ensures var p := q.right[0];
            var kept := LeftDominators(q.memory, p, window);
            var (rest, more) := Flush(Queues(q.right[1..], kept + [p.AtPos()]), now, window);
            Flush(q, now, window).0 == rest && found + Flush(q, now, window).1 == found + Accepted(p, kept) + more
  {
  }

  /** FlushOne, ready for the next entry. */
  lemma FlushStep(q: Queues, found: seq<RawPeak>, initial: seq<ValueAtPos>, events: seq<RawPeak>,
                  window: nat, flushed: int, horizon: int) returns (horizon': int)
    requires InOrder(events) && RisesContinue(events) && InitialFirst(initial, events)
    requires Inv(q, found, initial, events, window, flushed, horizon)
    requires q.right != []
    requires forall p :: p in q.right && p.kind == Peak && LockedOut(initial, events, p.AtPos(), window)
               ==> horizon <= p.streamPos - window
    ensures var p := q.right[0];
            var kept := LeftDominators(q.memory, p, window);
            Inv(Queues(q.right[1..], kept + [p.AtPos()]), found + Accepted(p, kept), initial, events, window,
                p.streamPos + window, horizon')
    ensures horizon' == horizon || horizon' == q.right[0].streamPos - window
    ensures forall r :: r in q.right[1..] && r.kind == Peak && LockedOut(initial, events, r.AtPos(), window)
              ==> horizon' <= r.streamPos - window
    ensures flushed < q.right[0].streamPos + window
  {
    var p := q.right[0];
    assert q.right == [p] + q.right[1..];
    assert p in q.right;
    horizon' := FlushOne(q, found, initial, events, window, flushed, horizon);
    forall r | r in q.right[1..] ensures p.streamPos <= r.streamPos {
      var i :| 1 <= i < |q.right| && q.right[i] == r;
    }
  }

  lemma FlushNone(q: Queues, found: seq<RawPeak>, initial: seq<ValueAtPos>, events: seq<RawPeak>,
                  window: nat, flushed: int, horizon: int, now: int)
    requires Inv(q, found, initial, events, window, flushed, horizon)
    requires q.right == [] || now < q.right[0].streamPos + window
    ensures Inv(q, found, initial, events, window, if flushed <= now then now else flushed, horizon)
  {
    if flushed <= now {
      forall e | e in q.right ensures now < e.streamPos + window {
        var i :| 0 <= i < |q.right| && q.right[i] == e;
      }
      NothingToFlush(q, found, initial, events, window, flushed, horizon, now);
    }
  }

  // ----- One event

  /** An event that does not overturn a decision already taken. */
  ghost predicate Timely(events: seq<RawPeak>, e: RawPeak, window: nat, flushed: int) {
    && (Stored(e) ==> flushed < e.streamPos + window)
    && (forall x | x in events && Stored(x) && RightDominant(events, x.AtPos(), window) ::
          x.streamPos < e.streamPos <= x.streamPos + window <= flushed ==> e.value <= x.value)
  }

  lemma RightDominantNext(events: seq<RawPeak>, e: RawPeak, at: ValueAtPos, window: nat)
    ensures RightDominant(events + [e], at, window) <==>
            RightDominant(events, at, window)
            && (at.streamPos < e.streamPos <= at.streamPos + window ==> e.value <= at.value)
  {
    assert forall x :: x in events + [e] <==> x in events || x == e;
  }

  lemma EnqueueRight(right: seq<RawPeak>, events: seq<RawPeak>, e: RawPeak, window: nat, flushed: int)
    requires InOrder(events + [e])
    requires RightQueue(right, events, window, flushed)
    requires forall x :: x in events ==> x.streamPos <= flushed
    requires Stored(e) ==> flushed < e.streamPos + window
    ensures RightQueue(Enqueue(right, e, window), events + [e], window, flushed)
  {
    hide InOrder, Ascending, RightDominant, DropDominated;
    OrderOfLast(events, e);
    RightDescends(right, events, window, flushed);
    DropDominatedFilters(right, e, window);
    EnqueuedAscends(right, e, window);
    forall x ensures x in Enqueue(right, e, window) <==> x in events + [e] && Stored(x) && x.streamPos + window > flushed
                                                         && RightDominant(events + [e], x.AtPos(), window) {
      RightDominantNext(events, e, x.AtPos(), window);
      NewestIsDominant(events, e, window);
    }
  }

  lemma RightDescends(right: seq<RawPeak>, events: seq<RawPeak>, window: nat, flushed: int)
    requires RightQueue(right, events, window, flushed)
    requires forall x :: x in events ==> x.streamPos <= flushed
    ensures forall i, j :: 0 <= i < j < |right| ==> right[i].value >= right[j].value
  {
    forall i, j | 0 <= i < j < |right| ensures right[i].value >= right[j].value {
      assert right[i] in right && right[j] in right;
      assert RightDominant(events, right[i].AtPos(), window);
    }
  }

  lemma EnqueuedAscends(right: seq<RawPeak>, e: RawPeak, window: nat)
    requires Ascending(right) && DropDominated(right, e, window) <= right
    requires forall x :: x in right ==> x.streamPos < e.streamPos
    ensures Ascending(Enqueue(right, e, window))
  {
    hide DropDominated;
    var kept := DropDominated(right, e, window);
    forall i | 0 <= i < |kept| ensures kept[i] == right[i] && kept[i].streamPos < e.streamPos {
      assert right[i] in right;
    }
  }

  lemma NewestIsDominant(events: seq<RawPeak>, e: RawPeak, window: nat)
    requires forall x :: x in events ==> x.streamPos <= e.streamPos
    ensures RightDominant(events, e.AtPos(), window)
  {
  }

  lemma OrderOfLast(events: seq<RawPeak>, e: RawPeak)
    requires InOrder(events + [e])
    ensures InOrder(events)
    ensures forall x :: x in events ==> x.streamPos <= e.streamPos && (Stored(x) ==> x.streamPos < e.streamPos)
  {
    var events' := events + [e];
    forall i, j | 0 <= i < j < |events|
      ensures || events[i].streamPos < events[j].streamPos
              || (j == i + 1 && events[i].streamPos == events[j].streamPos && events[i].kind == Rising
                  && events[j].kind != Rising && events[i].value == events[j].value)
    {
      assert events'[i] == events[i] && events'[j] == events[j];
    }
    forall x | x in events ensures x.streamPos <= e.streamPos && (Stored(x) ==> x.streamPos < e.streamPos) {
      var i :| 0 <= i < |events| && events[i] == x;
      assert events'[i] == x && events'[|events|] == e;
    }
  }

  /** A timely event leaves what has been flushed as it was. */
  lemma RememberedNext(initial: seq<ValueAtPos>, events: seq<RawPeak>, e: RawPeak, m: ValueAtPos, window: nat, flushed: int)
    requires Timely(events, e, window, flushed)
    ensures Remembered(initial, events + [e], m, window, flushed) <==> Remembered(initial, events, m, window, flushed)
  {
    RightDominantNext(events, e, m, window);
    if Lockout([], events, m) {
      var x := StoredAt(events, m);
    }
  }

  lemma DominantNext(initial: seq<ValueAtPos>, events: seq<RawPeak>, e: RawPeak, p: RawPeak, window: nat, flushed: int)
    requires InOrder(events + [e]) && Timely(events, e, window, flushed)
    requires p.streamPos + window <= flushed
    ensures Dominant(initial, events + [e], p, window) <==> Dominant(initial, events, p, window)
  {
    OrderOfLast(events, e);
    RightDominantNext(events, e, p.AtPos(), window);
    if p in events && Stored(p) {
      forall m | Locks(m, p.AtPos(), window)
        ensures Lockout(initial, events + [e], m) <==> Lockout(initial, events, m)
      {
      }
    }
  }

  lemma EventAppended(q: Queues, found: seq<RawPeak>, initial: seq<ValueAtPos>, events: seq<RawPeak>, e: RawPeak,
                      window: nat, flushed: int, horizon: int)
    requires InOrder(events + [e])
    requires Inv(q, found, initial, events, window, flushed, horizon)
    requires Timely(events, e, window, flushed)
    requires forall x :: x in events ==> x.streamPos <= flushed
    ensures Inv(Queues(Enqueue(q.right, e, window), q.memory), found, initial, events + [e], window, flushed, horizon)
  {
    EnqueueRight(q.right, events, e, window, flushed);
    forall m ensures Remembered(initial, events + [e], m, window, flushed) <==> Remembered(initial, events, m, window, flushed) {
      RememberedNext(initial, events, e, m, window, flushed);
    }
    forall m | Unsurpassed(initial, events + [e], m, window, flushed) ensures Unsurpassed(initial, events, m, window, flushed) {
    }
    forall p: RawPeak | p.streamPos + window <= flushed
      ensures Dominant(initial, events + [e], p, window) <==> Dominant(initial, events, p, window)
    {
      DominantNext(initial, events, e, p, window, flushed);
    }
  }

  /** What has not been flushed yet is younger than the memory's horizon needs it to be. */
  ghost predicate HorizonFits(window: nat, flushed: int, horizon: int) {
    horizon <= flushed + 1 - 2 * window
  }

  /** The context in which a next event is expected. */
  ghost predicate Follows(initial: seq<ValueAtPos>, events: seq<RawPeak>, e: RawPeak, window: nat, flushed: int) {
    && InOrder(events + [e]) && RisesContinue(events + [e]) && InitialFirst(initial, events + [e])
    && Timely(events, e, window, flushed)
    && (forall x :: x in events ==> x.streamPos <= flushed)
  }

  function Later(a: int, b: int): int {
    if a <= b then b else a
  }

  /** An event keeps the queues and the report exact for the longer history. */
  lemma EventKeepsInv(q: Queues, found: seq<RawPeak>, initial: seq<ValueAtPos>, events: seq<RawPeak>, e: RawPeak,
                      window: nat, flushed: int, horizon: int) returns (horizon': int)
    requires Follows(initial, events, e, window, flushed)
    requires Inv(q, found, initial, events, window, flushed, horizon)
    requires HorizonFits(window, flushed, horizon)
    ensures var (q', more) := OnRawPeakEvent(q, e, window);
            Inv(q', found + more, initial, events + [e], window, Later(flushed, e.streamPos), horizon')
    ensures HorizonFits(window, Later(flushed, e.streamPos), horizon')
    ensures q.right != [] ==> Last(q.right).streamPos < e.streamPos
  {
    OrderOfLast(events, e);
    if q.right != [] {
      assert Last(q.right) in q.right;
    }
    EventAppended(q, found, initial, events, e, window, flushed, horizon);
    horizon' := FlushAll(Queues(Enqueue(q.right, e, window), q.memory), found, initial, events + [e], window, flushed, horizon, e.streamPos);
  }

  // ----- Purging

  /** What is dropped is in fact older than the limit, since nothing looks older than it is. */
  lemma {:induction false} DropAgedIsSuffix(memory: seq<ValueAtPos>, pos: int, limit: nat) returns (n: nat)
    requires forall m :: m in memory ==> m.streamPos <= pos
    ensures n <= |memory| && DropAged(memory, pos, limit) == memory[n..]
    ensures forall i :: 0 <= i < n ==> pos - memory[i].streamPos > limit
  {
    hide Wrap;
    n := 0;
    if memory != [] && Wrap(pos - memory[0].streamPos) > limit {
      LooksNoOlder(pos - memory[0].streamPos);
      var m := DropAgedIsSuffix(memory[1..], pos, limit);
      assert memory[1..][m..] == memory[m + 1..];
      n := m + 1;
    }
  }

  lemma LooksNoOlder(age: int)
    requires 0 <= age
    ensures Wrap(age) <= age
  {
  }

  lemma DropAgedKeepsYoung(memory: seq<ValueAtPos>, pos: int, limit: nat)
    requires MemoryOrdered(memory)
    requires forall m :: m in memory ==> m.streamPos <= pos
    ensures MemoryOrdered(DropAged(memory, pos, limit))
    ensures forall m :: m in DropAged(memory, pos, limit) ==> m in memory
    ensures forall m :: m in memory && pos - m.streamPos <= limit ==> m in DropAged(memory, pos, limit)
  {
    hide Wrap, DropAged;
    var n := DropAgedIsSuffix(memory, pos, limit);
    forall m | m in memory && pos - m.streamPos <= limit ensures m in memory[n..] {
      var i :| 0 <= i < |memory| && memory[i] == m;
      assert memory[n..][i - n] == m;
    }
  }

  lemma PurgedMemory(memory: seq<ValueAtPos>, initial: seq<ValueAtPos>, events: seq<RawPeak>,
                     window: nat, flushed: int, horizon: int, pos: int)
    requires MemoryQueue(memory, initial, events, window, flushed, horizon)
    requires flushed <= pos && forall m :: m in initial ==> m.streamPos <= pos
    ensures MemoryQueue(DropAged(memory, pos, 3 * window + 1), initial, events, window, flushed, Later(horizon, pos - 3 * window - 1))
  {
    DropAgedKeepsYoung(memory, pos, 3 * window + 1);
  }

  /** A purge keeps everything exact unless it forgets a value that still locks out a pending peak. */
  lemma PurgeKeepsInv(q: Queues, found: seq<RawPeak>, initial: seq<ValueAtPos>, events: seq<RawPeak>,
                      window: nat, flushed: int, horizon: int, pos: int) returns (horizon': int)
    requires InOrder(events) && RisesContinue(events) && InitialFirst(initial, events)
    requires Inv(q, found, initial, events, window, flushed, horizon)
    requires HorizonFits(window, flushed, horizon)
    requires flushed <= pos && forall x :: x in events && Stored(x) ==> x.streamPos < pos
    requires forall m :: m in initial ==> m.streamPos <= pos
    requires forall p :: p in q.right && p.kind == Peak && LockedOut(initial, events, p.AtPos(), window)
               ==> pos - 2 * window - 1 <= p.streamPos
    ensures var (q', more) := PurgeUpUntil(q, pos, window);
            Inv(q', found + more, initial, events, window, pos, horizon')
    ensures HorizonFits(window, pos, horizon')
  {
    if q.right == [] {
      horizon' := horizon;
      assert found + [] == found;
      FlushNone(q, found, initial, events, window, flushed, horizon, pos);
    } else {
      assert Last(q.right) in q.right;
      PurgedMemory(q.memory, initial, events, window, flushed, horizon, pos);
      horizon' := FlushAll(q.(memory := DropAged(q.memory, pos, 3 * window + 1)), found, initial, events, window, flushed,
                           Later(horizon, pos - 3 * window - 1), pos);
    }
  }

  // ----- Whole runs of events

  /** Feeds all events to an isolator with the given queues. */
  function Feed(q: Queues, events: seq<RawPeak>, window: nat): (Queues, seq<RawPeak>)
    decreases |events|
  {
    if events == [] then (q, [])
    else
      var (q1, found) := Feed(q, DropLast(events), window);
      var (q2, more) := OnRawPeakEvent(q1, Last(events), window);
      (q2, found + more)
  }

  /** Feeds all events to an isolator that starts with the given memory. */
  function Run(initial: seq<ValueAtPos>, events: seq<RawPeak>, window: nat): (Queues, seq<RawPeak>) {
    Feed(Queues([], initial), events, window)
  }

  lemma EmptyInv(initial: seq<ValueAtPos>, window: nat, flushed: int)
    requires |initial| <= 1
    ensures Inv(Queues([], initial), [], initial, [], window, flushed, flushed + 1 - 2 * window)
  {
  }

  lemma PrefixFollows(initial: seq<ValueAtPos>, events: seq<RawPeak>)
    requires InOrder(events) && RisesContinue(events) && InitialFirst(initial, events) && events != []
    ensures InOrder(DropLast(events)) && RisesContinue(DropLast(events)) && InitialFirst(initial, DropLast(events))
    ensures events == DropLast(events) + [Last(events)]
  {
    var before := DropLast(events);
    assert events == before + [Last(events)];
    OrderOfLast(before, Last(events));
    forall i | 0 <= i < |before| - 1 && before[i].kind == Rising ensures before[i].value <= before[i + 1].value {
      assert events[i] == before[i];
    }
  }

  lemma {:induction false} RunInv(initial: seq<ValueAtPos>, events: seq<RawPeak>, window: nat, start: int) returns (horizon: int)
    requires InOrder(events) && RisesContinue(events) && InitialFirst(initial, events)
    requires 1 <= window && forall x :: x in events ==> start < x.streamPos
    ensures var (q, found) := Run(initial, events, window);
            var flushed := if events == [] then start else Last(events).streamPos;
            Inv(q, found, initial, events, window, flushed, horizon) && HorizonFits(window, flushed, horizon)
    decreases |events|
  {
    if events == [] {
      horizon := start + 1 - 2 * window;
      EmptyInv(initial, window, start);
    } else {
      var before, e := DropLast(events), Last(events);
      PrefixFollows(initial, events);
      var horizon1 := RunInv(initial, before, window, start);
      var (q, found) := Run(initial, before, window);
      var flushed := if before == [] then start else Last(before).streamPos;
      OrderOfLast(before, e);
      NextIsTimely(before, e, window, flushed);
      horizon := EventKeepsInv(q, found, initial, before, e, window, flushed, horizon1);
    }
  }

  /** Without purges every event is timely. */
  lemma NextIsTimely(before: seq<RawPeak>, e: RawPeak, window: nat, flushed: int)
    requires InOrder(before + [e]) && 1 <= window
    requires before != [] ==> flushed == Last(before).streamPos
    requires before == [] ==> flushed < e.streamPos
    ensures Timely(before, e, window, flushed) && flushed <= e.streamPos
    ensures forall x :: x in before ==> x.streamPos <= flushed
  {
    OrderOfLast(before, e);
    if before != [] {
      var last := Last(before);
      var events := before + [e];
      assert last in before;
      assert before == DropLast(before) + [last];
      OrderOfLast(DropLast(before), last);
      assert events[|before| - 1] == last && events[|before|] == e;
    }
  }

  /** The isolator reports exactly the dominant peaks that are at least a window old: peaks with
      nothing larger in the window after them and nothing as large in the window before them,
      each once and in order. */
  lemma IsolatorIsExact(initial: seq<ValueAtPos>, events: seq<RawPeak>, window: nat)
    requires InOrder(events) && RisesContinue(events) && InitialFirst(initial, events)
    requires 1 <= window && events != []
    ensures Ascending(Run(initial, events, window).1)
    ensures forall p :: p in Run(initial, events, window).1 <==>
              Dominant(initial, events, p, window) && Last(events).streamPos - p.streamPos >= window
  {
    forall x | x in events ensures events[0].streamPos - 1 < x.streamPos {
      var i :| 0 <= i < |events| && events[i] == x;
    }
    var horizon := RunInv(initial, events, window, events[0].streamPos - 1);
  }
}
