/** What the peak finder (dsp/peakfinder.hpp:249-517) does to its stored positions. These are
    unsigned 64-bit numbers: sums and differences wrap around, and so does every age that the
    source computes. The classes `PeakIsolator` and `PeakFinder` carry out these functions;
    `PeakClock` says when they do what `DominantPeaks` does on an unbounded clock. */
module StoredPeaks {
  import opened RingMath
  import opened PeakTypes
  import opened PeakDetector
  import opened PeakPipeline
  import opened Sequences
  import D = DominantPeaks

  /** The unsigned difference of two positions. */
  function Age(now: int, pos: int): Position {
    Wrap(now - pos)
  }

  // ----- SlidingWindowDominantPeakIsolator

  function DropDominated(right: seq<RawPeak>, e: RawPeak, window: nat): seq<RawPeak> {
    if right != [] && Last(right).value < e.value && Age(e.streamPos, Last(right).streamPos) <= window
    then DropDominated(DropLast(right), e, window)
    else right
  }

  function DropOld(memory: seq<ValueAtPos>, pos: int, limit: nat): seq<ValueAtPos> {
    if memory != [] && Age(pos, memory[0].streamPos) > limit
    then DropOld(memory[1..], pos, limit)
    else memory
  }

  function LeftDominators(memory: seq<ValueAtPos>, p: RawPeak, window: nat): seq<ValueAtPos> {
    D.DropSmaller(DropOld(memory, p.streamPos, window), p.value)
  }

  predicate FlushIsDue(q: D.Queues, now: int, window: nat) {
    q.right != [] && Age(now, q.right[0].streamPos) >= window
  }

  /** The queues once the front entry has moved to the memory. */
  function FlushedFront(q: D.Queues, window: nat): D.Queues
    requires q.right != []
  {
    D.Queues(q.right[1..], LeftDominators(q.memory, q.right[0], window) + [q.right[0].AtPos()])
  }

  function FrontVerdict(q: D.Queues, window: nat): seq<RawPeak>
    requires q.right != []
  {
    D.Accepted(q.right[0], LeftDominators(q.memory, q.right[0], window))
  }

  function Flush(q: D.Queues, now: int, window: nat): (D.Queues, seq<RawPeak>)
    decreases |q.right|
  {
    if FlushIsDue(q, now, window) then
      var (rest, found) := Flush(FlushedFront(q, window), now, window);
      (rest, FrontVerdict(q, window) + found)
    else
      (q, [])
  }

  predicate Promotes(q: D.Queues, e: RawPeak) {
    q.right != [] && Last(q.right).streamPos == e.streamPos
  }

  function Enqueue(q: D.Queues, e: RawPeak, window: nat): D.Queues {
    q.(right := DropDominated(q.right, e, window) + (if e.kind == Rising then [] else [e]))
  }

  function OnRawPeakEvent(q: D.Queues, e: RawPeak, window: nat): (D.Queues, seq<RawPeak>) {
    if Promotes(q, e) then
      (q.(right := DropLast(q.right) + [Last(q.right).(kind := e.kind)]), [])
    else
      Flush(Enqueue(q, e, window), e.streamPos, window)
  }

  /** Whether the youngest pending entry comes before `pos`, as far as the ring order can tell. */
  predicate PurgeIsDue(q: D.Queues, pos: int) {
    q.right != [] && !RingGreaterEq(Wrap(Last(q.right).streamPos), Wrap(pos))
  }

  function Purged(q: D.Queues, pos: int, window: nat): D.Queues {
    q.(memory := DropOld(q.memory, pos, 3 * window + 1))
  }

  function PurgeUpUntil(q: D.Queues, pos: int, window: nat): (D.Queues, seq<RawPeak>) {
    if PurgeIsDue(q, pos) then Flush(Purged(q, pos, window), pos, window) else (q, [])
  }

  function Feed(q: D.Queues, events: seq<RawPeak>, window: nat): (D.Queues, seq<RawPeak>)
    decreases |events|
  {
    if events == [] then (q, [])
    else
      var (q1, found) := Feed(q, DropLast(events), window);
      var (q2, more) := OnRawPeakEvent(q1, Last(events), window);
      (q2, found + more)
  }

  // ----- Neither deque overflows

  /** patternSize(), to which both deques are sized. */
  function Capacity(window: nat): nat {
    2 * window + 1
  }

  predicate RoomToRemember(q: D.Queues, window: nat)
    requires q.right != []
  {
    |LeftDominators(q.memory, q.right[0], window)| < Capacity(window)
  }

  predicate RoomToFlush(q: D.Queues, now: int, window: nat)
    decreases |q.right|
  {
    FlushIsDue(q, now, window) ==> RoomToRemember(q, window) && RoomToFlush(FlushedFront(q, window), now, window)
  }

  predicate RoomForEvent(q: D.Queues, e: RawPeak, window: nat) {
    Promotes(q, e)
    || (|Enqueue(q, e, window).right| <= Capacity(window) && RoomToFlush(Enqueue(q, e, window), e.streamPos, window))
  }

  predicate RoomToPurge(q: D.Queues, pos: int, window: nat) {
    PurgeIsDue(q, pos) ==> RoomToFlush(Purged(q, pos, window), pos, window)
  }

  predicate RoomToFeed(q: D.Queues, events: seq<RawPeak>, window: nat)
    decreases |events|
  {
    events != [] ==>
      RoomToFeed(q, DropLast(events), window) && RoomForEvent(Feed(q, DropLast(events), window).0, Last(events), window)
  }

  // ----- StreamingPeakFinder

  datatype StoredState = StoredState(isSubsequentBlock: bool, detector: DetectorState, queues: D.Queues)

  const FRESH: StoredState := StoredState(false, START, D.Queues([], []))

  /** The queues that a block starts from. */
  function StartQueues(st: StoredState, data: seq<Value>, start: Position): D.Queues
    requires data != [] || st.isSubsequentBlock
  {
    if st.isSubsequentBlock then st.queues
    else st.queues.(memory := st.queues.memory + [ValueAtPos(start, data[0])])
  }

  /** The block's events, as the isolator gets them. */
  function BlockEvents(st: StoredState, data: seq<Value>, start: Position, threshold: int, window: nat): seq<RawPeak>
    requires 2 * window < RING
  {
    StampAll(start, Detect(st.detector, data, 0, threshold, TooBigFor(window)).1)
  }

  function DetectorAfter(st: StoredState, data: seq<Value>, threshold: int, window: nat): DetectorState
    requires 2 * window < RING
  {
    Detect(st.detector, data, 0, threshold, TooBigFor(window)).0
  }

  /** The position up to which a block's purge settles what is pending. */
  function PurgePosition(d: DetectorState, q: D.Queues, data: seq<Value>, start: Position, window: nat): Position
    requires 2 * window < RING
  {
    Wrap(Wrap(start + |data|) - PurgeDelay(d, q, TooBigFor(window)))
  }

  /** Processes a block whose first sample has the position `start`. */
  function ProcessBlock(st: StoredState, data: seq<Value>, start: Position, threshold: int, window: nat): (StoredState, seq<RawPeak>)
    requires data != [] || st.isSubsequentBlock
    requires 2 * window < RING
  {
    var d := DetectorAfter(st, data, threshold, window);
    var (q1, found) := Feed(StartQueues(st, data, start), BlockEvents(st, data, start, threshold, window), window);
    var (q2, more) := PurgeUpUntil(q1, PurgePosition(d, q1, data, start, window), window);
    (StoredState(true, d, q2), found + more)
  }

  predicate RoomForBlock(st: StoredState, data: seq<Value>, start: Position, threshold: int, window: nat)
    requires data != [] || st.isSubsequentBlock
    requires 2 * window < RING
  {
    var events := BlockEvents(st, data, start, threshold, window);
    var q := StartQueues(st, data, start);
    var q1 := Feed(q, events, window).0;
    && |q.memory| <= Capacity(window)
    && RoomToFeed(q, events, window)
    && RoomToPurge(q1, PurgePosition(DetectorAfter(st, data, threshold, window), q1, data, start, window), window)
  }

  /** A new finder gets a stream in the given blocks. */
  function ProcessBlocks(blocks: seq<seq<Value>>, start: Position, threshold: int, window: nat): (StoredState, seq<RawPeak>)
    requires NonEmptyBlocks(blocks) && 2 * window < RING
    decreases |blocks|
  {
    if blocks == [] then (FRESH, [])
    else
      var (st, found) := ProcessBlocks(DropLast(blocks), start, threshold, window);
      var (st', more) := ProcessBlock(st, Last(blocks), Wrap(start + |Flatten(DropLast(blocks))|), threshold, window);
      (st', found + more)
  }

  predicate RoomForBlocks(blocks: seq<seq<Value>>, start: Position, threshold: int, window: nat)
    requires NonEmptyBlocks(blocks) && 2 * window < RING
    decreases |blocks|
  {
    blocks != [] ==>
      && RoomForBlocks(DropLast(blocks), start, threshold, window)
      && RoomForBlock(ProcessBlocks(DropLast(blocks), start, threshold, window).0, Last(blocks),
                      Wrap(start + |Flatten(DropLast(blocks))|), threshold, window)
  }
}
