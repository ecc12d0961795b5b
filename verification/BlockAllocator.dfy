/** The lock-free block allocator of the tracer: 16 buckets, each with one atomic counter that
    every thread adds to, and subtracts from again when it finds the bucket full; and what the
    threads write to the blocks they are granted (third-party/uu.spdr/src/spdr.c:45-102, 619-675).

    A step is one atomic access, one write to a granted block, or what a thread does without
    touching anything shared; the steps of any number of threads interleave in any order. The
    counters are 64-bit words. A run ends with the first copy that leaves its bucket's array, since
    the counters and functions of the next bucket lie behind it. */
module BlockAllocator {
  import opened RingMath
  import opened Sequences

  const BUCKET_COUNT: nat := 16
  const INT_MAX: nat := 0x7FFF_FFFF
  // sizeof(struct SPDR_Block) on a 64-bit target: its type and count, and an event
  const BLOCK_SIZE: nat := 208
  const HEADER_SIZE: nat := 16
  const EVENT_SIZE: nat := 192
  const MAX_COUNT: nat := 1 + INT_MAX / BLOCK_SIZE
  const MAX_STRINGS: nat := 3

  datatype BlockType = EventBlock | StrBlock

  /** What a successful call returns: count blocks from start on, for `size` bytes of data. */
  datatype Grant = Grant(start: nat, count: nat, kind: BlockType, size: nat)

  /** Who wrote a byte, and as what. */
  datatype Content = HeaderOf(grant: Grant) | DataOf(grant: Grant)

  /** grants lists the successful calls in the order of their atomic additions; memory maps the
      bytes written so far, counted from the first block on. */
  datatype Bucket = Bucket(capacity: nat, next: Position, grants: seq<Grant>, memory: map<nat, Content>)

  /** An event tries the buckets from `first` on and still has all its strings to copy; a string
      has only its event's bucket. The sizes of strings include the terminator. */
  datatype Job = RecordEvent(first: nat, tries: nat, sizes: seq<nat>) | CopyString(size: nat, rest: seq<nat>)

  datatype Thread =
    | Idle
    | Asking(bucket: nat, count: nat, job: Job)
    | Refused(bucket: nat, count: nat, job: Job)
    | Owning(bucket: nat, grant: Grant, rest: seq<nat>)
    | Copying(bucket: nat, grant: Grant, rest: seq<nat>)
    | Recording(bucket: nat, rest: seq<nat>)
    | GaveUp(first: nat)

  datatype State = State(buckets: seq<Bucket>, threads: seq<Thread>, overrun: bool)

  datatype Step =
    | BeginEvent(first: nat, sizes: seq<nat>)
    | FetchAndAdd
    | TakeBack
    | WriteHeader
    | CopyData
    | BeginString
    | Return

  function KindOf(job: Job): BlockType {
    if job.CopyString? then StrBlock else EventBlock
  }

  function SizeOf(job: Job): nat {
    if job.CopyString? then job.size else EVENT_SIZE
  }

  /** The strings that are still to be copied after the job. */
  function RestOf(job: Job): seq<nat> {
    if job.CopyString? then job.rest else job.sizes
  }

  /** Where growlog goes on after a refusal; a string that is refused is left out. */
  function AfterRefusal(bucket: nat, job: Job): Thread {
    if job.CopyString? then
      Recording(bucket, job.rest)
    else if job.tries + 1 < BUCKET_COUNT then
      Asking((job.first + job.tries + 1) % BUCKET_COUNT, 1, job.(tries := job.tries + 1))
    else
      GaveUp(job.first)
  }

  /** The thread's next state and the bucket's after an atomic addition. */
  function AddToCounter(bucket: Bucket, t: Thread): (Bucket, Thread)
    requires t.Asking?
  {
    var i := bucket.next;
    var added := bucket.(next := Wrap(bucket.next + t.count));
    if i >= bucket.capacity then
      (added, Refused(t.bucket, t.count, t.job))
    else
      var grant := Grant(i, t.count, KindOf(t.job), SizeOf(t.job));
      (added.(grants := bucket.grants + [grant]), Owning(t.bucket, grant, RestOf(t.job)))
  }

  function Written(memory: map<nat, Content>, from: nat, to: nat, content: Content): (r: map<nat, Content>)
    ensures forall a: nat :: a in r <==> a in memory || from <= a < to
    ensures forall a :: a in r ==> r[a] == if from <= a < to then content else memory[a]
    decreases if from < to then to - from else 0
  {
    if from >= to then memory else Written(memory, from, to - 1, content)[to - 1 := content]
  }

  function Address(g: Grant): nat {
    g.start * BLOCK_SIZE
  }

  /** The block's count and type. */
  function HeaderWritten(memory: map<nat, Content>, g: Grant): map<nat, Content> {
    Written(Written(memory, Address(g) + 8, Address(g) + HEADER_SIZE, HeaderOf(g)), Address(g), Address(g) + 4, HeaderOf(g))
  }

  /** The event, or the text of the string. */
  function DataWritten(memory: map<nat, Content>, g: Grant): map<nat, Content> {
    Written(memory, Address(g) + HEADER_SIZE, Address(g) + HEADER_SIZE + g.size, DataOf(g))
  }

  /** The copy ends within the array. */
  predicate FitsArray(g: Grant, capacity: nat) {
    Address(g) + HEADER_SIZE + g.size <= capacity * BLOCK_SIZE
  }

  predicate Enabled(s: State, who: nat, step: Step) {
    && !s.overrun && who < |s.threads|
    && var t := s.threads[who];
       match step
       case BeginEvent(first, sizes) =>
         t.Idle? && first < BUCKET_COUNT && |sizes| <= MAX_STRINGS && forall k :: 0 <= k < |sizes| ==> sizes[k] >= 1
       case FetchAndAdd => t.Asking? && t.bucket < |s.buckets|
       case TakeBack => t.Refused? && t.bucket < |s.buckets|
       case WriteHeader => t.Owning? && t.bucket < |s.buckets|
       case CopyData => t.Copying? && t.bucket < |s.buckets|
       case BeginString => t.Recording? && t.rest != []
       case Return => t.GaveUp? || (t.Recording? && t.rest == [])
  }

  /** The bucket that a step touches, if any, and what becomes of it. */
  function BucketAfter(bucket: Bucket, t: Thread): Bucket {
    match t
    case Asking(_, _, _) => AddToCounter(bucket, t).0
    case Refused(_, count, _) => bucket.(next := Wrap(bucket.next - count))
    case Owning(_, grant, _) => bucket.(memory := HeaderWritten(bucket.memory, grant))
    case Copying(_, grant, _) => bucket.(memory := DataWritten(bucket.memory, grant))
    case _ => bucket
  }

  function ThreadAfter(s: State, who: nat, step: Step): Thread
    requires Enabled(s, who, step)
  {
    var t := s.threads[who];
    match step
    case BeginEvent(first, sizes) => Asking(first, 1, RecordEvent(first, 0, sizes))
    case FetchAndAdd => AddToCounter(s.buckets[t.bucket], t).1
    case TakeBack => AfterRefusal(t.bucket, t.job)
    case WriteHeader => Copying(t.bucket, t.grant, t.rest)
    case CopyData => Recording(t.bucket, t.rest)
    case BeginString =>
      if t.rest[0] > INT_MAX then Recording(t.bucket, t.rest[1..])
      else Asking(t.bucket, 1 + t.rest[0] / BLOCK_SIZE, CopyString(t.rest[0], t.rest[1..]))
    case Return => Idle
  }

  predicate TouchesBucket(step: Step) {
    step.FetchAndAdd? || step.TakeBack? || step.WriteHeader? || step.CopyData?
  }

  function After(s: State, who: nat, step: Step): State
    requires Enabled(s, who, step)
  {
    var t := s.threads[who];
    State(if TouchesBucket(step) then s.buckets[t.bucket := BucketAfter(s.buckets[t.bucket], t)] else s.buckets,
          s.threads[who := ThreadAfter(s, who, step)],
          step.CopyData? && !FitsArray(t.grant, s.buckets[t.bucket].capacity))
  }

  ghost predicate Start(s: State) {
    && |s.buckets| == BUCKET_COUNT
    && (forall b :: 0 <= b < |s.buckets| ==>
          s.buckets[b].next == 0 && s.buckets[b].grants == [] && s.buckets[b].memory == map[])
    && (forall who :: 0 <= who < |s.threads| ==> s.threads[who] == Idle)
    && !s.overrun
    // All pending additions of all threads fit the counter's word.
    && (forall b :: 0 <= b < |s.buckets| ==> s.buckets[b].capacity + (|s.threads| + 2) * MAX_COUNT < RING)
  }

  ghost predicate Next(s: State, who: nat, step: Step, s': State) {
    Enabled(s, who, step) && s' == After(s, who, step)
  }

  ghost predicate Run(states: seq<State>, whos: seq<nat>, steps: seq<Step>) {
    && |states| == |steps| + 1 == |whos| + 1
    && Start(states[0])
    && forall i :: 0 <= i < |steps| ==> Next(states[i], whos[i], steps[i], states[i + 1])
  }

  // The invariant.

  /** Blocks granted so far. */
  ghost function Total(grants: seq<Grant>): nat {
    if grants == [] then 0 else Total(DropLast(grants)) + Last(grants).count
  }

  /** What a thread has added and will take back. */
  ghost function Debt(t: Thread, bucket: nat): nat {
    if t.Refused? && t.bucket == bucket then t.count else 0
  }

  ghost function Pending(threads: seq<Thread>, bucket: nat): nat {
    if threads == [] then 0 else Pending(DropLast(threads), bucket) + Debt(Last(threads), bucket)
  }

  /** No call on the bucket can succeed any more. */
  ghost predicate Full(bucket: Bucket) {
    Total(bucket.grants) >= bucket.capacity
  }

  /** The grants follow each other without gap or overlap, from block 0 on. */
  ghost predicate Tiles(grants: seq<Grant>) {
    grants == [] || (Tiles(DropLast(grants)) && Last(grants).start == Total(DropLast(grants)) && Last(grants).count >= 1)
  }

  /** An event is a single block; a string has as many as its size asks for, and its event comes
      before it. */
  ghost predicate GrantFits(g: Grant, capacity: nat) {
    && g.start < capacity && g.count <= MAX_COUNT
    && (g.kind == EventBlock ==> g.count == 1 && g.size == EVENT_SIZE)
    && (g.kind == StrBlock ==> g.count == 1 + g.size / BLOCK_SIZE && g.size <= INT_MAX && g.start >= 1)
  }

  ghost predicate GrantsFit(bucket: Bucket) {
    forall g :: g in bucket.grants ==> GrantFits(g, bucket.capacity)
  }

  ghost predicate BucketFits(bucket: Bucket, pending: nat, threadCount: nat) {
    && Tiles(bucket.grants)
    && GrantsFit(bucket)
    && bucket.next == Wrap(Total(bucket.grants) + pending)
    && (pending > 0 ==> Full(bucket))
    && bucket.capacity + (threadCount + 2) * MAX_COUNT < RING
  }

  ghost predicate ThreadFits(t: Thread, buckets: seq<Bucket>)
    requires |buckets| == BUCKET_COUNT
  {
    match t
    case Idle => true
    case Asking(b, count, job) => b < BUCKET_COUNT && 1 <= count <= MAX_COUNT && JobFits(b, count, job, buckets)
    case Refused(b, count, job) =>
      b < BUCKET_COUNT && 1 <= count <= MAX_COUNT && JobFits(b, count, job, buckets) && Full(buckets[b])
    case Owning(b, grant, _) => b < BUCKET_COUNT && grant in buckets[b].grants
    case Copying(b, grant, _) => b < BUCKET_COUNT && grant in buckets[b].grants
    case Recording(b, _) => b < BUCKET_COUNT && buckets[b].grants != []
    case GaveUp(first) => forall b :: 0 <= b < BUCKET_COUNT ==> Full(buckets[b])
  }

  /** An event has found all buckets before the current one full; a string's event is in its bucket. */
  ghost predicate JobFits(b: nat, count: nat, job: Job, buckets: seq<Bucket>)
    requires |buckets| == BUCKET_COUNT && b < BUCKET_COUNT
  {
    match job
    case RecordEvent(first, tries, _) =>
      && count == 1 && tries < BUCKET_COUNT && first < BUCKET_COUNT
      && b == (first + tries) % BUCKET_COUNT
      && forall j :: 0 <= j < tries ==> Full(buckets[Probe(first, j)])
    case CopyString(size, _) => count == 1 + size / BLOCK_SIZE && size <= INT_MAX && buckets[b].grants != []
  }

  ghost function Probe(first: nat, j: nat): (b: nat)
    ensures b < BUCKET_COUNT
  {
    (first + j) % BUCKET_COUNT
  }

  ghost predicate Inv(s: State) {
    && |s.buckets| == BUCKET_COUNT
    && (forall b: nat :: b < BUCKET_COUNT ==> BucketFits(s.buckets[b], Pending(s.threads, b), |s.threads|))
    && (forall t :: t in s.threads ==> ThreadFits(t, s.buckets))
  }

  lemma {:induction false} PendingUpdate(threads: seq<Thread>, who: nat, t: Thread, b: nat)
    requires who < |threads|
    ensures Pending(threads[who := t], b) == Pending(threads, b) - Debt(threads[who], b) + Debt(t, b)
    ensures Pending(threads, b) >= Debt(threads[who], b)
  {
    var updated := threads[who := t];
    if who == |threads| - 1 {
      assert DropLast(updated) == DropLast(threads);
    } else {
      assert DropLast(updated) == DropLast(threads)[who := t];
      PendingUpdate(DropLast(threads), who, t, b);
    }
  }

  lemma {:induction false} PendingIsBounded(threads: seq<Thread>, b: nat)
    requires forall i :: 0 <= i < |threads| && threads[i].Refused? ==> threads[i].count <= MAX_COUNT
    ensures Pending(threads, b) <= |threads| * MAX_COUNT
  {
    if threads != [] {
      PendingIsBounded(DropLast(threads), b);
    }
  }

  lemma {:induction false} NothingPending(threads: seq<Thread>, b: nat)
    requires forall who :: 0 <= who < |threads| ==> threads[who] == Idle
    ensures Pending(threads, b) == 0
  {
    if threads != [] {
      NothingPending(DropLast(threads), b);
    }
  }

  lemma TotalGrows(grants: seq<Grant>, g: Grant)
    ensures Total(grants + [g]) == Total(grants) + g.count
    ensures Tiles(grants + [g]) <==> Tiles(grants) && g.start == Total(grants) && g.count >= 1
  {
    assert DropLast(grants + [g]) == grants;
  }

  /** Only the last grant can reach over the capacity. */
  lemma TotalIsBounded(bucket: Bucket)
    requires Tiles(bucket.grants) && GrantsFit(bucket)
    ensures Total(bucket.grants) < bucket.capacity + MAX_COUNT
  {
    if bucket.grants != [] {
      assert Last(bucket.grants) in bucket.grants;
      assert GrantFits(Last(bucket.grants), bucket.capacity);
    }
  }

  /** The counter does not wrap: it is the sum of the grants and the pending additions. */
  lemma CounterIsExact(bucket: Bucket, pending: nat, threadCount: nat)
    requires BucketFits(bucket, pending, threadCount) && pending <= threadCount * MAX_COUNT
    ensures bucket.next == Total(bucket.grants) + pending
  {
    TotalIsBounded(bucket);
  }

  lemma {:induction false} GrantsCount(grants: seq<Grant>)
    requires Tiles(grants) && grants != []
    ensures Total(grants) >= 1
  {
  }

  /** An atomic addition: granted if the bucket is not full, else a debt. */
  lemma AdditionKeepsBucket(bucket: Bucket, t: Thread, pending: nat, threadCount: nat)
    requires BucketFits(bucket, pending, threadCount) && pending <= threadCount * MAX_COUNT
    requires t.Asking? && 1 <= t.count <= MAX_COUNT && (t.job.RecordEvent? ==> t.count == 1)
    requires t.job.CopyString? ==> t.count == 1 + t.job.size / BLOCK_SIZE && t.job.size <= INT_MAX && bucket.grants != []
    ensures var (bucket', t') := AddToCounter(bucket, t);
      if Full(bucket) then
        t' == Refused(t.bucket, t.count, t.job) && bucket'.grants == bucket.grants
        && BucketFits(bucket', pending + t.count, threadCount)
      else
        pending == 0
        && t' == Owning(t.bucket, Grant(Total(bucket.grants), t.count, KindOf(t.job), SizeOf(t.job)), RestOf(t.job))
        && bucket'.grants == bucket.grants + [t'.grant]
        && BucketFits(bucket', 0, threadCount)
  {
    hide Wrap, Tiles, Total;
    CounterIsExact(bucket, pending, threadCount);
    WrapAdds(Total(bucket.grants) + pending, t.count);
    TotalGrows(bucket.grants, Grant(bucket.next, t.count, KindOf(t.job), SizeOf(t.job)));
    if bucket.grants != [] {
      GrantsCount(bucket.grants);
    }
  }

  lemma WrapAdds(a: int, b: int)
    ensures Wrap(Wrap(a) + b) == Wrap(a + b)
  {
    WrapPeriodic(a + b, -(a / RING));
  }

  /** What every step leaves of the grants: they grow at the end, and not in a full bucket. */
  ghost predicate Grows(buckets: seq<Bucket>, buckets': seq<Bucket>) {
    && |buckets'| == |buckets|
    && forall b :: 0 <= b < |buckets| ==> GrowsOne(buckets[b], buckets'[b])
  }

  ghost predicate GrowsOne(bucket: Bucket, bucket': Bucket) {
    && bucket'.capacity == bucket.capacity
    && bucket.grants <= bucket'.grants
    && (Full(bucket) ==> bucket'.grants == bucket.grants)
  }

  lemma ThreadStillFits(t: Thread, buckets: seq<Bucket>, buckets': seq<Bucket>)
    requires |buckets| == BUCKET_COUNT && Grows(buckets, buckets') && ThreadFits(t, buckets)
    ensures ThreadFits(t, buckets')
  {
    hide Total;
    assert forall b :: 0 <= b < BUCKET_COUNT ==> GrowsOne(buckets[b], buckets'[b]);
  }

  lemma OthersStay<T>(threads: seq<T>, who: nat, t: T, x: T)
    requires who < |threads|
    ensures x in threads && x != threads[who] ==> x in threads[who := t]
    ensures x in threads[who := t] ==> x == t || x in threads
    ensures t in threads[who := t]
  {
    if x in threads && x != threads[who] {
      var i :| 0 <= i < |threads| && threads[i] == x;
      assert threads[who := t][i] == x;
    }
    assert threads[who := t][who] == t;
  }

  /** A step of a thread that touches at most one bucket keeps the invariant if it does so for
      that thread and that bucket. */
  lemma LocalStepKeepsInv(s: State, who: nat, t: Thread, b: nat, bucket: Bucket, s': State)
    requires Inv(s) && who < |s.threads| && b < BUCKET_COUNT
    requires GrowsOne(s.buckets[b], bucket)
    requires BucketFits(bucket, Pending(s.threads[who := t], b), |s.threads|)
    requires ThreadFits(t, s.buckets[b := bucket])
    requires forall other :: other != b ==> Debt(s.threads[who], other) == Debt(t, other) == 0
    requires s'.buckets == s.buckets[b := bucket] && s'.threads == s.threads[who := t]
    ensures Inv(s') && Grows(s.buckets, s'.buckets)
  {
    hide Total, Tiles, BucketFits, ThreadFits, Pending, GrowsOne, Debt;
    var threads', buckets' := s.threads[who := t], s.buckets[b := bucket];
    assert Grows(s.buckets, buckets') by {
      forall other | 0 <= other < BUCKET_COUNT ensures GrowsOne(s.buckets[other], buckets'[other]) {
        GrowsReflexive(s.buckets[other]);
      }
    }
    forall other: nat | other < BUCKET_COUNT
      ensures BucketFits(buckets'[other], Pending(threads', other), |threads'|)
    {
      PendingUpdate(s.threads, who, t, other);
    }
    forall x | x in threads' ensures ThreadFits(x, buckets') {
      OthersStay(s.threads, who, t, x);
      if x in s.threads {
        ThreadStillFits(x, s.buckets, buckets');
      }
    }
  }

  lemma GrowsReflexive(bucket: Bucket)
    ensures GrowsOne(bucket, bucket)
  {
  }

  lemma PendingFits(s: State, b: nat)
    requires Inv(s) && b < BUCKET_COUNT
    ensures Pending(s.threads, b) <= |s.threads| * MAX_COUNT
  {
    forall i | 0 <= i < |s.threads| ensures ThreadFits(s.threads[i], s.buckets) {
      assert s.threads[i] in s.threads;
    }
    PendingIsBounded(s.threads, b);
  }

  lemma FetchAndAddKeepsInv(s: State, who: nat, s': State)
    requires Inv(s) && Next(s, who, FetchAndAdd, s')
    ensures Inv(s') && Grows(s.buckets, s'.buckets)
  {
    hide Total, Tiles, BucketFits, Pending;
    var t := s.threads[who];
    var b, before := t.bucket, s.buckets[t.bucket];
    assert t in s.threads;
    var (bucket, t') := AddToCounter(before, t);
    PendingFits(s, b);
    AdditionKeepsBucket(before, t, Pending(s.threads, b), |s.threads|);
    PendingUpdate(s.threads, who, t', b);
    LocalStepKeepsInv(s, who, t', b, bucket, s');
  }

  lemma TakeBackKeepsInv(s: State, who: nat, s': State)
    requires Inv(s) && Next(s, who, TakeBack, s')
    ensures Inv(s') && Grows(s.buckets, s'.buckets)
  {
    hide Total, Tiles, Pending, Wrap;
    var t := s.threads[who];
    var b, t' := t.bucket, AfterRefusal(t.bucket, t.job);
    var before := s.buckets[b];
    var bucket := before.(next := Wrap(before.next - t.count));
    assert t in s.threads;
    PendingUpdate(s.threads, who, t', b);
    WrapAdds(Total(before.grants) + Pending(s.threads, b), 0 - t.count);
    RefusalFits(t, s.buckets);
    FullIsAboutGrants(s.buckets, b, bucket, t');
    LocalStepKeepsInv(s, who, t', b, bucket, s');
  }

  lemma ProbeIs(first: nat, j: nat)
    ensures Probe(first, j) == (first + j) % BUCKET_COUNT
  {
  }

  /** Sixteen probes in a row reach every bucket. */
  lemma ProbeReaches(first: nat, b: nat) returns (j: nat)
    requires first < BUCKET_COUNT && b < BUCKET_COUNT
    ensures j < BUCKET_COUNT && Probe(first, j) == b
  {
    j := if first <= b then b - first else b - first + BUCKET_COUNT;
  }

  /** After 16 refusals all buckets are full. */
  lemma RefusalFits(t: Thread, buckets: seq<Bucket>)
    requires |buckets| == BUCKET_COUNT && t.Refused? && ThreadFits(t, buckets)
    ensures ThreadFits(AfterRefusal(t.bucket, t.job), buckets)
  {
    hide Full, Probe;
    if t.job.RecordEvent? {
      var first, tries := t.job.first, t.job.tries;
      ProbeIs(first, tries);
      ProbeIs(first, tries + 1);
      if tries + 1 == BUCKET_COUNT {
        forall b: nat | b < BUCKET_COUNT ensures Full(buckets[b]) {
          var j := ProbeReaches(first, b);
        }
      }
    }
  }

  lemma FullIsAboutGrants(buckets: seq<Bucket>, b: nat, bucket: Bucket, t: Thread)
    requires |buckets| == BUCKET_COUNT && b < BUCKET_COUNT && ThreadFits(t, buckets)
    requires bucket.grants == buckets[b].grants && bucket.capacity == buckets[b].capacity
    ensures ThreadFits(t, buckets[b := bucket])
  {
    forall other | 0 <= other < BUCKET_COUNT ensures GrowsOne(buckets[other], buckets[b := bucket][other]) {
    }
    ThreadStillFits(t, buckets, buckets[b := bucket]);
  }

  lemma {:induction false} EarlierGrantsEndBefore(grants: seq<Grant>, j: nat, k: nat)
    requires Tiles(grants) && j < k < |grants|
    ensures grants[j].start + grants[j].count <= grants[k].start
    ensures grants[k].start + grants[k].count <= Total(grants)
    decreases |grants|
  {
    if k < |grants| - 1 {
      EarlierGrantsEndBefore(DropLast(grants), j, k);
    } else {
      GrantEnds(DropLast(grants), j);
    }
  }

  lemma {:induction false} GrantEnds(grants: seq<Grant>, j: nat)
    requires Tiles(grants) && j < |grants|
    ensures grants[j].start + grants[j].count <= Total(grants) && grants[j].count >= 1
    decreases |grants|
  {
    if j < |grants| - 1 {
      GrantEnds(DropLast(grants), j);
    }
  }

  /** Of two grants one ends before the other starts. */
  lemma GrantsAreApart(grants: seq<Grant>, g: Grant, h: Grant)
    requires Tiles(grants) && g in grants && h in grants && g != h
    ensures g.start + g.count <= h.start || h.start + h.count <= g.start
    ensures g.count >= 1 && h.count >= 1
  {
    var j :| 0 <= j < |grants| && grants[j] == g;
    var k :| 0 <= k < |grants| && grants[k] == h;
    GrantEnds(grants, j);
    GrantEnds(grants, k);
    if j < k {
      EarlierGrantsEndBefore(grants, j, k);
    } else {
      EarlierGrantsEndBefore(grants, k, j);
    }
  }

  /** Writes to memory touch neither counters nor grants. */
  lemma WriteKeepsInv(s: State, who: nat, step: Step, s': State)
    requires Inv(s) && Next(s, who, step, s') && (step.WriteHeader? || step.CopyData?)
    ensures Inv(s') && Grows(s.buckets, s'.buckets)
  {
    hide Total, Tiles, Pending, HeaderWritten, DataWritten;
    var t, t' := s.threads[who], s'.threads[who];
    var b := t.bucket;
    assert t in s.threads;
    PendingUpdate(s.threads, who, t', b);
    LocalStepKeepsInv(s, who, t', b, s'.buckets[b], s');
  }

  /** Steps that touch no bucket. */
  lemma QuietStepKeepsInv(s: State, who: nat, step: Step, s': State)
    requires Inv(s) && Next(s, who, step, s') && !TouchesBucket(step)
    ensures Inv(s') && Grows(s.buckets, s'.buckets)
  {
    hide Total, Tiles, Pending, BucketFits;
    var t, t' := s.threads[who], s'.threads[who];
    var b := if t'.Asking? then t'.bucket else 0;
    assert t in s.threads;
    PendingUpdate(s.threads, who, t', b);
    GrowsReflexive(s.buckets[b]);
    assert s.buckets[b := s.buckets[b]] == s.buckets;
    if step.BeginString? && t.rest[0] <= INT_MAX {
      StringBlocks(t.rest[0]);
    }
    LocalStepKeepsInv(s, who, t', b, s.buckets[b], s');
  }

  lemma StringBlocks(size: nat)
    requires size <= INT_MAX
    ensures 1 <= 1 + size / BLOCK_SIZE <= MAX_COUNT
  {
  }

  lemma StepKeepsInv(s: State, who: nat, step: Step, s': State)
    requires Inv(s) && Next(s, who, step, s')
    ensures Inv(s') && Grows(s.buckets, s'.buckets)
  {
    hide Inv, Next, Grows;
    match step
    case FetchAndAdd => FetchAndAddKeepsInv(s, who, s');
    case TakeBack => TakeBackKeepsInv(s, who, s');
    case WriteHeader => WriteKeepsInv(s, who, step, s');
    case CopyData => WriteKeepsInv(s, who, step, s');
    case _ => QuietStepKeepsInv(s, who, step, s');
  }

  lemma StartFits(s: State)
    requires Start(s)
    ensures Inv(s)
  {
    forall b: nat | b < BUCKET_COUNT ensures Pending(s.threads, b) == 0 {
      NothingPending(s.threads, b);
    }
  }

  lemma {:induction false} RunKeepsInv(states: seq<State>, whos: seq<nat>, steps: seq<Step>, i: nat)
    requires Run(states, whos, steps) && i < |states|
    ensures Inv(states[i])
  {
    hide Inv, Next, Start;
    if i == 0 {
      StartFits(states[0]);
    } else {
      RunKeepsInv(states, whos, steps, i - 1);
      StepKeepsInv(states[i - 1], whos[i - 1], steps[i - 1], states[i]);
    }
  }

  lemma {:induction false} RunGrows(states: seq<State>, whos: seq<nat>, steps: seq<Step>, i: nat, j: nat)
    requires Run(states, whos, steps) && i <= j < |states|
    ensures Grows(states[i].buckets, states[j].buckets)
    decreases j
  {
    hide Inv, Next, Start, Full;
    if i == j {
      forall b | 0 <= b < |states[i].buckets| ensures GrowsOne(states[i].buckets[b], states[j].buckets[b]) {
        GrowsReflexive(states[i].buckets[b]);
      }
    } else {
      RunGrows(states, whos, steps, i, j - 1);
      RunKeepsInv(states, whos, steps, j - 1);
      StepKeepsInv(states[j - 1], whos[j - 1], steps[j - 1], states[j]);
      forall b | 0 <= b < |states[i].buckets| ensures GrowsOne(states[i].buckets[b], states[j].buckets[b]) {
        GrowsTransitive(states[i].buckets[b], states[j - 1].buckets[b], states[j].buckets[b]);
      }
    }
  }

  lemma GrowsTransitive(a: Bucket, b: Bucket, c: Bucket)
    requires GrowsOne(a, b) && GrowsOne(b, c)
    ensures GrowsOne(a, c)
  {
  }

  // The theorems, for every run of any number of threads.

  /** Granted ranges lie behind each other without gap or overlap from block 0 on; each starts
      below the capacity, and all but the last end there too, as every event does. */
  lemma GrantsAreDisjoint(states: seq<State>, whos: seq<nat>, steps: seq<Step>, i: nat, b: nat)
    requires Run(states, whos, steps) && i < |states| && b < BUCKET_COUNT
    ensures |states[i].buckets| == BUCKET_COUNT
    ensures var (capacity, grants) := (states[i].buckets[b].capacity, states[i].buckets[b].grants);
      && Tiles(grants)
      && (forall k :: 0 <= k < |grants| ==> grants[k].start < capacity && (grants[k].kind == EventBlock ==> grants[k].count == 1))
      && (forall j, k :: 0 <= j < k < |grants| ==> grants[j].start + grants[j].count <= grants[k].start < capacity)
  {
    RunKeepsInv(states, whos, steps, i);
    hide Inv, Next, Start;
    InvBucket(states[i], b);
    var grants := states[i].buckets[b].grants;
    assert forall k :: 0 <= k < |grants| ==> grants[k] in grants;
    forall j, k | 0 <= j < k < |grants| ensures grants[j].start + grants[j].count <= grants[k].start {
      EarlierGrantsEndBefore(grants, j, k);
    }
  }

  lemma InvBucket(s: State, b: nat)
    requires Inv(s) && b < BUCKET_COUNT
    ensures |s.buckets| == BUCKET_COUNT
    ensures BucketFits(s.buckets[b], Pending(s.threads, b), |s.threads|)
  {
  }

  /** The counter is the sum of the granted sizes and the additions that are still to be taken
      back; with no call in flight it is the sum alone. It reaches the capacity exactly when the
      grants do. */
  lemma CounterCountsGrants(states: seq<State>, whos: seq<nat>, steps: seq<Step>, i: nat, b: nat)
    requires Run(states, whos, steps) && i < |states| && b < BUCKET_COUNT
    ensures var s := states[i];
      && |s.buckets| == BUCKET_COUNT
      && s.buckets[b].next == Total(s.buckets[b].grants) + Pending(s.threads, b)
      && (s.buckets[b].next >= s.buckets[b].capacity <==> Full(s.buckets[b]))
  {
    RunKeepsInv(states, whos, steps, i);
    hide Next, Start;
    PendingFits(states[i], b);
    CounterIsExact(states[i].buckets[b], Pending(states[i].threads, b), |states[i].threads|);
  }

  /** Once the counter has reached the capacity no call succeeds, whatever is taken back. */
  lemma NoGrantOnceFull(states: seq<State>, whos: seq<nat>, steps: seq<Step>, i: nat, j: nat, b: nat)
    requires Run(states, whos, steps) && i <= j < |states| && b < BUCKET_COUNT
    requires |states[i].buckets| == |states[j].buckets| == BUCKET_COUNT
    requires states[i].buckets[b].next >= states[i].buckets[b].capacity
    ensures states[j].buckets[b].grants == states[i].buckets[b].grants
    ensures states[j].buckets[b].next >= states[j].buckets[b].capacity
  {
    hide Run;
    CounterCountsGrants(states, whos, steps, i, b);
    CounterCountsGrants(states, whos, steps, j, b);
    RunGrows(states, whos, steps, i, j);
    assert GrowsOne(states[i].buckets[b], states[j].buckets[b]);
  }

  /** An event is dropped only if all 16 buckets are full, and they stay full. */
  lemma DroppedOnlyIfAllFull(states: seq<State>, whos: seq<nat>, steps: seq<Step>, i: nat, who: nat, j: nat)
    requires Run(states, whos, steps) && i <= j < |states|
    requires who < |states[i].threads| && states[i].threads[who].GaveUp?
    ensures |states[j].buckets| == BUCKET_COUNT
    ensures forall b :: 0 <= b < BUCKET_COUNT ==> Full(states[j].buckets[b])
  {
    hide Run, Total;
    RunKeepsInv(states, whos, steps, i);
    assert states[i].threads[who] in states[i].threads;
    assert ThreadFits(states[i].threads[who], states[i].buckets);
    RunGrows(states, whos, steps, i, j);
    forall b | 0 <= b < BUCKET_COUNT ensures Full(states[j].buckets[b]) {
      assert Full(states[i].buckets[b]) && GrowsOne(states[i].buckets[b], states[j].buckets[b]);
    }
  }

  // Whether granted ranges stay inside the array.

  ghost predicate Inside(bucket: Bucket) {
    forall g :: g in bucket.grants ==> g.start + g.count <= bucket.capacity
  }

  ghost predicate AllInside(s: State) {
    forall b :: 0 <= b < |s.buckets| ==> Inside(s.buckets[b])
  }

  /** Of all steps of all threads, exactly the additions that carry a counter from below the
      capacity to above it hand out a range past the end. */
  lemma CrossingCallReachesOver(states: seq<State>, whos: seq<nat>, steps: seq<Step>, i: nat, b: nat)
    requires Run(states, whos, steps) && i < |steps| && b < BUCKET_COUNT
    ensures |states[i].buckets| == |states[i + 1].buckets| == BUCKET_COUNT && whos[i] < |states[i].threads|
    ensures var (bucket, t) := (states[i].buckets[b], states[i].threads[whos[i]]);
      !Inside(states[i + 1].buckets[b])
      <==> || !Inside(bucket)
           || (steps[i] == FetchAndAdd && t.Asking? && t.bucket == b
               && Total(bucket.grants) == bucket.next < bucket.capacity < bucket.next + t.count)
  {
    RunKeepsInv(states, whos, steps, i);
    hide Inv, Start;
    assert Next(states[i], whos[i], steps[i], states[i + 1]);
    InvBucket(states[i], b);
    CounterCountsGrants(states, whos, steps, i, b);
    PendingBelowCapacity(states[i], b);
    var bucket, t := states[i].buckets[b], states[i].threads[whos[i]];
    if steps[i] == FetchAndAdd && t.bucket == b && bucket.next < bucket.capacity {
      InsideNext(bucket, Grant(bucket.next, t.count, KindOf(t.job), SizeOf(t.job)));
    }
  }

  lemma PendingBelowCapacity(s: State, b: nat)
    requires Inv(s) && b < BUCKET_COUNT && s.buckets[b].next == Total(s.buckets[b].grants) + Pending(s.threads, b)
    ensures s.buckets[b].next < s.buckets[b].capacity ==> s.buckets[b].next == Total(s.buckets[b].grants)
  {
    InvBucket(s, b);
  }

  lemma InsideNext(bucket: Bucket, g: Grant)
    ensures Inside(bucket.(grants := bucket.grants + [g])) <==> Inside(bucket) && g.start + g.count <= bucket.capacity
  {
    var grants := bucket.grants + [g];
    assert forall h :: h in grants <==> h in bucket.grants || h == g;
  }

  /** A bucket of a single block never hands out more than that block: it goes to an event. */
  lemma SingleBlockStaysInside(states: seq<State>, whos: seq<nat>, steps: seq<Step>, i: nat, b: nat)
    requires Run(states, whos, steps) && i < |states| && b < BUCKET_COUNT
    ensures |states[i].buckets| == BUCKET_COUNT
    ensures states[i].buckets[b].capacity <= 1 ==>
      forall g :: g in states[i].buckets[b].grants ==> g.kind == EventBlock && g.start + g.count <= states[i].buckets[b].capacity
  {
    RunKeepsInv(states, whos, steps, i);
    hide Inv, Next, Start, Tiles, Total;
    InvBucket(states[i], b);
    forall g | g in states[i].buckets[b].grants ensures GrantFits(g, states[i].buckets[b].capacity) {
    }
  }
}
