/** Which strings make the tracer write outside the blocks it was granted, or outside the array
    (third-party/uu.spdr/src/spdr.c:45-102, 644-675): exact conditions on their sizes, and the runs
    that fail. */
module BlockOverruns {
  import opened RingMath
  import opened Sequences
  import opened BlockAllocator
  import opened BlockContents

  // ----- Building runs

  datatype Trace = Trace(states: seq<State>, whos: seq<nat>, steps: seq<Step>)

  ghost predicate IsRun(r: Trace, sizes: iset<nat>) {
    Run(r.states, r.whos, r.steps) && SizesIn(r.steps, sizes)
  }

  lemma Then(r: Trace, who: nat, step: Step, sizes: iset<nat>) returns (r': Trace)
    requires IsRun(r, sizes) && Enabled(Last(r.states), who, step)
    requires step.BeginEvent? ==> AllIn(step.sizes, sizes)
    ensures IsRun(r', sizes)
    ensures r'.states == r.states + [After(Last(r.states), who, step)]
    ensures r'.whos == r.whos + [who] && r'.steps == r.steps + [step]
  {
    hide Start, Enabled, After, AllIn;
    r' := Trace(r.states + [After(Last(r.states), who, step)], r.whos + [who], r.steps + [step]);
    forall i | 0 <= i < |r'.steps| ensures Next(r'.states[i], r'.whos[i], r'.steps[i], r'.states[i + 1]) {
      if i < |r.steps| {
        assert Next(r.states[i], r.whos[i], r.steps[i], r.states[i + 1]);
      }
    }
  }

  /** What the first bucket and the threads are at the end of a run that can go on. */
  ghost predicate EndsWith(r: Trace, bucket: Bucket, threads: seq<Thread>) {
    && r.states != [] && !Last(r.states).overrun
    && |Last(r.states).buckets| == BUCKET_COUNT && Last(r.states).buckets[0] == bucket
    && Last(r.states).threads == threads
  }

  /** A new tracer whose threads are all idle. */
  lemma Fresh(capacity: nat, threads: seq<Thread>, sizes: iset<nat>) returns (r: Trace)
    requires capacity + (|threads| + 2) * MAX_COUNT < RING && forall t :: t in threads ==> t == Idle
    ensures IsRun(r, sizes) && |r.states| == 1 && EndsWith(r, Bucket(capacity, 0, [], map[]), threads)
    ensures |r.states[0].buckets| == BUCKET_COUNT
    ensures forall b :: 0 <= b < BUCKET_COUNT ==> r.states[0].buckets[b].capacity == capacity
  {
    r := Trace([State(seq(BUCKET_COUNT, _ => Bucket(capacity, 0, [], map[])), threads, false)], [], []);
    forall who | 0 <= who < |threads| ensures threads[who] == Idle {
      assert threads[who] in threads;
    }
  }

  function EventGrant(start: nat): Grant {
    Grant(start, 1, EventBlock, EVENT_SIZE)
  }

  function StringGrant(start: nat, size: nat): Grant {
    Grant(start, 1 + size / BLOCK_SIZE, StrBlock, size)
  }

  function BothWritten(memory: map<nat, Content>, g: Grant): map<nat, Content> {
    DataWritten(HeaderWritten(memory, g), g)
  }

  /** An idle thread is granted an event in the first bucket. */
  lemma EventGranted(r: Trace, bucket: Bucket, threads: seq<Thread>, who: nat, strings: seq<nat>, sizes: iset<nat>)
    returns (r': Trace)
    requires IsRun(r, sizes) && EndsWith(r, bucket, threads)
    requires who < |threads| && threads[who].Idle? && bucket.next < bucket.capacity && bucket.next + 1 < RING
    requires |strings| <= MAX_STRINGS && AllIn(strings, sizes) && forall k :: 0 <= k < |strings| ==> strings[k] >= 1
    ensures IsRun(r', sizes) && r'.states != [] && r'.states[0] == r.states[0]
    ensures var g := EventGrant(bucket.next);
            EndsWith(r', Bucket(bucket.capacity, bucket.next + 1, bucket.grants + [g], bucket.memory),
                     threads[who := Owning(0, g, strings)])
  {
    hide AllIn;
    var r1 := Then(r, who, BeginEvent(0, strings), sizes);
    r' := Then(r1, who, FetchAndAdd, sizes);
    WrapIdentity(bucket.next + 1);
  }

  /** The owner of a grant writes the header and copies the data. */
  lemma DataCopied(r: Trace, bucket: Bucket, threads: seq<Thread>, who: nat, g: Grant, rest: seq<nat>, sizes: iset<nat>)
    returns (r': Trace)
    requires IsRun(r, sizes) && EndsWith(r, bucket, threads)
    requires who < |threads| && threads[who] == Owning(0, g, rest)
    ensures IsRun(r', sizes) && |r'.states| == |r.states| + 2 && r'.states[0] == r.states[0]
    ensures FitsArray(g, bucket.capacity) ==>
      EndsWith(r', bucket.(memory := BothWritten(bucket.memory, g)), threads[who := Recording(0, rest)])
    ensures r'.states != [] && |Last(r'.states).buckets| == BUCKET_COUNT && Last(r'.states).buckets[0].grants == bucket.grants
    ensures Last(r'.states).buckets[0].capacity == bucket.capacity
    ensures var i := |r.steps| + 1;
      && |r'.steps| == |r'.whos| == i + 1 && r'.steps[i] == CopyData && r'.whos[i] == who
      && |r'.states[i].buckets| == BUCKET_COUNT
      && r'.states[i].buckets[0].capacity == bucket.capacity && r'.states[i].threads == threads[who := Copying(0, g, rest)]
  {
    hide HeaderWritten, DataWritten;
    var r1 := Then(r, who, WriteHeader, sizes);
    r' := Then(r1, who, CopyData, sizes);
  }

  /** It writes the event, too. */
  lemma EventRecorded(r: Trace, bucket: Bucket, threads: seq<Thread>, who: nat, strings: seq<nat>, sizes: iset<nat>)
    returns (r': Trace)
    requires IsRun(r, sizes) && EndsWith(r, bucket, threads)
    requires who < |threads| && threads[who].Idle? && bucket.next < bucket.capacity && bucket.next + 1 < RING
    requires |strings| <= MAX_STRINGS && AllIn(strings, sizes) && forall k :: 0 <= k < |strings| ==> strings[k] >= 1
    ensures IsRun(r', sizes) && r'.states != [] && r'.states[0] == r.states[0]
    ensures var g := EventGrant(bucket.next);
            EndsWith(r', Bucket(bucket.capacity, bucket.next + 1, bucket.grants + [g], BothWritten(bucket.memory, g)),
                     threads[who := Recording(0, strings)])
  {
    hide BothWritten, AllIn, Run, SizesIn;
    var g := EventGrant(bucket.next);
    var r1 := EventGranted(r, bucket, threads, who, strings, sizes);
    var granted := Bucket(bucket.capacity, bucket.next + 1, bucket.grants + [g], bucket.memory);
    r' := DataCopied(r1, granted, threads[who := Owning(0, g, strings)], who, g, strings, sizes);
    assert threads[who := Owning(0, g, strings)][who := Recording(0, strings)] == threads[who := Recording(0, strings)];
  }

  /** Its event's thread is granted blocks for a string. */
  lemma StringGranted(r: Trace, bucket: Bucket, threads: seq<Thread>, who: nat, n: nat, sizes: iset<nat>)
    returns (r': Trace)
    requires IsRun(r, sizes) && EndsWith(r, bucket, threads)
    requires who < |threads| && threads[who] == Recording(0, [n]) && n <= INT_MAX
    requires bucket.next < bucket.capacity && bucket.next + 1 + n / BLOCK_SIZE < RING
    ensures IsRun(r', sizes) && |r'.states| == |r.states| + 2 && r'.states[0] == r.states[0]
    ensures var g := StringGrant(bucket.next, n);
            EndsWith(r', Bucket(bucket.capacity, bucket.next + g.count, bucket.grants + [g], bucket.memory),
                     threads[who := Owning(0, g, [])])
  {
    assert [n][1..] == [];
    var r1 := Then(r, who, BeginString, sizes);
    r' := Then(r1, who, FetchAndAdd, sizes);
    WrapIdentity(bucket.next + 1 + n / BLOCK_SIZE);
  }

  lemma Returned(r: Trace, bucket: Bucket, threads: seq<Thread>, who: nat, sizes: iset<nat>) returns (r': Trace)
    requires IsRun(r, sizes) && EndsWith(r, bucket, threads)
    requires who < |threads| && threads[who] == Recording(0, [])
    ensures IsRun(r', sizes) && r'.states != [] && r'.states[0] == r.states[0] && EndsWith(r', bucket, threads[who := Idle])
  {
    r' := Then(r, who, Return, sizes);
  }

  /** An event with one string in a bucket of two blocks: the string gets what follows the event. */
  lemma StringRun(n: nat, sizes: iset<nat>) returns (r: Trace, i: nat)
    requires 0 < n <= INT_MAX && n in sizes
    ensures IsRun(r, sizes) && i < |r.steps| && r.steps[i] == CopyData && r.whos[i] == 0
    ensures |r.states[i].threads| == 1 && r.states[i].threads[0] == Copying(0, StringGrant(1, n), [])
    ensures |r.states[i].buckets| == BUCKET_COUNT && r.states[i].buckets[0].capacity == 2
    ensures r.states != [] && (n >= BLOCK_SIZE ==> !AllInside(Last(r.states)))
  {
    hide BothWritten, Run, SizesIn;
    var e, g := EventGrant(0), StringGrant(1, n);
    var r0 := Fresh(2, [Idle], sizes);
    var r1 := EventRecorded(r0, Bucket(2, 0, [], map[]), [Idle], 0, [n], sizes);
    assert [Idle][0 := Recording(0, [n])] == [Recording(0, [n])];
    var bucket := Bucket(2, 1, [] + [e], BothWritten(map[], e));
    var r2 := StringGranted(r1, bucket, [Recording(0, [n])], 0, n, sizes);
    assert [Recording(0, [n])][0 := Owning(0, g, [])] == [Owning(0, g, [])];
    r := DataCopied(r2, Bucket(2, 1 + g.count, [] + [e] + [g], bucket.memory), [Owning(0, g, [])], 0, g, [], sizes);
    i := |r2.steps| + 1;
  }

  /** Two threads: while one still has its string to copy, the other is granted the block behind it
      and records an event there. */
  lemma TwoThreadRun(n: nat, sizes: iset<nat>) returns (r: Trace, bucket: Bucket)
    requires 0 < n <= INT_MAX && n in sizes
    ensures IsRun(r, sizes) && EndsWith(r, bucket, [Idle, Idle])
    ensures var g, e := StringGrant(1, n), EventGrant(2 + n / BLOCK_SIZE);
      e in bucket.grants && exists before :: bucket.memory == DataWritten(before, g)
  {
    hide BothWritten, Run, SizesIn, EndsWith;
    var g, e0, e1 := StringGrant(1, n), EventGrant(0), EventGrant(2 + n / BLOCK_SIZE);
    var capacity := 2 + g.count;
    var r0 := Fresh(capacity, [Idle, Idle], sizes);
    var r1 := EventRecorded(r0, Bucket(capacity, 0, [], map[]), [Idle, Idle], 0, [n], sizes);
    assert [Idle, Idle][0 := Recording(0, [n])] == [Recording(0, [n]), Idle];
    var b1 := Bucket(capacity, 1, [] + [e0], BothWritten(map[], e0));
    var r2 := StringGranted(r1, b1, [Recording(0, [n]), Idle], 0, n, sizes);
    assert [Recording(0, [n]), Idle][0 := Owning(0, g, [])] == [Owning(0, g, []), Idle];
    var b2 := Bucket(capacity, 1 + g.count, b1.grants + [g], b1.memory);
    var r3 := EventRecorded(r2, b2, [Owning(0, g, []), Idle], 1, [], sizes);
    assert [Owning(0, g, []), Idle][1 := Recording(0, [])] == [Owning(0, g, []), Recording(0, [])];
    var b3 := Bucket(capacity, capacity, b2.grants + [e1], BothWritten(b2.memory, e1));
    var r4 := Returned(r3, b3, [Owning(0, g, []), Recording(0, [])], 1, sizes);
    assert [Owning(0, g, []), Recording(0, [])][1 := Idle] == [Owning(0, g, []), Idle];
    TextFitsIff(n);
    assert FitsArray(g, capacity);
    var r5 := DataCopied(r4, b3, [Owning(0, g, []), Idle], 0, g, [], sizes);
    assert [Owning(0, g, []), Idle][0 := Recording(0, [])] == [Recording(0, []), Idle];
    bucket := b3.(memory := BothWritten(b3.memory, g));
    r := Returned(r5, bucket, [Recording(0, []), Idle], 0, sizes);
    assert [Recording(0, []), Idle][0 := Idle] == [Idle, Idle];
    BothIsData(b3.memory, g);
    assert bucket.grants[|bucket.grants| - 1] == e1;
  }

  lemma BothIsData(memory: map<nat, Content>, g: Grant)
    ensures BothWritten(memory, g) == DataWritten(HeaderWritten(memory, g), g)
  {
  }

  /** The copy destroys the type of the block behind the string. */
  lemma NextHeaderIsLost(before: map<nat, Content>, n: nat)
    requires n % BLOCK_SIZE > EVENT_SIZE
    ensures !HeaderKept(DataWritten(before, StringGrant(1, n)), EventGrant(2 + n / BLOCK_SIZE))
  {
    var g, e := StringGrant(1, n), EventGrant(2 + n / BLOCK_SIZE);
    TextFitsIff(n);
    assert Address(g) + HEADER_SIZE <= Address(e) < Address(g) + HEADER_SIZE + g.size;
    assert DataWritten(before, g)[Address(e)] == DataOf(g);
  }

  // ----- The exact conditions

  ghost predicate CopyInGrant(s: State, who: nat) {
    Enabled(s, who, CopyData) && FitsGrant(s.threads[who].grant)
  }

  ghost predicate CopyInArray(s: State, who: nat) {
    && Enabled(s, who, CopyData)
    && var t := s.threads[who]; FitsArray(t.grant, s.buckets[t.bucket].capacity)
  }

  /** Every copy of the run ends within the blocks granted for it. */
  ghost predicate CopiesStayInGrants(states: seq<State>, whos: seq<nat>, steps: seq<Step>)
    requires |states| == |steps| + 1 == |whos| + 1
  {
    forall i :: 0 <= i < |steps| && steps[i] == CopyData ==> CopyInGrant(states[i], whos[i])
  }

  /** Every copy of the run ends within the array. */
  ghost predicate CopiesStayInArray(states: seq<State>, whos: seq<nat>, steps: seq<Step>)
    requires |states| == |steps| + 1 == |whos| + 1
  {
    forall i :: 0 <= i < |steps| && steps[i] == CopyData ==> CopyInArray(states[i], whos[i])
  }

  /** What a thread copies is one of the grants of its bucket. */
  lemma CopiedGrantFits(states: seq<State>, whos: seq<nat>, steps: seq<Step>, sizes: iset<nat>, i: nat)
    requires Run(states, whos, steps) && SizesIn(steps, sizes) && i < |steps| && steps[i] == CopyData
    ensures Enabled(states[i], whos[i], CopyData)
    ensures var t := states[i].threads[whos[i]];
      && t.bucket < BUCKET_COUNT && GrantFits(t.grant, states[i].buckets[t.bucket].capacity)
      && t.grant in states[i].buckets[t.bucket].grants && (t.grant.kind == StrBlock ==> t.grant.size in sizes)
  {
    RunKeepsInv(states, whos, steps, i);
    RunSizes(states, whos, steps, sizes, i);
    hide Start, SizesIn, Total, Tiles;
    assert Next(states[i], whos[i], steps[i], states[i + 1]);
    var t := states[i].threads[whos[i]];
    assert t in states[i].threads;
    assert ThreadFits(t, states[i].buckets);
    InvBucket(states[i], t.bucket);
  }

  lemma FittingCopiesStay(states: seq<State>, whos: seq<nat>, steps: seq<Step>, sizes: iset<nat>)
    requires Run(states, whos, steps) && SizesIn(steps, sizes) && TextsFit(sizes)
    ensures CopiesStayInGrants(states, whos, steps)
  {
    RunLengths(states, whos, steps);
    hide Run, SizesIn, TextsFit, FitsGrant;
    forall i | 0 <= i < |steps| && steps[i] == CopyData ensures CopyInGrant(states[i], whos[i]) {
      CopiedGrantFits(states, whos, steps, sizes, i);
      FittingSizesFit(states, whos, steps, sizes, i);
      assert AllFit(states[i].buckets[states[i].threads[whos[i]].bucket]);
    }
  }

  lemma RunLengths(states: seq<State>, whos: seq<nat>, steps: seq<Step>)
    requires Run(states, whos, steps)
    ensures |states| == |steps| + 1 == |whos| + 1
  {
  }

  lemma ShortCopiesStay(states: seq<State>, whos: seq<nat>, steps: seq<Step>, sizes: iset<nat>)
    requires Run(states, whos, steps) && SizesIn(steps, sizes)
    requires forall n :: n in sizes && 0 < n <= INT_MAX ==> n <= EVENT_SIZE
    ensures CopiesStayInArray(states, whos, steps)
  {
    RunLengths(states, whos, steps);
    hide Run, SizesIn;
    forall i | 0 <= i < |steps| && steps[i] == CopyData ensures CopyInArray(states[i], whos[i]) {
      CopiedGrantFits(states, whos, steps, sizes, i);
    }
  }

  /** All copies of all runs stay within their own grants exactly if no size leaves more than 192
      bytes for its last block. */
  lemma CopiesStayInGrantsIff(sizes: iset<nat>)
    ensures (forall states, whos, steps :: Run(states, whos, steps) && SizesIn(steps, sizes)
               ==> CopiesStayInGrants(states, whos, steps))
       <==> TextsFit(sizes)
  {
    hide Next, Start, SizesIn;
    if TextsFit(sizes) {
      forall states, whos, steps | Run(states, whos, steps) && SizesIn(steps, sizes)
        ensures CopiesStayInGrants(states, whos, steps)
      {
        FittingCopiesStay(states, whos, steps, sizes);
      }
    } else {
      var n :| n in sizes && 0 < n <= INT_MAX && n % BLOCK_SIZE > EVENT_SIZE;
      var r, i := StringRun(n, sizes);
      RunLengths(r.states, r.whos, r.steps);
      TextFitsIff(n);
      assert !CopyInGrant(r.states[i], r.whos[i]);
      assert !CopiesStayInGrants(r.states, r.whos, r.steps);
    }
  }

  /** With no thread inside a call all headers and all data are as they were written, in all runs,
      exactly under the same condition. */
  lemma AllIsKeptIff(sizes: iset<nat>)
    ensures (forall states, whos, steps, i: nat ::
               Run(states, whos, steps) && SizesIn(steps, sizes) && i < |states| && AllIdle(states[i]) ==> AllKept(states[i]))
       <==> TextsFit(sizes)
  {
    hide Run, SizesIn, AllKept, TextsFit;
    if TextsFit(sizes) {
      forall states, whos, steps, i: nat | Run(states, whos, steps) && SizesIn(steps, sizes) && i < |states| && AllIdle(states[i])
        ensures AllKept(states[i])
      {
        FittingRunsKeepAll(states, whos, steps, sizes, i);
      }
    } else {
      var n := UnfitSize(sizes);
      var r := HeaderIsLost(n, sizes);
      assert Last(r.states) == r.states[|r.states| - 1];
    }
  }

  lemma UnfitSize(sizes: iset<nat>) returns (n: nat)
    requires !TextsFit(sizes)
    ensures n in sizes && 0 < n <= INT_MAX && n % BLOCK_SIZE > EVENT_SIZE
  {
    n :| n in sizes && 0 < n <= INT_MAX && n % BLOCK_SIZE > EVENT_SIZE;
  }

  /** The failing run: both threads are done, and the event's block does not carry its type. */
  lemma HeaderIsLost(n: nat, sizes: iset<nat>) returns (r: Trace)
    requires 0 < n <= INT_MAX && n in sizes && n % BLOCK_SIZE > EVENT_SIZE
    ensures IsRun(r, sizes) && r.states != [] && AllIdle(Last(r.states)) && !AllKept(Last(r.states))
  {
    hide Run, SizesIn, HeaderKept, DataKept, DataWritten;
    var bucket;
    r, bucket := TwoThreadRun(n, sizes);
    var before :| bucket.memory == DataWritten(before, StringGrant(1, n));
    NextHeaderIsLost(before, n);
    assert EventGrant(2 + n / BLOCK_SIZE) in Last(r.states).buckets[0].grants;
  }

  /** All copies of all runs stay within the array exactly if no text is longer than the room in a
      single block. */
  lemma CopiesStayInArrayIff(sizes: iset<nat>)
    ensures (forall states, whos, steps :: Run(states, whos, steps) && SizesIn(steps, sizes)
               ==> CopiesStayInArray(states, whos, steps))
       <==> forall n :: n in sizes && 0 < n <= INT_MAX ==> n <= EVENT_SIZE
  {
    hide Next, Start, SizesIn;
    if forall n :: n in sizes && 0 < n <= INT_MAX ==> n <= EVENT_SIZE {
      forall states, whos, steps | Run(states, whos, steps) && SizesIn(steps, sizes)
        ensures CopiesStayInArray(states, whos, steps)
      {
        ShortCopiesStay(states, whos, steps, sizes);
      }
    } else {
      var n :| n in sizes && 0 < n <= INT_MAX && n > EVENT_SIZE;
      var r, i := StringRun(n, sizes);
      RunLengths(r.states, r.whos, r.steps);
      assert !CopyInArray(r.states[i], r.whos[i]);
      assert !CopiesStayInArray(r.states, r.whos, r.steps);
    }
  }

  predicate IsAtMost(n: nat, maxSize: nat) {
    n <= maxSize
  }

  ghost function UpTo(maxSize: nat): iset<nat> {
    iset n: nat | IsAtMost(n, maxSize)
  }

  /** Told by the longest string: 192 bytes, terminator included. */
  lemma ArrayBoundIsOneText(maxSize: nat)
    ensures (forall states, whos, steps :: Run(states, whos, steps) && SizesIn(steps, UpTo(maxSize))
               ==> CopiesStayInArray(states, whos, steps))
       <==> maxSize <= EVENT_SIZE
  {
    hide Run, SizesIn, CopiesStayInArray;
    var sizes := UpTo(maxSize);
    CopiesStayInArrayIff(sizes);
    assert maxSize > EVENT_SIZE ==> EVENT_SIZE + 1 in sizes;
  }

  /** All grants of all runs lie inside their arrays exactly if all strings get by with one block. */
  lemma GrantsStayInsideIff(sizes: iset<nat>)
    ensures (forall states, whos, steps :: Run(states, whos, steps) && SizesIn(steps, sizes)
               ==> forall s :: s in states ==> AllInside(s))
       <==> forall n :: n in sizes && 0 < n <= INT_MAX ==> n < BLOCK_SIZE
  {
    hide Run, SizesIn, AllInside;
    if forall n :: n in sizes && 0 < n <= INT_MAX ==> n < BLOCK_SIZE {
      forall states, whos, steps, s | Run(states, whos, steps) && SizesIn(steps, sizes) && s in states
        ensures AllInside(s)
      {
        var i :| 0 <= i < |states| && states[i] == s;
        ShortStringsInside(states, whos, steps, sizes, i);
      }
    } else {
      var n :| n in sizes && 0 < n <= INT_MAX && n >= BLOCK_SIZE;
      var r, i := StringRun(n, sizes);
      assert Last(r.states) in r.states;
    }
  }

  lemma ShortStringsInside(states: seq<State>, whos: seq<nat>, steps: seq<Step>, sizes: iset<nat>, i: nat)
    requires Run(states, whos, steps) && SizesIn(steps, sizes) && i < |states|
    requires forall n :: n in sizes && 0 < n <= INT_MAX ==> n < BLOCK_SIZE
    ensures AllInside(states[i])
  {
    RunKeepsInv(states, whos, steps, i);
    RunSizes(states, whos, steps, sizes, i);
    hide Start, SizesIn, Inv, Next, Run;
    forall b: nat, g | b < |states[i].buckets| && g in states[i].buckets[b].grants
      ensures g.start + g.count <= states[i].buckets[b].capacity
    {
      InvBuckets(states[i]);
      InvBucket(states[i], b);
      assert GrantFits(g, states[i].buckets[b].capacity);
    }
  }

  lemma InvBuckets(s: State)
    requires Inv(s)
    ensures |s.buckets| == BUCKET_COUNT
  {
  }

  // ----- Which buckets can be overrun

  /** As many events as wanted, one after the other. */
  lemma {:induction false} Filled(capacity: nat, count: nat, sizes: iset<nat>) returns (r: Trace, bucket: Bucket)
    requires count <= capacity && capacity + 3 * MAX_COUNT < RING
    ensures IsRun(r, sizes) && EndsWith(r, bucket, [Idle])
    ensures bucket.capacity == capacity && bucket.next == count
    ensures r.states != [] && |r.states[0].buckets| == BUCKET_COUNT
    ensures forall b :: 0 <= b < BUCKET_COUNT ==> r.states[0].buckets[b].capacity == capacity
    decreases count
  {
    hide BothWritten, Run, SizesIn, EndsWith;
    if count == 0 {
      bucket := Bucket(capacity, 0, [], map[]);
      r := Fresh(capacity, [Idle], sizes);
    } else {
      var r0, before := Filled(capacity, count - 1, sizes);
      var g := EventGrant(before.next);
      bucket := Bucket(capacity, count, before.grants + [g], BothWritten(before.memory, g));
      var r1 := EventRecorded(r0, before, [Idle], 0, [], sizes);
      assert [Idle][0 := Recording(0, [])] == [Recording(0, [])];
      r := Returned(r1, bucket, [Recording(0, [])], 0, sizes);
      assert [Recording(0, [])][0 := Idle] == [Idle];
    }
  }

  /** A bucket of at least two blocks is overrun by a string of 208 bytes whose event got the last
      block but one. */
  lemma LastBlockReachesOver(capacity: nat) returns (r: Trace)
    requires 2 <= capacity && capacity + 3 * MAX_COUNT < RING
    ensures Run(r.states, r.whos, r.steps) && r.states != [] && |r.states[0].buckets| == BUCKET_COUNT
    ensures forall b :: 0 <= b < BUCKET_COUNT ==> r.states[0].buckets[b].capacity == capacity
    ensures !AllInside(Last(r.states))
  {
    hide BothWritten, Run;
    var sizes := iset{BLOCK_SIZE};
    var r0, before := Filled(capacity, capacity - 2, sizes);
    var e, g := EventGrant(capacity - 2), StringGrant(capacity - 1, BLOCK_SIZE);
    var r1 := EventRecorded(r0, before, [Idle], 0, [BLOCK_SIZE], sizes);
    assert [Idle][0 := Recording(0, [BLOCK_SIZE])] == [Recording(0, [BLOCK_SIZE])];
    var bucket := Bucket(capacity, capacity - 1, before.grants + [e], BothWritten(before.memory, e));
    r := StringGranted(r1, bucket, [Recording(0, [BLOCK_SIZE])], 0, BLOCK_SIZE, sizes);
    assert g in Last(r.states).buckets[0].grants;
  }

  /** Runs whose buckets all have the given capacity. */
  ghost predicate RunOn(capacity: nat, r: Trace) {
    Run(r.states, r.whos, r.steps) && forall b :: 0 <= b < BUCKET_COUNT ==> r.states[0].buckets[b].capacity == capacity
  }

  /** Some run on buckets of a capacity hands out blocks past the end exactly if the capacity is at
      least two. */
  lemma OverrunIffTwoBlocks(capacity: nat)
    requires capacity + 3 * MAX_COUNT < RING
    ensures (exists r :: RunOn(capacity, r) && exists s :: s in r.states && !AllInside(s)) <==> capacity >= 2
  {
    hide Run, AllInside;
    if capacity >= 2 {
      var r := LastBlockReachesOver(capacity);
      assert RunOn(capacity, r) && Last(r.states) in r.states;
    } else {
      forall r, s | RunOn(capacity, r) && s in r.states ensures AllInside(s) {
        var i :| 0 <= i < |r.states| && r.states[i] == s;
        SmallBucketsStayInside(r, capacity, i);
      }
    }
  }

  lemma SmallBucketsStayInside(r: Trace, capacity: nat, i: nat)
    requires RunOn(capacity, r) && capacity <= 1 && i < |r.states|
    ensures AllInside(r.states[i])
  {
    RunGrows(r.states, r.whos, r.steps, 0, i);
    hide Run, Start, Next;
    forall b: nat | b < |r.states[i].buckets| ensures Inside(r.states[i].buckets[b]) {
      RunKeepsInv(r.states, r.whos, r.steps, i);
      assert GrowsOne(r.states[0].buckets[b], r.states[i].buckets[b]);
      SingleBlockStaysInside(r.states, r.whos, r.steps, i, b);
    }
  }
}
