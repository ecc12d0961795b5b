/** What becomes of the bytes that the tracer's threads write to the blocks they are granted
    (third-party/uu.spdr/src/spdr.c:45-102, 644-675). A string's text starts behind the type and
    count of its first block, but the number of blocks is computed from its size alone. */
module BlockContents {
  import opened RingMath
  import opened Sequences
  import opened BlockAllocator

  // ----- The strings of a run

  ghost predicate AllIn(strings: seq<nat>, sizes: iset<nat>) {
    forall n :: n in strings ==> n in sizes
  }

  /** All strings of all events have sizes from the given set. */
  ghost predicate SizesIn(steps: seq<Step>, sizes: iset<nat>) {
    forall i :: 0 <= i < |steps| && steps[i].BeginEvent? ==> AllIn(steps[i].sizes, sizes)
  }

  ghost predicate ThreadSizesIn(t: Thread, sizes: iset<nat>) {
    match t
    case Asking(_, _, job) => AllIn(RestOf(job), sizes) && (job.CopyString? ==> job.size in sizes)
    case Refused(_, _, job) => AllIn(RestOf(job), sizes) && (job.CopyString? ==> job.size in sizes)
    case Owning(_, _, rest) => AllIn(rest, sizes)
    case Copying(_, _, rest) => AllIn(rest, sizes)
    case Recording(_, rest) => AllIn(rest, sizes)
    case _ => true
  }

  ghost predicate StateSizesIn(s: State, sizes: iset<nat>) {
    && (forall t :: t in s.threads ==> ThreadSizesIn(t, sizes))
    && (forall b: nat, g :: b < |s.buckets| && g in s.buckets[b].grants && g.kind == StrBlock ==> g.size in sizes)
  }

  lemma StepSizes(s: State, who: nat, step: Step, s': State, sizes: iset<nat>)
    requires StateSizesIn(s, sizes) && Next(s, who, step, s')
    requires step.BeginEvent? ==> AllIn(step.sizes, sizes)
    ensures StateSizesIn(s', sizes)
  {
    var t := s.threads[who];
    assert t in s.threads;
    assert ThreadSizesIn(s'.threads[who], sizes);
    forall x | x in s'.threads ensures ThreadSizesIn(x, sizes) {
      OthersStay(s.threads, who, s'.threads[who], x);
    }
  }

  lemma {:induction false} RunSizes(states: seq<State>, whos: seq<nat>, steps: seq<Step>, sizes: iset<nat>, i: nat)
    requires Run(states, whos, steps) && SizesIn(steps, sizes) && i < |states|
    ensures StateSizesIn(states[i], sizes)
  {
    hide StateSizesIn, Next, Start;
    if i == 0 {
      StartSizes(states[0], sizes);
    } else {
      RunSizes(states, whos, steps, sizes, i - 1);
      StepSizes(states[i - 1], whos[i - 1], steps[i - 1], states[i], sizes);
    }
  }

  lemma StartSizes(s: State, sizes: iset<nat>)
    requires Start(s)
    ensures StateSizesIn(s, sizes)
  {
  }

  // ----- What is kept

  /** The block's type and count are as its owner wrote them. */
  ghost predicate HeaderKept(memory: map<nat, Content>, g: Grant) {
    forall a :: Address(g) <= a < Address(g) + 4 || Address(g) + 8 <= a < Address(g) + HEADER_SIZE ==>
      a in memory && memory[a] == HeaderOf(g)
  }

  /** So is the event, or the text. */
  ghost predicate DataKept(memory: map<nat, Content>, g: Grant) {
    forall a :: Address(g) + HEADER_SIZE <= a < Address(g) + HEADER_SIZE + g.size ==> a in memory && memory[a] == DataOf(g)
  }

  ghost predicate AllKept(s: State) {
    forall b: nat, g :: b < |s.buckets| && g in s.buckets[b].grants ==>
      HeaderKept(s.buckets[b].memory, g) && DataKept(s.buckets[b].memory, g)
  }

  ghost predicate AllIdle(s: State) {
    forall t :: t in s.threads ==> t.Idle?
  }

  /** The copy ends within the blocks that were granted for it. */
  ghost predicate FitsGrant(g: Grant) {
    HEADER_SIZE + g.size <= g.count * BLOCK_SIZE
  }

  /** A string's blocks have room for its text exactly if its last, partial block does. */
  lemma TextFitsIff(n: nat)
    ensures HEADER_SIZE + n <= (1 + n / BLOCK_SIZE) * BLOCK_SIZE <==> n % BLOCK_SIZE <= EVENT_SIZE
    ensures HEADER_SIZE + n < (1 + n / BLOCK_SIZE) * BLOCK_SIZE + HEADER_SIZE
  {
  }

  ghost predicate Owns(t: Thread, b: nat, g: Grant) {
    t.Owning? && t.bucket == b && t.grant == g
  }

  ghost predicate Copies(t: Thread, b: nat, g: Grant) {
    t.Copying? && t.bucket == b && t.grant == g
  }

  ghost predicate HeaderDue(b: nat, g: Grant, threads: seq<Thread>) {
    exists t :: t in threads && Owns(t, b, g)
  }

  ghost predicate DataDue(b: nat, g: Grant, threads: seq<Thread>) {
    HeaderDue(b, g, threads) || exists t :: t in threads && Copies(t, b, g)
  }

  /** Each header is as it was written, or is about to be written. */
  ghost predicate HeadersFit(b: nat, bucket: Bucket, threads: seq<Thread>) {
    forall g :: g in bucket.grants ==> HeaderKept(bucket.memory, g) || HeaderDue(b, g, threads)
  }

  /** So are all data, or those of events alone. */
  ghost predicate DataFit(b: nat, bucket: Bucket, threads: seq<Thread>, strings: bool) {
    forall g :: g in bucket.grants && (strings || g.kind == EventBlock) ==>
      DataKept(bucket.memory, g) || DataDue(b, g, threads)
  }

  ghost predicate AllFit(bucket: Bucket) {
    forall g :: g in bucket.grants ==> FitsGrant(g)
  }

  ghost predicate ContentsFit(b: nat, bucket: Bucket, threads: seq<Thread>, strings: bool) {
    (strings ==> HeadersFit(b, bucket, threads)) && DataFit(b, bucket, threads, strings)
  }

  ghost predicate StateContentsFit(s: State, strings: bool) {
    && |s.buckets| == BUCKET_COUNT
    && forall b: nat :: b < BUCKET_COUNT ==> ContentsFit(b, s.buckets[b], s.threads, strings)
  }

  // ----- Every step keeps it

  lemma DueStays(b: nat, g: Grant, threads: seq<Thread>, who: nat, t: Thread)
    requires who < |threads|
    ensures HeaderDue(b, g, threads) && !Owns(threads[who], b, g) ==> HeaderDue(b, g, threads[who := t])
    ensures DataDue(b, g, threads) && !Owns(threads[who], b, g) && !Copies(threads[who], b, g) ==> DataDue(b, g, threads[who := t])
    ensures Owns(t, b, g) ==> HeaderDue(b, g, threads[who := t])
    ensures Owns(t, b, g) || Copies(t, b, g) ==> DataDue(b, g, threads[who := t])
  {
    forall x | x in threads && x != threads[who] ensures x in threads[who := t] {
      OthersStay(threads, who, t, x);
    }
    OthersStay(threads, who, t, t);
  }

  /** A step that does not write to the bucket's blocks. */
  lemma UntouchedFits(b: nat, bucket: Bucket, bucket': Bucket, threads: seq<Thread>, who: nat, t: Thread, strings: bool)
    requires ContentsFit(b, bucket, threads, strings) && who < |threads|
    requires threads[who].Owning? || threads[who].Copying? ==> threads[who].bucket != b
    requires bucket'.memory == bucket.memory
    requires bucket'.grants == bucket.grants || (t.Owning? && t.bucket == b && bucket'.grants == bucket.grants + [t.grant])
    ensures ContentsFit(b, bucket', threads[who := t], strings)
  {
    hide HeaderKept, DataKept, HeaderDue, DataDue;
    forall g | g in bucket'.grants
      ensures strings ==> HeaderKept(bucket.memory, g) || HeaderDue(b, g, threads[who := t])
      ensures strings || g.kind == EventBlock ==> DataKept(bucket.memory, g) || DataDue(b, g, threads[who := t])
    {
      DueStays(b, g, threads, who, t);
    }
  }

  /** Bytes outside the written range are as before. */
  lemma WrittenElsewhere(memory: map<nat, Content>, from: nat, to: nat, content: Content, g: Grant)
    ensures (to <= Address(g) || Address(g) + HEADER_SIZE <= from) && HeaderKept(memory, g)
            ==> HeaderKept(Written(memory, from, to, content), g)
    ensures (to <= Address(g) + HEADER_SIZE || Address(g) + HEADER_SIZE + g.size <= from) && DataKept(memory, g)
            ==> DataKept(Written(memory, from, to, content), g)
  {
  }

  /** Where the blocks of two grants lie, in bytes. */
  lemma BytesApart(grants: seq<Grant>, g: Grant, h: Grant)
    requires Tiles(grants) && g in grants && h in grants && g != h
    ensures g.count >= 1 && h.count >= 1
    ensures Address(g) + g.count * BLOCK_SIZE <= Address(h) || Address(h) + h.count * BLOCK_SIZE <= Address(g)
  {
    GrantsAreApart(grants, g, h);
  }

  /** No copy reaches beyond the header of the block behind its grant. */
  lemma CopyIsShort(g: Grant, capacity: nat)
    requires GrantFits(g, capacity)
    ensures HEADER_SIZE + g.size < g.count * BLOCK_SIZE + HEADER_SIZE
    ensures g.kind == EventBlock ==> FitsGrant(g)
    ensures g.kind == StrBlock ==> (FitsGrant(g) <==> g.size % BLOCK_SIZE <= EVENT_SIZE)
  {
    if g.kind == StrBlock {
      TextFitsIff(g.size);
    }
  }

  /** What a write by the owner of g leaves of another grant h. */
  lemma OtherKept(bucket: Bucket, g: Grant, h: Grant, strings: bool)
    requires Tiles(bucket.grants) && GrantsFit(bucket) && g in bucket.grants && h in bucket.grants && g != h
    requires strings ==> AllFit(bucket)
    ensures strings && HeaderKept(bucket.memory, h) ==>
      HeaderKept(HeaderWritten(bucket.memory, g), h) && HeaderKept(DataWritten(bucket.memory, g), h)
    ensures (strings || h.kind == EventBlock) && DataKept(bucket.memory, h) ==>
      DataKept(HeaderWritten(bucket.memory, g), h) && DataKept(DataWritten(bucket.memory, g), h)
  {
    hide HeaderKept, DataKept, Written, Tiles;
    BytesApart(bucket.grants, g, h);
    assert GrantFits(g, bucket.capacity) && GrantFits(h, bucket.capacity);
    CopyIsShort(g, bucket.capacity);
    CopyIsShort(h, bucket.capacity);
    var a, end := Address(g), Address(g) + HEADER_SIZE;
    WrittenElsewhere(bucket.memory, a + 8, end, HeaderOf(g), h);
    WrittenElsewhere(Written(bucket.memory, a + 8, end, HeaderOf(g)), a, a + 4, HeaderOf(g), h);
    WrittenElsewhere(bucket.memory, end, end + g.size, DataOf(g), h);
  }

  /** What it leaves of g itself. */
  lemma OwnKept(memory: map<nat, Content>, g: Grant)
    ensures HeaderKept(HeaderWritten(memory, g), g) && DataKept(DataWritten(memory, g), g)
    ensures HeaderKept(memory, g) ==> HeaderKept(DataWritten(memory, g), g)
    ensures DataKept(memory, g) ==> DataKept(HeaderWritten(memory, g), g)
  {
  }

  lemma HeaderWrittenFits(b: nat, bucket: Bucket, threads: seq<Thread>, who: nat, strings: bool)
    requires ContentsFit(b, bucket, threads, strings) && Tiles(bucket.grants) && GrantsFit(bucket)
    requires strings ==> AllFit(bucket)
    requires who < |threads| && threads[who].Owning? && threads[who].bucket == b && threads[who].grant in bucket.grants
    ensures var g := threads[who].grant;
            ContentsFit(b, bucket.(memory := HeaderWritten(bucket.memory, g)), threads[who := Copying(b, g, threads[who].rest)], strings)
  {
    hide HeaderKept, DataKept, HeaderDue, DataDue, HeaderWritten, Tiles, AllFit, GrantsFit;
    var g := threads[who].grant;
    OwnKept(bucket.memory, g);
    forall h | h in bucket.grants
      ensures strings ==> HeaderKept(HeaderWritten(bucket.memory, g), h)
                          || HeaderDue(b, h, threads[who := Copying(b, g, threads[who].rest)])
      ensures strings || h.kind == EventBlock ==> DataKept(HeaderWritten(bucket.memory, g), h)
                                                  || DataDue(b, h, threads[who := Copying(b, g, threads[who].rest)])
    {
      DueStays(b, h, threads, who, Copying(b, g, threads[who].rest));
      if h != g {
        OtherKept(bucket, g, h, strings);
      }
    }
  }

  lemma DataWrittenFits(b: nat, bucket: Bucket, threads: seq<Thread>, who: nat, strings: bool)
    requires ContentsFit(b, bucket, threads, strings) && Tiles(bucket.grants) && GrantsFit(bucket)
    requires strings ==> AllFit(bucket)
    requires who < |threads| && threads[who].Copying? && threads[who].bucket == b && threads[who].grant in bucket.grants
    ensures var g := threads[who].grant;
            ContentsFit(b, bucket.(memory := DataWritten(bucket.memory, g)), threads[who := Recording(b, threads[who].rest)], strings)
  {
    hide HeaderKept, DataKept, HeaderDue, DataDue, DataWritten, Tiles, AllFit, GrantsFit;
    var g := threads[who].grant;
    OwnKept(bucket.memory, g);
    forall h | h in bucket.grants
      ensures strings ==> HeaderKept(DataWritten(bucket.memory, g), h)
                          || HeaderDue(b, h, threads[who := Recording(b, threads[who].rest)])
      ensures strings || h.kind == EventBlock ==> DataKept(DataWritten(bucket.memory, g), h)
                                                  || DataDue(b, h, threads[who := Recording(b, threads[who].rest)])
    {
      DueStays(b, h, threads, who, Recording(b, threads[who].rest));
      if h != g {
        OtherKept(bucket, g, h, strings);
      }
    }
  }

  ghost predicate StateFits(s: State) {
    forall b: nat :: b < |s.buckets| ==> AllFit(s.buckets[b])
  }

  lemma StepKeepsContents(s: State, who: nat, step: Step, s': State, strings: bool)
    requires Inv(s) && Next(s, who, step, s') && StateContentsFit(s, strings)
    requires strings ==> StateFits(s)
    ensures StateContentsFit(s', strings)
  {
    hide ContentsFit, BucketFits, HeaderWritten, DataWritten, AllFit;
    var t, t' := s.threads[who], s'.threads[who];
    assert t in s.threads;
    forall b: nat | b < BUCKET_COUNT ensures ContentsFit(b, s'.buckets[b], s'.threads, strings) {
      InvBucket(s, b);
      BucketTiles(s.buckets[b], Pending(s.threads, b), |s.threads|);
      if step.WriteHeader? && t.bucket == b {
        HeaderWrittenFits(b, s.buckets[b], s.threads, who, strings);
      } else if step.CopyData? && t.bucket == b {
        DataWrittenFits(b, s.buckets[b], s.threads, who, strings);
      } else {
        UntouchedFits(b, s.buckets[b], s'.buckets[b], s.threads, who, t', strings);
      }
    }
  }

  lemma BucketTiles(bucket: Bucket, pending: nat, threadCount: nat)
    requires BucketFits(bucket, pending, threadCount)
    ensures Tiles(bucket.grants) && GrantsFit(bucket)
  {
  }

  lemma StartContents(s: State, strings: bool)
    requires Start(s)
    ensures StateContentsFit(s, strings)
  {
  }

  lemma {:induction false} RunKeepsContents(states: seq<State>, whos: seq<nat>, steps: seq<Step>, i: nat, strings: bool)
    requires Run(states, whos, steps) && i < |states|
    requires strings ==> forall j :: 0 <= j < i ==> StateFits(states[j])
    ensures StateContentsFit(states[i], strings)
  {
    hide StateContentsFit, StateFits, Inv, Next, Start;
    if i == 0 {
      StartContents(states[0], strings);
    } else {
      RunKeepsContents(states, whos, steps, i - 1, strings);
      RunKeepsInv(states, whos, steps, i - 1);
      StepKeepsContents(states[i - 1], whos[i - 1], steps[i - 1], states[i], strings);
    }
  }

  /** With no thread inside a call nothing is due any more. */
  lemma NothingDue(b: nat, g: Grant, threads: seq<Thread>)
    requires forall t :: t in threads ==> t.Idle?
    ensures !HeaderDue(b, g, threads) && !DataDue(b, g, threads)
  {
  }

  // ----- The theorems, for every run of any number of threads

  /** Whatever the strings are, no event is ever lost: with no thread inside a call, the bytes of
      every event are as they were copied. */
  lemma EventsAreKept(states: seq<State>, whos: seq<nat>, steps: seq<Step>, i: nat, b: nat)
    requires Run(states, whos, steps) && i < |states| && b < BUCKET_COUNT && AllIdle(states[i])
    ensures |states[i].buckets| == BUCKET_COUNT
    ensures forall g :: g in states[i].buckets[b].grants && g.kind == EventBlock ==> DataKept(states[i].buckets[b].memory, g)
  {
    hide Start, Next, DataKept, DataDue;
    RunKeepsContents(states, whos, steps, i, false);
    assert ContentsFit(b, states[i].buckets[b], states[i].threads, false);
    forall g | g in states[i].buckets[b].grants && g.kind == EventBlock ensures DataKept(states[i].buckets[b].memory, g) {
      NothingDue(b, g, states[i].threads);
    }
  }

  /** Sizes whose text, behind the header, does not reach over the blocks that are asked for. */
  ghost predicate TextsFit(sizes: iset<nat>) {
    forall n :: n in sizes && 0 < n <= INT_MAX ==> n % BLOCK_SIZE <= EVENT_SIZE
  }

  lemma FittingSizesFit(states: seq<State>, whos: seq<nat>, steps: seq<Step>, sizes: iset<nat>, i: nat)
    requires Run(states, whos, steps) && SizesIn(steps, sizes) && TextsFit(sizes) && i < |states|
    ensures StateFits(states[i])
  {
    RunSizes(states, whos, steps, sizes, i);
    RunKeepsInv(states, whos, steps, i);
    hide Inv, Next, Start, SizesIn, FitsGrant;
    forall b: nat, g | b < |states[i].buckets| && g in states[i].buckets[b].grants ensures FitsGrant(g) {
      InvBucket(states[i], b);
      assert GrantFits(g, states[i].buckets[b].capacity);
      CopyIsShort(g, states[i].buckets[b].capacity);
      TextOfNothing(g.size);
    }
  }

  lemma TextOfNothing(n: nat)
    ensures n == 0 ==> n % BLOCK_SIZE <= EVENT_SIZE
  {
  }

  /** With no thread inside a call every grant carries its header and its data, if no string's text
      reaches over its blocks. */
  lemma FittingRunsKeepAll(states: seq<State>, whos: seq<nat>, steps: seq<Step>, sizes: iset<nat>, i: nat)
    requires Run(states, whos, steps) && SizesIn(steps, sizes) && TextsFit(sizes) && i < |states| && AllIdle(states[i])
    ensures AllKept(states[i])
  {
    hide Start, Next, HeaderKept, DataKept, HeaderDue, DataDue, TextsFit, SizesIn, StateFits;
    forall j | 0 <= j < i ensures StateFits(states[j]) {
      FittingSizesFit(states, whos, steps, sizes, j);
    }
    RunKeepsContents(states, whos, steps, i, true);
    forall b: nat, g | b < |states[i].buckets| && g in states[i].buckets[b].grants
      ensures HeaderKept(states[i].buckets[b].memory, g) && DataKept(states[i].buckets[b].memory, g)
    {
      assert ContentsFit(b, states[i].buckets[b], states[i].threads, true);
      NothingDue(b, g, states[i].threads);
    }
  }
}
