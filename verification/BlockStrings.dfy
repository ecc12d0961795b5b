/** What a whole call of record_event achieves (third-party/uu.spdr/src/spdr.c:619-675): told from
    the steps of a run and the grants they leave, whatever other threads do in between. */
module BlockStrings {
  import opened RingMath
  import opened Sequences
  import opened BlockAllocator

  /** The sizes that the allocator does not turn down at once. */
  ghost function Wanted(sizes: seq<nat>): seq<nat> {
    if sizes == [] then [] else
      Wanted(DropLast(sizes)) + if Last(sizes) <= INT_MAX then [Last(sizes)] else []
  }

  ghost function Sizes(grants: seq<Grant>): (r: seq<nat>)
    ensures |r| == |grants| && forall k :: 0 <= k < |grants| ==> r[k] == grants[k].size
  {
    seq(|grants|, k requires 0 <= k < |grants| => grants[k].size)
  }

  /** What a step of a thread adds to the grants of the bucket that the thread asks. */
  ghost function NewGrants(s: State, who: nat, step: Step, s': State): seq<Grant> {
    if step == FetchAndAdd && who < |s.threads| && s.threads[who].Asking?
       && s.threads[who].bucket < |s.buckets| == |s'.buckets|
       && |s.buckets[s.threads[who].bucket].grants| <= |s'.buckets[s.threads[who].bucket].grants|
    then
      var b := s.threads[who].bucket;
      s'.buckets[b].grants[|s.buckets[b].grants|..]
    else []
  }

  /** The grants that a thread gets between two states of a run. */
  ghost function Made(states: seq<State>, whos: seq<nat>, steps: seq<Step>, who: nat, from: nat, to: nat): seq<Grant>
    requires |states| == |steps| + 1 == |whos| + 1 && from <= to <= |steps|
  {
    if from == to then []
    else Made(states, whos, steps, who, from, to - 1)
         + if whos[to - 1] == who then NewGrants(states[to - 1], who, steps[to - 1], states[to]) else []
  }

  ghost predicate InOrder(made: seq<Grant>) {
    forall j, k :: 0 <= j < k < |made| ==> made[j].start + made[j].count <= made[k].start
  }

  /** How far a bucket lies behind another, going up and around. */
  function Distance(first: nat, b: nat): int {
    if first <= b then b - first else b - first + BUCKET_COUNT
  }

  /** All buckets from the event's own one up to b, going around, are full. */
  ghost predicate Probed(first: nat, b: nat, buckets: seq<Bucket>)
    requires |buckets| == BUCKET_COUNT
  {
    forall other :: 0 <= other < BUCKET_COUNT && Distance(first, other) < Distance(first, b) ==> Full(buckets[other])
  }

  /** The event and, in order, its strings: all that were wanted among those that are not left, or as
      many as went before the bucket was full. */
  ghost predicate Served(b: nat, left: seq<nat>, first: nat, sizes: seq<nat>, made: seq<Grant>, buckets: seq<Bucket>) {
    && |buckets| == BUCKET_COUNT && b < |buckets| && Probed(first, b, buckets)
    && |left| <= |sizes| && sizes[|sizes| - |left|..] == left
    && made != [] && made[0].kind == EventBlock
    && (forall k :: 1 <= k < |made| ==> made[k].kind == StrBlock)
    && (forall g :: g in made ==> g in buckets[b].grants)
    && InOrder(made)
    && Sizes(made[1..]) <= Wanted(sizes[..|sizes| - |left|])
    && (Sizes(made[1..]) == Wanted(sizes[..|sizes| - |left|]) || Full(buckets[b]))
  }

  ghost predicate Progress(t: Thread, first: nat, sizes: seq<nat>, made: seq<Grant>, buckets: seq<Bucket>) {
    match t
    case Idle => false
    case Asking(b, _, job) =>
      if job.RecordEvent? then made == [] && job.first == first && job.sizes == sizes
      else Served(b, [job.size] + job.rest, first, sizes, made, buckets)
    case Refused(b, _, job) =>
      if job.RecordEvent? then made == [] && job.first == first && job.sizes == sizes
      else Served(b, [job.size] + job.rest, first, sizes, made, buckets)
    case Owning(b, _, rest) => Served(b, rest, first, sizes, made, buckets)
    case Copying(b, _, rest) => Served(b, rest, first, sizes, made, buckets)
    case Recording(b, rest) => Served(b, rest, first, sizes, made, buckets)
    case GaveUp(_) => made == []
  }

  // ----- Steps of other threads

  lemma StillProbed(first: nat, b: nat, buckets: seq<Bucket>, buckets': seq<Bucket>)
    requires |buckets| == BUCKET_COUNT && Grows(buckets, buckets') && Probed(first, b, buckets)
    ensures Probed(first, b, buckets')
  {
    hide Total, Distance;
    assert forall other :: 0 <= other < BUCKET_COUNT ==> GrowsOne(buckets[other], buckets'[other]);
  }

  /** An event that has found its probes full has found full what lies before. */
  lemma ProbedSoFar(first: nat, tries: nat, buckets: seq<Bucket>)
    requires |buckets| == BUCKET_COUNT && first < BUCKET_COUNT && tries < BUCKET_COUNT
    requires forall j :: 0 <= j < tries ==> Full(buckets[Probe(first, j)])
    ensures Probed(first, (first + tries) % BUCKET_COUNT, buckets)
  {
    hide Full, Probe;
    forall other: nat | other < BUCKET_COUNT && Distance(first, other) < Distance(first, (first + tries) % BUCKET_COUNT)
      ensures Full(buckets[other])
    {
      ProbeIs(first, Distance(first, other));
      assert Probe(first, Distance(first, other)) == other;
    }
  }

  lemma StillServed(b: nat, left: seq<nat>, first: nat, sizes: seq<nat>, made: seq<Grant>, buckets: seq<Bucket>, buckets': seq<Bucket>)
    requires Served(b, left, first, sizes, made, buckets) && Grows(buckets, buckets')
    ensures Served(b, left, first, sizes, made, buckets')
  {
    hide Total, Wanted, InOrder, Probed;
    StillProbed(first, b, buckets, buckets');
    assert GrowsOne(buckets[b], buckets'[b]);
  }

  lemma StillInProgress(t: Thread, first: nat, sizes: seq<nat>, made: seq<Grant>, buckets: seq<Bucket>, buckets': seq<Bucket>)
    requires Progress(t, first, sizes, made, buckets) && Grows(buckets, buckets')
    ensures Progress(t, first, sizes, made, buckets')
  {
    hide Served, Grows;
    match t
    case Asking(b, _, job) =>
      if job.CopyString? { StillServed(b, [job.size] + job.rest, first, sizes, made, buckets, buckets'); }
    case Refused(b, _, job) =>
      if job.CopyString? { StillServed(b, [job.size] + job.rest, first, sizes, made, buckets, buckets'); }
    case Owning(b, _, rest) => StillServed(b, rest, first, sizes, made, buckets, buckets');
    case Copying(b, _, rest) => StillServed(b, rest, first, sizes, made, buckets, buckets');
    case Recording(b, rest) => StillServed(b, rest, first, sizes, made, buckets, buckets');
    case _ =>
  }

  // ----- Steps of the thread itself

  lemma WantedNext(sizes: seq<nat>, n: nat)
    requires n < |sizes|
    ensures Wanted(sizes[..n + 1]) == Wanted(sizes[..n]) + (if sizes[n] <= INT_MAX then [sizes[n]] else [])
  {
    assert DropLast(sizes[..n + 1]) == sizes[..n];
  }

  /** A string that is turned down leaves the rest. */
  lemma SkippedServed(b: nat, left: seq<nat>, first: nat, sizes: seq<nat>, made: seq<Grant>, buckets: seq<Bucket>)
    requires Served(b, left, first, sizes, made, buckets) && left != []
    requires left[0] > INT_MAX || Full(buckets[b])
    ensures Served(b, left[1..], first, sizes, made, buckets)
  {
    hide Total, Wanted, InOrder, Full, Probed;
    var n := |sizes| - |left|;
    WantedNext(sizes, n);
    assert sizes[n] == left[0];
    assert sizes[n + 1..] == left[1..];
  }

  /** One that is granted follows what the thread was granted before. */
  lemma GrantedServed(b: nat, left: seq<nat>, first: nat, sizes: seq<nat>, made: seq<Grant>, buckets: seq<Bucket>, bucket: Bucket, g: Grant)
    requires Served(b, left, first, sizes, made, buckets) && left != [] && left[0] == g.size <= INT_MAX && g.kind == StrBlock
    requires Tiles(buckets[b].grants) && !Full(buckets[b])
    requires bucket.grants == buckets[b].grants + [g] && g.start == Total(buckets[b].grants)
    requires Grows(buckets, buckets[b := bucket])
    ensures Served(b, left[1..], first, sizes, made + [g], buckets[b := bucket])
  {
    hide Wanted, Full, Probed, Grows;
    StillProbed(first, b, buckets, buckets[b := bucket]);
    var n := |sizes| - |left|;
    WantedNext(sizes, n);
    assert sizes[n] == left[0];
    assert sizes[n + 1..] == left[1..];
    SizesNext(made, g);
    GrantedInOrder(buckets[b].grants, made, g);
    assert bucket.grants[|bucket.grants| - 1] == g;
  }

  lemma SizesNext(made: seq<Grant>, g: Grant)
    requires made != []
    ensures Sizes((made + [g])[1..]) == Sizes(made[1..]) + [g.size]
  {
  }

  lemma GrantedInOrder(grants: seq<Grant>, made: seq<Grant>, g: Grant)
    requires Tiles(grants) && g.start == Total(grants) && InOrder(made) && forall h :: h in made ==> h in grants
    ensures InOrder(made + [g])
  {
    hide Tiles, Total;
    forall j | 0 <= j < |made| ensures made[j].start + made[j].count <= g.start {
      assert made[j] in made;
      var k :| 0 <= k < |grants| && grants[k] == made[j];
      GrantEnds(grants, k);
    }
  }

  lemma EventServed(b: nat, first: nat, sizes: seq<nat>, buckets: seq<Bucket>, bucket: Bucket, g: Grant)
    requires |buckets| == BUCKET_COUNT && Probed(first, b, buckets) && g.kind == EventBlock
    requires b < BUCKET_COUNT && Grows(buckets, buckets[b := bucket]) && bucket.grants == buckets[b].grants + [g]
    ensures Served(b, sizes, first, sizes, [g], buckets[b := bucket])
  {
    hide Full, Probed, Grows;
    StillProbed(first, b, buckets, buckets[b := bucket]);
    assert bucket.grants[|bucket.grants| - 1] == g;
    assert sizes[..0] == [];
  }

  /** What an addition of the thread adds to the grants. */
  lemma AdditionAdds(s: State, who: nat, s': State)
    requires Inv(s) && Next(s, who, FetchAndAdd, s')
    ensures var t := s.threads[who];
      && t.bucket < BUCKET_COUNT && Tiles(s.buckets[t.bucket].grants)
      && if Full(s.buckets[t.bucket]) then
           s'.threads[who] == Refused(t.bucket, t.count, t.job) && NewGrants(s, who, FetchAndAdd, s') == []
         else
           var g := Grant(Total(s.buckets[t.bucket].grants), t.count, KindOf(t.job), SizeOf(t.job));
           && s'.threads[who] == Owning(t.bucket, g, RestOf(t.job)) && NewGrants(s, who, FetchAndAdd, s') == [g]
           && s'.buckets == s.buckets[t.bucket := s'.buckets[t.bucket]]
           && s'.buckets[t.bucket].grants == s.buckets[t.bucket].grants + [g]
  {
    hide Total, Tiles, BucketFits, Pending, Full;
    var t := s.threads[who];
    assert t in s.threads;
    assert ThreadFits(t, s.buckets);
    PendingFits(s, t.bucket);
    InvBucket(s, t.bucket);
    BucketIsTiled(s.buckets[t.bucket], Pending(s.threads, t.bucket), |s.threads|);
    AdditionKeepsBucket(s.buckets[t.bucket], t, Pending(s.threads, t.bucket), |s.threads|);
  }

  lemma BucketIsTiled(bucket: Bucket, pending: nat, threadCount: nat)
    requires BucketFits(bucket, pending, threadCount)
    ensures Tiles(bucket.grants)
  {
  }

  lemma OwnAddition(s: State, who: nat, s': State, first: nat, sizes: seq<nat>, made: seq<Grant>)
    requires Inv(s) && Next(s, who, FetchAndAdd, s') && Grows(s.buckets, s'.buckets)
    requires Progress(s.threads[who], first, sizes, made, s.buckets)
    ensures Progress(s'.threads[who], first, sizes, made + NewGrants(s, who, FetchAndAdd, s'), s'.buckets)
  {
    AdditionAdds(s, who, s');
    hide Inv, Next, Served, Grows, Total, Tiles, Full, NewGrants, Probed;
    var t := s.threads[who];
    NothingAfter(made);
    if Full(s.buckets[t.bucket]) {
      StillInProgress(t, first, sizes, made, s.buckets, s'.buckets);
    } else {
      var g := s'.threads[who].grant;
      if t.job.RecordEvent? {
        EventAsked(s, who);
        EventServed(t.bucket, first, sizes, s.buckets, s'.buckets[t.bucket], g);
        NothingBefore([g]);
      } else {
        var left := [t.job.size] + t.job.rest;
        assert left[1..] == t.job.rest;
        StringAsked(s, who);
        GrantedServed(t.bucket, left, first, sizes, made, s.buckets, s'.buckets[t.bucket], g);
      }
    }
  }

  lemma StringAsked(s: State, who: nat)
    requires Inv(s) && who < |s.threads| && s.threads[who].Asking? && s.threads[who].job.CopyString?
    ensures s.threads[who].job.size <= INT_MAX
  {
    assert s.threads[who] in s.threads;
  }

  lemma EventAsked(s: State, who: nat)
    requires Inv(s) && who < |s.threads| && s.threads[who].Asking? && s.threads[who].job.RecordEvent?
    ensures Probed(s.threads[who].job.first, s.threads[who].bucket, s.buckets)
  {
    hide Total, Probed, Full, BucketFits;
    var t := s.threads[who];
    assert t in s.threads;
    assert ThreadFits(t, s.buckets);
    ProbedSoFar(t.job.first, t.job.tries, s.buckets);
  }

  lemma OwnTakeBack(s: State, who: nat, s': State, first: nat, sizes: seq<nat>, made: seq<Grant>)
    requires Inv(s) && Next(s, who, TakeBack, s') && Grows(s.buckets, s'.buckets)
    requires Progress(s.threads[who], first, sizes, made, s.buckets)
    ensures Progress(s'.threads[who], first, sizes, made, s'.buckets)
  {
    hide Served, Grows, Total, Tiles;
    var t := s.threads[who];
    assert t in s.threads;
    if t.job.CopyString? {
      var left := [t.job.size] + t.job.rest;
      assert left[1..] == t.job.rest;
      SkippedServed(t.bucket, left, first, sizes, made, s.buckets);
    }
    StillInProgress(AfterRefusal(t.bucket, t.job), first, sizes, made, s.buckets, s'.buckets);
  }

  lemma OwnBeginString(s: State, who: nat, s': State, first: nat, sizes: seq<nat>, made: seq<Grant>)
    requires Inv(s) && Next(s, who, BeginString, s')
    requires Progress(s.threads[who], first, sizes, made, s.buckets)
    ensures Progress(s'.threads[who], first, sizes, made, s'.buckets)
  {
    hide Served;
    var t := s.threads[who];
    assert [t.rest[0]] + t.rest[1..] == t.rest;
    if t.rest[0] > INT_MAX {
      SkippedServed(t.bucket, t.rest, first, sizes, made, s.buckets);
    }
  }

  /** Every step of a thread inside a call goes on with what is left. */
  lemma OwnStep(s: State, who: nat, step: Step, s': State, first: nat, sizes: seq<nat>, made: seq<Grant>)
    requires Inv(s) && Next(s, who, step, s') && !step.BeginEvent? && !step.Return?
    requires Progress(s.threads[who], first, sizes, made, s.buckets)
    ensures Progress(s'.threads[who], first, sizes, made + NewGrants(s, who, step, s'), s'.buckets)
  {
    hide Inv, Served, Grows, AddToCounter;
    StepKeepsInv(s, who, step, s');
    NothingAfter(made);
    match step
    case FetchAndAdd => OwnAddition(s, who, s', first, sizes, made);
    case TakeBack => OwnTakeBack(s, who, s', first, sizes, made);
    case BeginString => OwnBeginString(s, who, s', first, sizes, made);
    case WriteHeader => StillInProgress(s'.threads[who], first, sizes, made, s.buckets, s'.buckets);
    case CopyData => StillInProgress(s'.threads[who], first, sizes, made, s.buckets, s'.buckets);
    case _ =>
  }

  // ----- Whole calls

  /** Between step i, which begins the call, and state j the thread neither begins nor ends another. */
  ghost predicate InsideCall(whos: seq<nat>, steps: seq<Step>, who: nat, i: nat, j: nat)
    requires |whos| == |steps|
  {
    && i < j <= |steps| && whos[i] == who && steps[i].BeginEvent?
    && forall k :: i < k < j && whos[k] == who ==> !steps[k].BeginEvent? && !steps[k].Return?
  }

  lemma {:induction false} CallInProgress(states: seq<State>, whos: seq<nat>, steps: seq<Step>, who: nat, i: nat, j: nat)
    requires Run(states, whos, steps) && InsideCall(whos, steps, who, i, j)
    ensures who < |states[j].threads|
    ensures Progress(states[j].threads[who], steps[i].first, steps[i].sizes, Made(states, whos, steps, who, i + 1, j), states[j].buckets)
    decreases j
  {
    hide Inv, Start, Next, Progress, NewGrants, Grows;
    RunKeepsInv(states, whos, steps, j - 1);
    StepLeaves(states[j - 1], whos[j - 1], steps[j - 1], states[j], who);
    if j == i + 1 {
      CallBegins(states[i], who, steps[i], states[j]);
    } else {
      CallInProgress(states, whos, steps, who, i, j - 1);
      var made := Made(states, whos, steps, who, i + 1, j - 1);
      if whos[j - 1] == who {
        OwnStep(states[j - 1], who, steps[j - 1], states[j], steps[i].first, steps[i].sizes, made);
      } else {
        NothingAfter(made);
        StillInProgress(states[j].threads[who], steps[i].first, steps[i].sizes, made, states[j - 1].buckets, states[j].buckets);
      }
    }
  }

  /** What any thread's step leaves of another thread and the buckets. */
  lemma StepLeaves(s: State, who: nat, step: Step, s': State, other: nat)
    requires Inv(s) && Next(s, who, step, s')
    ensures |s'.threads| == |s.threads| && who < |s.threads| && Grows(s.buckets, s'.buckets)
    ensures other != who && other < |s.threads| ==> s'.threads[other] == s.threads[other]
  {
    hide Inv, Grows;
    StepKeepsInv(s, who, step, s');
  }

  lemma CallBegins(s: State, who: nat, step: Step, s': State)
    requires Next(s, who, step, s') && step.BeginEvent?
    ensures who < |s'.threads| && Progress(s'.threads[who], step.first, step.sizes, [], s'.buckets)
  {
  }

  /** When a call returns, either it got nothing and all buckets are full, or the first bucket with
      room, from the event's own one on, has granted it, in this order, its event and all its
      strings that the allocator accepts, one grant each; strings are missing only at the end, and
      only if the bucket is full. */
  lemma CallServesAll(states: seq<State>, whos: seq<nat>, steps: seq<Step>, who: nat, i: nat, j: nat) returns (b: nat)
    requires Run(states, whos, steps) && InsideCall(whos, steps, who, i, j)
    requires j < |steps| && whos[j] == who && steps[j] == Return
    ensures var sizes, made, buckets := steps[i].sizes, Made(states, whos, steps, who, i + 1, j), states[j].buckets;
      if made == [] then
        |buckets| == BUCKET_COUNT && forall other :: 0 <= other < BUCKET_COUNT ==> Full(buckets[other])
      else
        && |buckets| == BUCKET_COUNT && b < BUCKET_COUNT
        && Probed(steps[i].first, b, buckets)
        && (forall g :: g in made ==> g in buckets[b].grants) && InOrder(made)
        && made[0].kind == EventBlock && (forall k :: 1 <= k < |made| ==> made[k].kind == StrBlock)
        && Sizes(made[1..]) <= Wanted(sizes)
        && (Sizes(made[1..]) == Wanted(sizes) || Full(buckets[b]))
  {
    CallInProgress(states, whos, steps, who, i, j);
    RunKeepsInv(states, whos, steps, j);
    hide Start, Total, Tiles, Wanted, Made, InOrder, Full, Probed;
    assert Next(states[j], whos[j], steps[j], states[j + 1]);
    var t, sizes := states[j].threads[who], steps[i].sizes;
    assert t in states[j].threads;
    assert ThreadFits(t, states[j].buckets);
    assert sizes[..|sizes|] == sizes;
    b := if t.Recording? then t.bucket else 0;
  }

  // ----- No thread waits for another

  ghost predicate CanStep(s: State, who: nat) {
    exists step :: Enabled(s, who, step)
  }

  /** In every state no thread is stuck. */
  lemma NoThreadIsStuck(states: seq<State>, whos: seq<nat>, steps: seq<Step>, i: nat, who: nat)
    requires Run(states, whos, steps) && i < |states| && who < |states[i].threads| && !states[i].overrun
    ensures CanStep(states[i], who)
  {
    RunKeepsInv(states, whos, steps, i);
    hide Start, Next, Total, Tiles, Pending, BucketFits;
    var s, t := states[i], states[i].threads[who];
    assert t in s.threads;
    assert ThreadFits(t, s.buckets);
    var step := match t
      case Idle => BeginEvent(0, [])
      case Asking(_, _, _) => FetchAndAdd
      case Refused(_, _, _) => TakeBack
      case Owning(_, _, _) => WriteHeader
      case Copying(_, _, _) => CopyData
      case Recording(_, rest) => if rest == [] then Return else BeginString
      case GaveUp(_) => Return;
    assert Enabled(s, who, step);
  }

  /** Steps that a thread still has to take at most before its call is over. */
  ghost function Remaining(t: Thread): int {
    match t
    case Idle => 0
    case Asking(_, _, job) =>
      if job.CopyString? then 4 + 4 * |job.rest| else 2 * (BUCKET_COUNT - job.tries) + 4 + 4 * |job.sizes|
    case Refused(_, _, job) =>
      if job.CopyString? then 2 + 4 * |job.rest| else 2 * (BUCKET_COUNT - job.tries) + 3 + 4 * |job.sizes|
    case Owning(_, _, rest) => 3 + 4 * |rest|
    case Copying(_, _, rest) => 2 + 4 * |rest|
    case Recording(_, rest) => 1 + 4 * |rest|
    case GaveUp(_) => 1
  }

  ghost function OwnSteps(whos: seq<nat>, who: nat, from: nat, to: nat): nat
    requires from <= to <= |whos|
  {
    if from == to then 0 else OwnSteps(whos, who, from, to - 1) + if whos[to - 1] == who then 1 else 0
  }

  lemma OwnStepsCount(s: State, who: nat, step: Step, s': State)
    requires Inv(s) && Next(s, who, step, s')
    ensures step.BeginEvent? ==> Remaining(s'.threads[who]) <= 48
    ensures !step.BeginEvent? ==> Remaining(s'.threads[who]) < Remaining(s.threads[who])
    ensures Remaining(s'.threads[who]) >= 0
  {
    hide Total, Tiles, BucketFits;
    assert s.threads[who] in s.threads;
    assert ThreadFits(s.threads[who], s.buckets);
  }

  lemma {:induction false} CallIsShort(states: seq<State>, whos: seq<nat>, steps: seq<Step>, who: nat, i: nat, j: nat)
    requires Run(states, whos, steps) && InsideCall(whos, steps, who, i, j)
    ensures who < |states[j].threads| && Remaining(states[j].threads[who]) >= 0
    ensures OwnSteps(whos, who, i + 1, j) + Remaining(states[j].threads[who]) <= 48
    decreases j
  {
    hide Inv, Start, Next, Remaining, Grows;
    RunKeepsInv(states, whos, steps, j - 1);
    StepLeaves(states[j - 1], whos[j - 1], steps[j - 1], states[j], who);
    if j > i + 1 {
      CallIsShort(states, whos, steps, who, i, j - 1);
    }
    if whos[j - 1] == who {
      OwnStepsCount(states[j - 1], who, steps[j - 1], states[j]);
    }
  }

  /** A call takes at most 48 steps of its own, however many steps other threads take in between. */
  lemma CallsAreWaitFree(states: seq<State>, whos: seq<nat>, steps: seq<Step>, who: nat, i: nat, j: nat)
    requires Run(states, whos, steps) && InsideCall(whos, steps, who, i, j)
    ensures OwnSteps(whos, who, i + 1, j) <= 48
  {
    CallIsShort(states, whos, steps, who, i, j);
  }
}
