# v1util: verified models

Dafny models of the parts of v1util whose correctness is least obvious, with proofs of what they
are for. `dafny verify dfyconfig.toml` checks everything.

- **Streaming peak finder** (`dsp/peakfinder.hpp`). `PeakDetector` turns samples into rising,
  falling and peak events; `PeakIsolator` keeps the two monotone deques of 64-bit stream
  positions; `PeakFinder` joins them. The classes are proved against `StoredPeaks`, functions on
  positions and ages that wrap around. `DominantPeaks` and `PeakPipeline` are the same on an
  unbounded clock; `PeakStream` and `PeakTheorems` relate them to the samples and to the slow
  windowed scan of `dsp/tst_peakfinder.cpp`, which is `PeakWindow`. `PeakClock`, with the ages from
  `PeakSpacing`, proves that both forms agree, `PeakRollover` for how long, and `PeakRuns` runs both
  finders. `PeakLevels`, `PeakThresholds` and `PeakExceptions` are about streams whose blocks each have
  a threshold of their own, `PeakIdle` about calls that change nothing. Main results: for every stream,
  threshold and split into blocks within the three bounds below, both finders report the same samples,
  each once, in order, and as soon as the window behind a sample is complete, wherever the stream
  position starts and wraps; the deques never overflow; and whatever the thresholds of the blocks are,
  what is reported is not exceeded by anything that is raised later, but for one exception.
- **Windowed maximum** (`LocalMaxima`): the monotone queue of the same header.
- **Ring buffer** (`container/ringbuffer.hpp`). `RingBuffer` is the queue and deque as a class over
  an array; `SpscQueue` is the same code as interleaved steps of one producer and one consumer.
- **Wildcard matcher** (`WildcardMatch`), **connection order** (`MortonOrder`),
  **reference-counted function handle** (`FunctionHandle`) and **UTF-8 decoder** (`Utf8`): one module
  each.
- **WAVE files**: `WaveIo` writes and reads them, `WaveChunks` is about the header's fields and about
  files of other origin, `WavePieces` about reading piece by piece.
- **Block allocator of the tracer**: `BlockAllocator` has its steps and what they keep of counters and
  grants, `BlockStrings` what a whole call achieves and in how many steps, `BlockContents` what becomes
  of the bytes written, `BlockOverruns` the strings that make copies leave their blocks or the array.
- `RingMath` holds the ring comparisons of `base/math.hpp`, `PeakTypes` the records shared by the
  peak finder's stages, `DivMod` and `Sequences` facts on division and sequences.

Concurrent code (`SpscQueue`, `BlockAllocator`) is a state machine: a step is one atomic access, one
access to a slot or one write to a granted block, any thread may take the next step, and theorems are
about every state of every run. Memory is sequentially consistent.

## What the proofs found

- **Peak finder, block size.** With a lockout distance W of at least 2 the finder agrees with the
  reference for all streams exactly if no block is longer than W + 2
  (`PeakTheorems.BlockBoundIsExact`; on wrapped positions,
  `PeakRollover.StoredBlockBoundIsExact`). A longer block lets the purge of old memory entries
  (`dsp/peakfinder.hpp:332-334`, limit 3W + 1) run before a pending peak is judged by them. For
  W = 1 any block size is fine. The fuzz harness stays within W (`dsp/tst_peakfinder.cpp:851`), but
  `dsp/tst_peakfinder.cpp:258-265` also runs whole inputs as one block.
- **Peak finder, start of stream.** The largest value of the sample type marks a stream that has
  not started (`dsp/peakfinder.hpp:185`). For W of at least 2 the finder agrees with the reference
  on all continuations of two first samples exactly if they are not both that value
  (`PeakTheorems.StartConditionIsExact`, `PeakRollover.StoredStartConditionIsExact`). A single
  sample of that value does no harm.
- **Peak finder, length of a stream.** The purge is there so that memory entries do not outlive a
  turn of the 64-bit stream position (`dsp/peakfinder.hpp:328-331`), but it returns early while
  nothing is pending, so after a long silence they do. The finder agrees with the reference on all
  streams of at most n samples exactly if n is at most 2^64 + W
  (`PeakRollover.StreamBoundIsExact`). One sample more, and a high first sample, a silence of one
  turn and a lower peak make it miss that peak, whose position equals the first sample's
  (`PeakRollover.RolloverDisagrees`). Neither deque overflows on that stream, so the classes do the
  same.
- **Peak finder, plateau delay.** With a constant threshold the delay that a pending plateau adds
  to the purge position (`dsp/peakfinder.hpp:497-501`) has no effect
  (`PeakPipeline.PlateauDelayIsIdle`): the queue is empty whenever it applies. It matters once blocks
  have thresholds of their own. Then it makes the purge wait for every open plateau that could still
  exceed what is pending, and no longer than that (`PeakThresholds.ReportedIsUnexceeded`,
  `PeakThresholds.PendingIsAwaited`).
- **Peak finder, thresholds.** A rise that goes unseen, since its block has a higher threshold, can be
  followed by a fall that is seen by a lower one. If a block ends with that sample, a peak that lies
  exactly W before it is already reported although the fall exceeds it. Nothing else can exceed what
  is reported (`PeakExceptions.ExceededByUnseenRise`). With all thresholds between lo and hi this
  happens in some run exactly if W is at least 3 and hi is at least 3 above the least peak that reaches
  lo (`PeakExceptions.ThresholdRangeIsExact`).
- **Peak finder, promotion.** The branch that gives a pending entry a new kind
  (`dsp/peakfinder.hpp:288-293`) is never taken, since rises are never queued
  (`PeakIdle.NothingIsPromoted`).
- **Function handle, equality.** The comment at `callable/function.hpp:297-305` promises that empty
  handles compare equal. A handle that was moved from keeps its storage word. All empty handles in all
  states of a run compare equal to a new one exactly if the run never moves out of a handle whose word
  is not zero (`FunctionHandle.EmptyHandlesEqualIffNoSuchMove`); creating a handle and moving out of it
  is enough to break it (`FunctionHandle.TwoOperationsBreakEquality`).
- **Block allocator, text of strings.** A string of n bytes, terminator included, is granted
  1 + n / 208 blocks of 208 bytes, but its text starts behind the first block's 16 bytes of type and
  count. So copies stay within their own blocks, in all runs, exactly if n mod 208 is at most 192 for
  all strings (`BlockOverruns.CopiesStayInGrantsIff`). Exactly then, as long as no copy leaves its
  array, all headers and texts are as they were written once no thread is inside a call
  (`BlockOverruns.AllIsKeptIff`). Otherwise a run of two threads ends with an event whose block does
  not carry its type (`BlockOverruns.HeaderIsLost`). Events themselves are never damaged before a copy
  leaves its array (`BlockContents.EventsAreKept`).
- **Block allocator, end of the array.** All copies of all runs stay within the array exactly if no
  string is longer than 192 bytes (`BlockOverruns.CopiesStayInArrayIff`). Even the granted blocks lie
  inside only if all strings are shorter than 208 bytes (`BlockOverruns.GrantsStayInsideIff`), since a
  call succeeds as soon as its first block lies below the capacity: precisely the additions that carry
  the counter from below the capacity to above it hand out blocks past the end
  (`BlockAllocator.CrossingCallReachesOver`). This happens in some run on every bucket of two blocks
  or more, and never on a smaller one, whose only block goes to an event
  (`BlockOverruns.OverrunIffTwoBlocks`).
- **Connections.** Removing a key on one end deletes every connection with that key, also those to
  other signals; the two ends of another connection stay mirrored exactly if the key is not shared
  (`MortonOrder.SharedKeysBreakMirrors`, with an instance in `MortonOrder.DisconnectOneOfTwo`).
- **WAVE header.** A header reads back as written exactly if the data's size fits 32 bits
  (`WaveIo.HeaderRoundTrip`); an overflow is silent. A sample frame whose size is a multiple of
  65536 bytes has block alignment zero, and reading its header divides by zero
  (`WaveIo.HeaderOutcome`, `WaveIo.ManyChannelsDivideByZero`). The size of the file that the header
  states is right exactly if no fact chunk is written and the data need no padding
  (`WaveChunks.FileSizeIsRightIff`): with a fact chunk, so in every 32-bit float file, it is 12 short.
- **WAVE chunks.** Other chunks before the format and before the data are skipped
  (`WaveChunks.OtherChunksAreSkipped`), but not the byte of padding that a RIFF file has behind a chunk of
  odd size: with such a chunk between format and data, less than 16 MiB of data are never found
  (`WaveChunks.PaddedChunkHidesData`).
- **WAVE data.** A read takes whole buffers, also of what follows the sample data. All its writes stay
  within the target exactly if the file ends in time, the samples fit one buffer, or whole buffers do
  not reach over the target (`WaveIo.ReadsInside`). Two channels with 8193 samples and another chunk of
  64 KiB behind them are enough to reach over it (`WaveIo.TrailingChunkReachesOver`).

## Model

| member | source | states |
|---|---|---|
| RingMath.RingDistanceIsClockDifference | base/math.hpp:69-77 | The signed ring distance of two wrapped clocks is their difference if and only if that difference is a signed 64-bit number |
| RingMath.RingOrderIsClockOrder | base/math.hpp:88-137 | Less than half a ring apart, all five ring comparisons agree with the order of the unbounded clocks, wherever the counter wrapped |
| RingBuffer.ChunkedRingBuffer.constructor | container/ringbuffer.hpp:51-56 | A new buffer is empty and has the requested capacity |
| RingBuffer.ChunkedRingBuffer.Push | container/ringbuffer.hpp:117-124 | Appends one element at the queue end, the deque front, for every head and tail position |
| RingBuffer.ChunkedRingBuffer.Pop | container/ringbuffer.hpp:126-133 | Takes the oldest element and leaves the others in order |
| RingBuffer.ChunkedRingBuffer.Drop | container/ringbuffer.hpp:142-147 | Removes the oldest element |
| RingBuffer.ChunkedRingBuffer.FillFrom | container/ringbuffer.hpp:58-86 | Appends a whole chunk in order, whether or not it wraps; overwrites nothing that is queued |
| RingBuffer.ChunkedRingBuffer.DrainTo | container/ringbuffer.hpp:88-115 | What was queued is what came out followed by what is left |
| RingBuffer.ChunkedRingBuffer.PushBack | container/ringbuffer.hpp:195-200 | Appends at the deque back, whichever slot is next |
| RingBuffer.ChunkedRingBuffer.PopBack | container/ringbuffer.hpp:194 | Removes the deque back only |
| RingBuffer.ChunkedRingBuffer.Front | container/ringbuffer.hpp:209-213 | Reads the element pushed to the front last |
| RingBuffer.ChunkedRingBuffer.PopFront | container/ringbuffer.hpp:214-218 | Removes the deque front only |
| RingBuffer.ChunkedRingBuffer.PushFront | container/ringbuffer.hpp:219 | Puts an element before all others |
| RingBuffer.FillAgainstPushes | container/ringbuffer.hpp:58-124 | One fillFrom on one buffer and pushes one by one on another leave both with the same contents, wherever either wraps |
| RingBuffer.DrainAgainstPops | container/ringbuffer.hpp:88-133 | One drainTo on one buffer and pops one by one on another take the same elements in the same order and leave the same contents |
| RingBuffer.FillUp | container/ringbuffer.hpp:51-56 | A new buffer takes exactly as many elements as its capacity says, and is full behind the last and not before |
| SpscQueue.EveryStepKeepsInv | container/ringbuffer.hpp:58-133 | Any step of either thread, in any state reached, hits an existing slot and keeps the invariant of pointers, slots and unconsumed values, although the check of room or size may be stale |
| SpscQueue.RunIsFirstInFirstOut | container/ringbuffer.hpp:58-163 | In every interleaving the values consumed are a prefix of those produced, no slot is read before it is written or overwritten before it is read, and no enabled step is stuck |
| SpscQueue.RunIsAtomic | container/ringbuffer.hpp:58-163 | Publishing the head appends a whole block at once, publishing the tail removes exactly the block copied out, nothing else changes the queue, and the checks see its length |
| SpscQueue.QueuedIsSlots | container/ringbuffer.hpp:159-163 | The slots between the pointers hold the values produced and not yet released, in order |
| SpscQueue.RunLosesNothing | container/ringbuffer.hpp:58-133 | Between operations what was produced is what was consumed followed by what is queued |
| SpscQueue.ProducedIsOffered | container/ringbuffer.hpp:58-86 | What is written to the slots is what the producer passes in: in every state a prefix of all data handed to fillFrom so far, in order, and all of them between two fills |
| SpscQueue.DrainsTakeInOrder | container/ringbuffer.hpp:88-115 | Every drain returns as many elements as it asks for, namely those offered behind what all drains before it asked for, however the threads interleave |
| SpscQueue.ProducerMayGoOn | container/ringbuffer.hpp:58-86 | Between two fills exactly as much may be filled in as the last check of the room still leaves; in a fill the next slot may be written, or the head published |
| SpscQueue.ConsumerMayGoOn | container/ringbuffer.hpp:88-115 | The same for drains and the last check of the size |
| PeakWindow.FindPeak | dsp/peakfinder.hpp:23-40 | Returns the middle of the first maximal run of largest values if that run touches neither end of the range, and the end otherwise |
| PeakWindow.IsPlateauTooLong | dsp/peakfinder.hpp:50-61 | True exactly if the run of equal values around the peak, as far as the range shows it, exceeds the limit |
| PeakWindow.FirstTopRunIsUnique | dsp/peakfinder.hpp:16-20 | A range has at most one peak |
| PeakWindow.PeakOfWindowIsShort | dsp/tst_peakfinder.cpp:95-106 | In a window of at most 2W + 1 samples no peak has a plateau longer than 2W - 1, so the extra test of the reference rejects nothing |
| PeakWindow.ReferenceStreamingPeakFinder.ScanWindow | dsp/tst_peakfinder.cpp:86-111 | One iteration reports exactly the sample W before the window end if it is the peak of the window and reaches the threshold |
| PeakWindow.ReferenceStreamingPeakFinder.Process | dsp/tst_peakfinder.cpp:75-112 | Reports exactly the dominant samples whose windows the new block completes, in order |
| PeakDetector.StreamingPeakDetector.Process | dsp/peakfinder.hpp:118-170 | Raises the stamped events of the specification, for any block, any start position and any wrap of the position |
| PeakDetector.DetectSplit | dsp/peakfinder.hpp:118-170 | Processing block by block raises the events of processing the samples at once |
| PeakDetector.DetectorTracks | dsp/peakfinder.hpp:142-143 | The two state variables are the last value and the capped length of the run reached by a rise, whatever the split |
| PeakDetector.EventsExact | dsp/peakfinder.hpp:130-162 | Peak events are exactly the middles of maximal runs that are short enough, high enough and strictly higher than both neighbours; rising and falling events are exactly the remaining steps up and down |
| PeakDetector.PlateauLimitIsExact | dsp/peakfinder.hpp:105-110 | A detector made for plateaus of up to m samples raises peaks for exactly the hills of up to m samples that reach the threshold, for every m |
| PeakStream.EventsWellOrdered | dsp/peakfinder.hpp:130-162 | Events come in the order in which the isolator expects them: positions do not decrease, only a rise shares its position, and a rise is followed by an event at least as high |
| PeakStream.RightDominantSamples | dsp/peakfinder.hpp:130-162 | No larger event in the window after a sample means no larger sample there |
| PeakStream.LockedOutSamples | dsp/peakfinder.hpp:340-346 | The values that lock out a peak are the samples before it in the window that are at least as large |
| DominantPeaks.LockedOutIffDominated | dsp/peakfinder.hpp:371-389 | Of all values seen, the memory queue keeps one that dominates a peak from the left exactly if there is one |
| DominantPeaks.EventKeepsInv | dsp/peakfinder.hpp:278-307 | After every event both queues hold exactly what decides later peaks, and the report is exact up to that time |
| DominantPeaks.PurgeKeepsInv | dsp/peakfinder.hpp:314-337 | A purge keeps the report exact up to its position if every lockout of a pending peak is young enough to survive it |
| DominantPeaks.IsolatorIsExact | dsp/peakfinder.hpp:278-307 | Without purges the peaks reported are exactly those at least a window old with no larger event in the window after and none as large in the window before, each once and in order |
| PeakSpacing.RightIsSmall | dsp/peakfinder.hpp:295-306 | The right queue holds at most W entries after every call |
| PeakSpacing.MemoryIsSmall | dsp/peakfinder.hpp:371-391 | The memory queue holds at most W + 2 entries, the initial value included |
| PeakSpacing.FlushSpaced | dsp/peakfinder.hpp:354-362 | A flush keeps both queues ordered by position and within a window |
| PeakSpacing.EventKeepsOrder | dsp/peakfinder.hpp:278-307 | An event that comes no earlier than the queues expect leaves them spaced, behind the next event, and with nothing pending that is older than before |
| PeakSpacing.PurgeKeepsOrder | dsp/peakfinder.hpp:314-337 | After a purge nothing pending is a window older than the purge position, whether or not it returned early |
| PeakSpacing.DetectChained | dsp/peakfinder.hpp:130-162 | The positions of a block's events never run behind the isolator's queues |
| PeakIsolator.SlidingWindowDominantPeakIsolator.constructor | dsp/peakfinder.hpp:263-267 | Two empty queues of capacity 2W + 1 |
| PeakIsolator.SlidingWindowDominantPeakIsolator.AddLockoutForInitialValue | dsp/peakfinder.hpp:344-346 | The first sample is appended to the memory |
| PeakIsolator.SlidingWindowDominantPeakIsolator.OnRawPeakEvent | dsp/peakfinder.hpp:277-307 | In place, does to both deques and reports what the function on wrapping positions says, for all contents on which no deque overflows; n calls, purges included, pop at most 2n entries |
| PeakIsolator.SlidingWindowDominantPeakIsolator.PurgeUpUntil | dsp/peakfinder.hpp:313-337 | The same for purges, at any position |
| PeakIsolator.SlidingWindowDominantPeakIsolator.CleanOldRightDominantPeaks | dsp/peakfinder.hpp:354-362 | The same for the flush of entries that look a window old |
| PeakIsolator.SlidingWindowDominantPeakIsolator.CheckLeftDominanceAndRemember | dsp/peakfinder.hpp:370-392 | Reports a peak exactly if nothing as large remains in the memory window, and remembers it |
| PeakFinder.StreamingPeakFinder.Process | dsp/peakfinder.hpp:474-503 | Each block, of any length, at any start position and threshold, changes the state and reports as the function on wrapping positions says, unless a deque would overflow; over a run both deques together pop at most 4 entries per sample, and 2 |
| PeakClock.FlushStored | dsp/peakfinder.hpp:354-392 | If nothing pending is a turn old, flushing wrapped positions is flushing unbounded ones, and no push finds a full deque |
| PeakClock.EventStored | dsp/peakfinder.hpp:278-307 | The same for an event that fits the queues |
| PeakClock.PurgeStored | dsp/peakfinder.hpp:314-337 | The same for a purge less than half a turn from the youngest pending entry |
| PeakClock.BlockStored | dsp/peakfinder.hpp:474-503 | Up to 2^64 + W samples, a block on wrapped positions is the block on the unbounded clock, from every start position and for every threshold |
| PeakClock.RunStored | dsp/peakfinder.hpp:474-503 | Whole runs of at most 2^64 + W samples report the stamped peaks of the unbounded clock, wherever the position starts, and neither deque overflows |
| PeakPipeline.SampleKeepsExact | dsp/peakfinder.hpp:484-489 | One more sample keeps the report exact for the events of all samples so far |
| PeakPipeline.PlateauDelayIsIdle | dsp/peakfinder.hpp:491-501 | With a constant threshold the extra purge delay for a pending plateau changes nothing |
| PeakPipeline.BlockKeepsExact | dsp/peakfinder.hpp:474-503 | After any block within the bound the report is exact for all samples so far |
| PeakPipeline.RunIsExact | dsp/peakfinder.hpp:474-503 | After any run of such blocks the report is exact |
| PeakPipeline.RunKeepsQueuesOrdered | dsp/peakfinder.hpp:295-306 | After any such run both queues are ordered by position with values that do not increase, and the right queue lies within a window of the last sample |
| PeakTheorems.RunReportsVisiblePeaks | dsp/peakfinder.hpp:474-503 | After every run of blocks within the bound the report is, in order and each once, exactly the visible peaks whose windows are complete: the split does not matter and nothing is early or late |
| PeakTheorems.FastRefinesReference | dsp/tst_peakfinder.cpp:75-112 | Both finders report the same samples, for all streams that do not start with two samples of the largest value |
| PeakTheorems.BlockBoundIsExact | dsp/peakfinder.hpp:326-334 | All streams in blocks of at most n samples are reported like the reference does exactly if n is at most W + 2 or W is 1 |
| PeakTheorems.LateBlocksDisagree | dsp/peakfinder.hpp:326-334 | For every W of at least 2 a stream with one block of W + 3 samples on which the finders differ |
| PeakTheorems.StartConditionIsExact | dsp/peakfinder.hpp:185-186 | All continuations of two given samples are reported like the reference does exactly if they are not both the largest value |
| PeakTheorems.TagStreamDisagrees | dsp/peakfinder.hpp:157-158 | For every W of at least 2 a stream of single-sample blocks, starting with two largest values, on which the finders differ |
| PeakRollover.StoredRefinesReference | dsp/peakfinder.hpp:474-503 | On wrapped positions the finder reports exactly the reference's peaks at stamped positions, for all streams of at most 2^64 + W samples within the bounds on blocks and start |
| PeakRollover.RolloverDisagrees | dsp/peakfinder.hpp:328-334 | For every W and every start position a stream of 2^64 + W + 1 samples on which the finders differ, without overflow |
| PeakRollover.StreamBoundIsExact | dsp/peakfinder.hpp:328-331 | Wherever the position starts, all streams of at most n samples are reported like the reference does exactly if n is at most 2^64 + W |
| PeakRollover.StoredBlockBoundIsExact | dsp/peakfinder.hpp:326-334 | On wrapped positions, too, all streams within the length bound in blocks of at most n samples are reported like the reference does exactly if n is at most W + 2 or W is 1 |
| PeakRollover.StoredStartConditionIsExact | dsp/peakfinder.hpp:185-186 | On wrapped positions, too, all continuations of two given samples are reported like the reference does exactly if they are not both the largest value |
| PeakRuns.RunPeakFinder | dsp/tst_peakfinder.cpp:174-197 | A driver that feeds the finder class block by block gets what the functions on wrapping positions report |
| PeakRuns.RunReferencePeakFinder | dsp/tst_peakfinder.cpp:199-224 | The reference run reports the dominant samples of the whole stream |
| PeakRuns.RunBoth | dsp/tst_peakfinder.cpp:226-255 | Both drivers report the same positions and values |
| PeakLevels.RaisedExactly | dsp/peakfinder.hpp:130-162 | With a threshold per block, a rise is raised by the threshold of its own sample, and a peak or a fall by that of the sample which ended it; nothing else is raised |
| PeakThresholds.EventKept | dsp/peakfinder.hpp:278-307 | An event about a sample that the detector may still raise leaves what is pending and what was reported unexceeded |
| PeakThresholds.PurgeKept | dsp/peakfinder.hpp:491-502 | So does the purge at the end of a block, in spite of all events still to come |
| PeakThresholds.ReportedIsUnexceeded | dsp/peakfinder.hpp:474-503 | With a threshold per block, nothing ever raised exceeds a reported peak in the window after it, above all no peak of a plateau that was still open at a block's end; except a fall at the window's very end with which a block ended, no plateau being open |
| PeakThresholds.PendingIsAwaited | dsp/peakfinder.hpp:491-502 | After every block what is pending is younger than the window, or within the window of the first sample of an open plateau that exceeds all that is pending |
| PeakExceptions.ExceededByUnseenRise | dsp/peakfinder.hpp:130-162 | Where a fall exceeds a reported peak, between them lies a rise that is higher than both and below its own block's threshold |
| PeakExceptions.ThresholdRangeIsExact | dsp/peakfinder.hpp:474-503 | In all runs with thresholds between lo and hi nothing raised exceeds a reported peak within the window, exactly if W is at most 2 or hi is at most 2 above the least peak that reaches lo |
| PeakExceptions.RunEach | dsp/peakfinder.hpp:474-503 | A driver that feeds the finder class with a threshold per block gets what these theorems are about, at positions counted from the start, and no deque overflows |
| PeakIdle.EmptyBlockIsIdle | dsp/peakfinder.hpp:474-503 | After the first block a block without samples reports nothing and changes nothing |
| PeakIdle.NothingIsPromoted | dsp/peakfinder.hpp:288-293 | No event of any run comes at the position of the youngest pending entry |
| PeakIdle.PromotionChangesKind | dsp/peakfinder.hpp:288-293 | Such an event would give that entry its kind, and change and report nothing else |
| LocalMaxima.FrontIsMaximum | dsp/peakfinder.hpp:209-210 | The deque front is the maximum of the window |
| LocalMaxima.AddKeepsCandidates | dsp/peakfinder.hpp:212-222 | Adding a sample leaves exactly the in-window samples strictly larger than all later ones, and room for the new one |
| LocalMaxima.SlidingWindowLocalMaximaFinder.Add | dsp/peakfinder.hpp:206-226 | Returns the maximum of the window before the sample, or the smallest value while there is no whole window; n calls pop at most n times; the position may wrap |
| LocalMaxima.SlidingWindowLocalMaximaFinder.Finalize | dsp/peakfinder.hpp:228-231 | Returns the maximum of the last window, or of all samples if there are fewer |
| WildcardMatch.GlobIsMatches | third-party/doctest/doctest.h:3481-3484 | Assigning substrings to stars and characters to question marks is the same as the recursive definition of matching |
| WildcardMatch.LaterStartsAreUseless | third-party/doctest/doctest.h:3498-3511 | Once a later star or the end of the string is reached, restarting an earlier star cannot help |
| WildcardMatch.WildCmp | third-party/doctest/doctest.h:3484-3518 | Terminates and returns true exactly if some assignment turns the pattern into the string, in both case modes |
| WildcardMatch.ComparedByLetter | third-party/doctest/doctest.h:3489-3504 | Without case two characters compare equal exactly if they are the same or the two forms of one of 26 letters, and with case exactly if they are the same |
| WildcardMatch.CaseDoesNotMatter | third-party/doctest/doctest.h:3484-3518 | Without case the verdict is the same for all strings and patterns that differ in the case of letters only |
| WildcardMatch.PlainPatternIsItself | third-party/doctest/doctest.h:3484-3518 | A pattern without stars and question marks matches itself alone, up to the case of letters or exactly |
| MortonOrder.XorBits | third-party/nano-signal-slot/nano_observer.hpp:32-33 | The exclusive-or of the model is bitwise |
| MortonOrder.InterleaveBits | third-party/nano-signal-slot/nano_observer.hpp:28-36 | The interleaved number has the bits of both words in turn |
| MortonOrder.HalvesDecide | third-party/nano-signal-slot/nano_observer.hpp:34 | Which word decides depends on the most significant difference alone |
| MortonOrder.ZOrderIsMortonOrder | third-party/nano-signal-slot/nano_observer.hpp:28-36 | The exclusive-or comparison of two keys is integer order on their interleaved words, for every word width |
| MortonOrder.ZOrderIsStrictTotal | third-party/nano-signal-slot/nano_observer.hpp:28-42 | The comparison is a strict total order |
| MortonOrder.BoundsEncloseKey | third-party/nano-signal-slot/nano_observer.hpp:52-53 | In a sorted list lower and upper bound enclose exactly the entries with the key |
| MortonOrder.Observer.Insert | third-party/nano-signal-slot/nano_observer.hpp:48-56 | The list stays sorted and gains one entry, behind those with the same key |
| MortonOrder.Observer.Remove | third-party/nano-signal-slot/nano_observer.hpp:58-67 | Deletes exactly the entries with the key and keeps the others in order |
| MortonOrder.Observer.DisconnectAll | third-party/nano-signal-slot/nano_observer.hpp:103-115 | Empties the list and removes from every other end exactly the keys connected to it |
| MortonOrder.ErasingIsWithout | third-party/nano-signal-slot/nano_observer.hpp:65-66 | Erasing the range of equal entries leaves the entries with other keys |
| MortonOrder.DisconnectingForgets | third-party/nano-signal-slot/nano_observer.hpp:103-115 | If both ends mirrored each other, no connection to the disconnected end is left |
| MortonOrder.SharedKeysBreakMirrors | third-party/nano-signal-slot/nano_observer.hpp:58-67 | Removing a key keeps a third end mirrored exactly if they do not share the key |
| BlockAllocator.AdditionKeepsBucket | third-party/uu.spdr/src/spdr.c:45-60 | An atomic addition succeeds exactly if the bucket is not full, and then no addition is pending |
| BlockAllocator.StepKeepsInv | third-party/uu.spdr/src/spdr.c:45-102 | Every atomic step of any thread keeps the invariant of all buckets, and grants only ever grow |
| BlockAllocator.GrantsAreDisjoint | third-party/uu.spdr/src/spdr.c:45-60 | In every run granted ranges tile a prefix of the array from 0, every start and every end but the last lies within the capacity, and every event is one block |
| BlockAllocator.CrossingCallReachesOver | third-party/uu.spdr/src/spdr.c:45-60 | Of all steps on all buckets exactly the additions that carry a counter, which then has nothing pending, from below the capacity to above it hand out a range past the end |
| BlockAllocator.SingleBlockStaysInside | third-party/uu.spdr/src/spdr.c:644-666 | A bucket of a single block grants it to an event and nothing to strings, in every run |
| BlockAllocator.CounterCountsGrants | third-party/uu.spdr/src/spdr.c:50-55 | The counter is the sum of granted sizes and additions still to be taken back, and reaches the capacity exactly when the grants do |
| BlockAllocator.NoGrantOnceFull | third-party/uu.spdr/src/spdr.c:50-55 | Once the counter has reached the capacity no call on the bucket succeeds, despite all subtractions |
| BlockAllocator.DroppedOnlyIfAllFull | third-party/uu.spdr/src/spdr.c:619-642 | An event is dropped only if all 16 buckets are full, and they stay full |
| BlockStrings.CallServesAll | third-party/uu.spdr/src/spdr.c:619-675 | When a call returns, it got nothing and all buckets are full; or the first bucket with room, from the event's own one on, has granted it its event and then, in order, one string of each size that the allocator accepts, of which some are missing only at the end and only if the bucket is full |
| BlockStrings.NoThreadIsStuck | third-party/uu.spdr/src/spdr.c:45-102 | In every state of every run every thread can take a step |
| BlockStrings.CallsAreWaitFree | third-party/uu.spdr/src/spdr.c:619-675 | A call takes at most 48 steps of its own, whatever the other threads do in between |
| BlockContents.EventsAreKept | third-party/uu.spdr/src/spdr.c:655 | Whatever the strings are, with no call in flight every event is as it was copied |
| BlockContents.TextFitsIff | third-party/uu.spdr/src/spdr.c:89-100 | The blocks asked for have room for header and text exactly if the last, partial block has |
| BlockContents.FittingRunsKeepAll | third-party/uu.spdr/src/spdr.c:57-100 | With no call in flight every granted range carries its own type and count and its own data, if no text reaches over its blocks |
| BlockOverruns.CopiesStayInGrantsIff | third-party/uu.spdr/src/spdr.c:657-673 | All copies of all runs with strings of given sizes stay within their own blocks exactly if every size leaves at most 192 bytes for its last block |
| BlockOverruns.AllIsKeptIff | third-party/uu.spdr/src/spdr.c:657-673 | Exactly under the same condition no header and no data are lost in any run |
| BlockOverruns.HeaderIsLost | third-party/uu.spdr/src/spdr.c:657-673 | For every other size a run of two threads after which, with no call in flight, an event's block does not carry its type |
| BlockOverruns.CopiesStayInArrayIff | third-party/uu.spdr/src/spdr.c:657-673 | All copies of all runs with strings of given sizes stay within the array exactly if all sizes are at most 192 |
| BlockOverruns.ArrayBoundIsOneText | third-party/uu.spdr/src/spdr.c:657-673 | All copies of all runs with strings of at most n bytes stay within the array exactly if n is at most 192 |
| BlockOverruns.GrantsStayInsideIff | third-party/uu.spdr/src/spdr.c:45-60 | All grants of all runs lie inside their arrays exactly if all sizes are less than a block |
| BlockOverruns.LastBlockReachesOver | third-party/uu.spdr/src/spdr.c:644-673 | For every capacity of at least two blocks a run of one thread that is granted a block past the end |
| BlockOverruns.OverrunIffTwoBlocks | third-party/uu.spdr/src/spdr.c:45-60 | Some run on buckets of a capacity is granted blocks past the end exactly if the capacity is at least two |
| BlockAllocator.RefusalFits | third-party/uu.spdr/src/spdr.c:625-627 | Sixteen refusals in a row have visited every bucket |
| FunctionHandle.TagRoundTrip | callable/function.hpp:72-88 | A trampoline survives tagging exactly if it is a multiple of four, and then both tags are read back |
| FunctionHandle.Heap.FreeHeapObject | callable/function.cpp:86-105 | Counts down, and at zero runs the deleter once and removes the block |
| FunctionHandle.FunctionBase.OnHeap | callable/function.cpp:64-71 | The new handle owns a new block with count one |
| FunctionHandle.FunctionBase.Copy | callable/function.hpp:30 | The copy has the same words and one more owner is counted |
| FunctionHandle.FunctionBase.Move | callable/function.hpp:32-37 | The words move, the source becomes empty, no count changes |
| FunctionHandle.FunctionBase.CopyObject | callable/function.cpp:73-83 | Retains the other handle's block, if any, and takes over both words |
| FunctionHandle.FunctionBase.AssignCopy | callable/function.hpp:39-46 | Retains before it releases, so self-assignment is safe |
| FunctionHandle.FunctionBase.AssignMove | callable/function.hpp:48-57 | Releases the old block and takes over the words; a self-move leaves the handle empty |
| FunctionHandle.FunctionBase.Swap | callable/function.hpp:281-285 | Exchanges two handles, also a handle with itself, and leaves every count and block as it was |
| FunctionHandle.FunctionBase.Destroy | callable/function.hpp:59-64 | Releases the block, if any |
| FunctionHandle.OperationKeepsInv | callable/function.hpp:28-64 | Each operation keeps: counts are numbers of owners, no owner points to a freed block, each block is freed at most once |
| FunctionHandle.CountsAreOwners | callable/function.cpp:64-105 | In every run a block exists exactly while some handle owns it, its count is the number of its owners, and its deleter has run exactly once if it is gone and never otherwise |
| FunctionHandle.NoBlockLeaks | callable/function.cpp:86-105 | When no handle is left every deleter has run exactly once |
| FunctionHandle.HandlesMeanTargets | callable/function.hpp:28-64 | In every run each handle stands for what its operations made of it: a copy for what its source does, a moved-from handle for nothing, and code, word and both tags are read back as they were made |
| FunctionHandle.EqualityMeansSameTarget | callable/function.hpp:306-311 | In every run two handles, unless both are empty, compare equal exactly if they stand for the same |
| FunctionHandle.StaleHandlesAreKnown | callable/function.hpp:28-64 | In every run the empty handles that differ from a new one are exactly those that the moves, copies and swaps account for |
| FunctionHandle.EmptyHandlesEqualIffNoSuchMove | callable/function.hpp:297-311 | All empty handles of all worlds of a run equal a new handle exactly if the run never moves out of a handle with a non-zero word |
| FunctionHandle.TwoOperationsBreakEquality | callable/function.hpp:32-37 | A reachable run of two operations after which an empty handle differs from a new one: a counterexample to the comment |
| Utf8.ClassBounds | third-party/uu.spdr/src/chars.c:11-28 | What class the table gives each byte |
| Utf8.Transitions | third-party/uu.spdr/src/chars.c:28-38 | Where the table leads from each state on each byte |
| Utf8.RejectIsAbsorbing | third-party/uu.spdr/src/chars.c:38 | Rejection is final and delivers nothing |
| Utf8.CharacterDelivers | third-party/uu.spdr/src/chars.c:45-56 | A well-formed sequence leads back to acceptance and delivers its character number, once |
| Utf8.AcceptsExactlyUtf8 | third-party/uu.spdr/src/chars.c:45-56 | Accepted byte strings are exactly the concatenations of well-formed sequences of section 4 of RFC 3629 |
| Utf8.DeliversNumbers | third-party/uu.spdr/src/chars.c:45-56 | What is delivered for such a string is its decoding by section 3 of RFC 3629 |
| Utf8.EncodeDecode | third-party/uu.spdr/src/chars.c:45-56 | Every sequence of scalars, encoded, is decoded to itself |
| Utf8.DecodeEncode | third-party/uu.spdr/src/chars.c:45-56 | Every accepted string is the encoding of what it delivers, so there are no overlong forms or surrogates |
| Utf8.WellFormedIsEncoding | third-party/uu.spdr/src/chars.c:11-38 | Well-formed sequences are the encodings of scalars |
| Utf8.RejectsExactlyDeadEnds | third-party/uu.spdr/src/chars.c:45-56 | The decoder rejects as soon as no continuation is well-formed, and not earlier |
| Utf8.Decoder.Decode | third-party/uu.spdr/src/chars.c:45-56 | One byte updates both variables as the specification says |
| Utf8.DecodeString | third-party/uu.spdr/src/chars.c:83-87 | The loop around the decoder collects the delivered code points |
| WaveIo.HeaderLength | dsp/waveIo.cpp:98-156 | The header's length does not depend on the number of samples, so rewriting it never moves the data; 58 bytes for 32-bit float |
| WaveIo.WriteWaveInfo | dsp/waveIo.cpp:98-156 | Overwrites the start of the file with the header and nothing else |
| WaveIo.SeekToChunk | dsp/waveIo.cpp:54-62 | Finds the next chunk with the identifier in any file, or the end |
| WaveIo.ReadInfo | dsp/waveIo.cpp:64-95 | Reads the format of any file as the specification parses its bytes, or divides by zero where that says so |
| WaveIo.HeaderOutcome | dsp/waveIo.cpp:64-156 | What reading a written header gives, for every format and all data behind it: the division by zero exactly if the block alignment is zero, and otherwise the format with channels and size cut to their fields |
| WaveIo.ManyChannelsDivideByZero | dsp/waveIo.cpp:64-95 | The header of 16384 channels of 32 bits makes reading divide by zero |
| WaveIo.HeaderRoundTrip | dsp/waveIo.cpp:64-156 | A written header reads back as the same format exactly if the size of the data fits 32 bits, and reading stops where the data start |
| WaveChunks.HeaderFields | dsp/waveIo.cpp:98-156 | Every identifier, size and field of a written header is what the format says, at its place: byte rate, block alignment, fact chunk and size of the data included |
| WaveChunks.FileSizeIsRightIff | dsp/waveIo.cpp:98-121 | The size of the file stated in the header is right exactly if there is no fact chunk and the data need no padding |
| WaveChunks.TagDecides | dsp/waveIo.cpp:79-83 | Of all format tags 1 and 3 are read, as integers and as floating point, and a file with any other is refused |
| WaveChunks.OtherChunksAreSkipped | dsp/waveIo.cpp:54-95 | Any other chunks before the format and before the data change nothing in what is read |
| WaveChunks.PaddedChunkHidesData | dsp/waveIo.cpp:54-62 | With a padded chunk of odd size between format and data, less than 16 MiB of data are never found |
| WaveIo.InterleavedSplit | dsp/waveIo.cpp:192-220 | Consecutive parts of a block interleave to consecutive values |
| WaveIo.ConvertAndInterleaveAudio | dsp/waveIo.cpp:192-220 | Puts every value of every channel at its place |
| WaveIo.DeinterleaveAndConvertAudio | dsp/waveIo.cpp:158-190 | Takes every value back to its channel and sample, and leaves earlier samples alone |
| WaveIo.ConvertInterleaveWrite | dsp/waveIo.cpp:247-265 | Appends the whole block interleaved, whatever the buffer size |
| WaveIo.ReadDeinterleaveConvert | dsp/waveIo.cpp:222-245 | In any file, whatever follows the data and wherever it is cut off, reads whole passes until the samples are reached or the file ends, each value to its channel and sample |
| WaveIo.SplitFrames | dsp/waveIo.cpp:222-245 | What is left of any file is whole frames and less than one more, so the two methods that read are about every file |
| WaveIo.ReadStaysInside | dsp/waveIo.cpp:222-245 | All writes of a read stay within a target exactly if the file holds no more frames or whole passes do not reach over it |
| WaveIo.ReadsInside | dsp/waveIo.cpp:308-355 | The same for a reader's buffer: a read that fits one buffer always stays inside |
| WaveIo.TrailingChunkReachesOver | dsp/waveIo.cpp:308-355 | A legal file on which a read writes over the end of its target |
| WaveIo.ReadsExactly | dsp/waveIo.cpp:222-245 | A read delivers exactly the samples asked for exactly if the file holds no more or they are whole passes |
| WaveIo.WaveWriter.Write | dsp/waveIo.cpp:414-456 | Appends the block to the file and counts its samples; the old header stays |
| WaveIo.WaveWriter.Release | dsp/waveIo.cpp:458-466 | The file is the final header followed by all values written |
| WaveIo.WaveReader.Read | dsp/waveIo.cpp:308-355 | From any sample on, also repeatedly and partially, fills the target with the values that come next in the file, and counts them |
| WavePieces.ReadPieces | dsp/waveIo.cpp:308-355 | A file with any bytes behind its data, read into targets that each fit one buffer, gives consecutive pieces of the data, each as long as its target unless the data end, all of them once the targets have room, and nothing after that |
| WaveIo.WriteThenRead | dsp/waveIo.cpp:308-466 | Any list of blocks written, released, rewound and read gives back the format and every value of every channel |

## Left out

- Peak finder, sample type: 32-bit integers, as the tests use; floating-point samples are left out.
- Peak finder, length of a block: at most 2^63 - 1 - 3W samples, far more than memory can hold.
- Peak finder, threshold: with a threshold per block, what a reported peak is compared to before it is
  not told from the samples; the theorems that do need a constant threshold.
- Peak finder, state that only exists in debug builds, and `reconfigure`, which constructs anew.
- PeakWindow.ReferenceStreamingPeakFinder.Process: its data view holds the whole stream so far; the
  iterator that walks an overwritten ring is left out. Its sample counter is unbounded; the
  source's is a signed 64-bit number.
- PeakIsolator.SlidingWindowDominantPeakIsolator.constructor: needs 3W + 1 below 2^64. Two deques of
  2W + 2 entries of 16 bytes or more could not be allocated otherwise.
- PeakFinder.StreamingPeakFinder.Process: a push on a full deque, which debug builds reject, is left
  out; `PeakClock.RunStored` names the runs that have none.
- PeakRuns.RunPeakFinder: the same.
- PeakRuns.RunBoth: streams of at most 2^64 + W samples, where the finders agree at all.
- RingMath.RingDistanceIsClockDifference: for words of 64 bits only; the source's template takes any
  unsigned type.
- RingMath.RingOrderIsClockOrder: for words of 64 bits only, like the distance.
- RingBuffer.ChunkedRingBuffer.constructor: stands for `setCapacity` on a fresh object. Both classes
  of the header are one class, since the deque adds no state; moving a buffer is left out, and so
  are `get`, `peekPtr` and `emplace_back`, which repeat other operations.
- SpscQueue: sequentially consistent; a single-element push or pop is a block of one.
- LocalMaxima.SlidingWindowLocalMaximaFinder.Add: window sizes below 2^64 - 1, so that the deque's
  own size does not wrap.
- WildcardMatch: characters are compared by `tolower` of the "C" locale.
- MortonOrder.Observer.DisconnectAll: the other ends are alive; expired weak pointers and the locks
  are left out.
- MortonOrder: signal emission, locking policies and observer lifetime; the searches of the standard
  library are their definitions on sorted sequences.
- BlockAllocator: `spdr_reset` and `spdr_report`; more than about 2^40 threads, whose pending additions
  could wrap the counter; and what happens after a copy has left its array, behind which the next
  bucket's counter and functions lie. Type and count are written in one step, and so are all bytes of
  a copy.
- FunctionHandle: `Delegate`, calls through the handle, the choice between heap and embedded
  storage, deleters that use handles themselves, 2^32 or more handles at a time, and decrements by
  several threads at once.
- BlockAllocator, SpscQueue: state machines on values, since steps of several threads interleave;
  `RingBuffer` has the queue's operations in place.
- Utf8: the escaping and formatting of what is decoded.
- WaveIo: moving readers and writers, and their destructors; 16-bit and 32-bit PCM conversion, whose
  content is rounding; and failing file operations.
- WaveIo.ConvertAndInterleaveAudio: only the plain copy of 32-bit values, not the conversions.
- WaveIo.DeinterleaveAndConvertAudio: only the plain copy of 32-bit values, not the conversions.
- WaveIo.WaveWriter.Write: 32-bit float, with file operations that succeed.
- WaveIo.ReadDeinterleaveConvert: reads that stay within the target; the source also carries out the
  others, whose exact condition is `WaveIo.ReadStaysInside`.
- WaveIo.WaveReader.Read: 32-bit float, and reads that stay within the target.
- WaveIo.SeekToChunk: `long` is 64 bits wide. Where it has 32 bits, as on Windows, the same holds as
  long as all chunks that are skipped are smaller than 2^31 bytes; a chunk of 2^32 - 8 bytes would be
  read again forever.
- WaveIo.ReadInfo: `long` is 64 bits wide, with the same bound.
- WaveIo.HeaderRoundTrip: sample rates are whole numbers below 2^32, since the file has no others,
  and a sample frame fits the 16-bit field for its size.
- Other parts of the repository: array views, spans, scope guards, MIDI, endianness, chirp,
  regression, histogram and averaging would only add easy members or rounding.
