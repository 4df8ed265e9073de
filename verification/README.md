# The client's network receive core, in Dafny

This project models the part of the streaming client that measures the network and adapts to
it, and proves what that part is meant to guarantee:

- **`LatencyStats.dfy`** (with `Samples.dfy`): the sliding window of samples. A ring buffer with
  a lazily refreshed summary stands for the plain list of recorded values; the summary is an
  ordered set of interpolated percentiles.
- **`JitterBuffer.dfy`**: the adaptive jitter buffer, a controller with the modes Bypass,
  LowLatency and Smooth. `ModeHistory.dfy` says what its counters, flag and timer mean and how
  often it can change mode, `JitterRuns.dfy` follows whole runs of calls, `JitterSpells.dfy`
  spells in a fixed mode among them, and `JitterConvergence.dfy` shows that a calm network ends
  in Bypass. `JitterComparison.dfy` and `JitterOrder.dfy` compare two runs, in what they show and
  in what they do, and bound the delays.
- **`BoundedQueue.dfy`** and **`QueueConcurrency.dfy`**: the queue that drops its oldest element,
  as an object and as a step system of any number of threads with spurious wakeups.
- **`RtpProtocol.dfy`** (with `Bytes.dfy`): the RTP header and header extension of sections 5.1
  and 5.3.1 of RFC 3550, and the latency payload in it. `RtpWireFormat.dfy` says what each byte on
  the wire means, in integers, and that writer and parser follow it.
- **`XorRecovery.dfy`**: the XOR parity of forward error correction.

Each class is proved against functions on values (the plain list, the controller state, the
protected buffer, the byte strings); the theorems are about those functions.

## What the proofs found

- **The latency extension is never read.** The parser compares the payload's byte count with the
  size in words (4), the builder produces 16 bytes. As written every built extension is rejected,
  and no extension whatever yields timestamps (`AsWrittenNeverReads`); with the byte size in the
  test the round trip holds for all values (`LatencyEndToEnd`).
- **A fixed mode can break the rules of the automatic ones.** `SetFixedMode` keeps counters, flag
  and timer: nine high evaluations before a fixed spell and one after it escalate
  (`FixedModeBreaksStreakRule`). The rules survive a spell, whatever is recorded during and after
  it, if and only if nothing is under way that the fixed mode counts (`SpellRule`): for Bypass no
  high streak, for LowLatency no low streak and no standing strike, for Smooth no running timer.
  A strike can stand in Bypass, too, since leaving LowLatency for Bypass does not clear it.
- **The three-second dwell depends on the clock.** The subtraction is unsigned and zero stands for
  "not started". `SmoothEnds` is the rule for any clock, `StreamLeavesSmooth` the exact condition
  in the caller's clock values when they are never zero. For values from 1 to 2^64 - 3*10^9,
  the mode is the documented one throughout if and only if no evaluation in Smooth reads the clock
  below its reading at the first low p95 of the streak (`DocumentedRuleHoldsExactly`). `BackwardClockEndsDwell` is a stream that
  leaves Smooth after no time at all; a clock stuck at zero never ends it. The comment says more
  than three seconds, the code accepts exactly three; the model follows the code.
- **Reading the p95 of an empty window shifts the refresh schedule** from records 1, 5, 9, ... to
  4, 8, 12, ... and can change the first grades (`EarlyReadChangesGrade`); after the first record
  all getters are harmless (`GettersAreTransparent` says exactly when they are).
- **The limits grow with worse quality only for base values of at least 40 ms and four frames**;
  `LimitsGrowExactly` also says when a fourfold that wraps around spoils the order.
- **A zero-length extension is accepted but not reproduced**, and an extension of more than 65535
  words is written with its length modulo 65536 (`ParseThenWrite`, `WriteThenParseExactly`).

## Modelling decisions

- `double` is `real`: no rounding, no NaN and no infinities.
- Clock values are integers below 2^64 and their difference wraps; the frame limit wraps modulo
  2^64 and integer halving truncates toward zero. Where an automatic evaluation ends in Poor,
  tripling the base wait must fit in 32 bits, and a target delay must fit in 64 bits, because the
  code has no defined result otherwise.
- Counts of samples and pending samples are unbounded.
- `std::sort` is the function `Sort`; `LibrarySortAgrees` shows that any sorted rearrangement
  is the same list. `std::copy` and `std::accumulate` are a slice and the function `Sum`.
- Pointers that may be null are nullable references to cells, arrays or byte vectors; bytes and
  wire integers are bit-vectors.
- `Snapshot` and the percentile getters are `const` in the code but refresh the cache, so they
  modify the object here.
- One critical section of the queue is one atomic step. A blocking pop tests its predicate, and
  then either returns or sleeps, in one step; a pop with a null output pointer does nothing.

## Model

| member | source | states |
|---|---|---|
| Samples.SortSorts | sclient/src/common/metrics/LatencyStats.h:173-176 | sorting yields an ascending list of the same elements |
| Samples.LibrarySortAgrees | sclient/src/common/metrics/LatencyStats.h:173-174 | any ascending list with the same multiset is that list, so the sorting algorithm is irrelevant |
| Samples.SortDominates | sclient/src/common/metrics/LatencyStats.h:173-174 | raising samples one by one raises every order statistic |
| Samples.PercentileMonotone | sclient/src/common/metrics/LatencyStats.h:187-197 | for 0 <= p <= q <= 1: min <= P(p) <= P(q) <= max, across rank boundaries |
| Samples.PercentileInterpolates | sclient/src/common/metrics/LatencyStats.h:192-196 | at rank k + f the percentile is the f-blend of order statistics k and k + 1, continuous at both ends |
| Samples.PercentileDominates | sclient/src/common/metrics/LatencyStats.h:187-197 | raising samples never lowers a percentile |
| Samples.AverageWithin | sclient/src/common/metrics/LatencyStats.h:177-178 | the average lies between any bounds on the samples |
| LatencyStatistics.SummaryIsOrdered | sclient/src/common/metrics/LatencyStats.h:172-182 | extremes are attained and bound all samples; min <= p50 <= p95 <= p99 <= max and min <= avg <= max |
| LatencyStatistics.SummaryByRank | sclient/src/common/metrics/LatencyStats.h:146-197 | p50, p95 and p99 stand 50, 95 and 99 hundredths of the way along the ascending samples, on the line between neighbours; minimum, maximum, count and last value are exact |
| LatencyStatistics.AverageSums | sclient/src/common/metrics/LatencyStats.h:177-178 | the average times the count grows by exactly the value appended |
| LatencyStatistics.SummaryIgnoresOrder | sclient/src/common/metrics/LatencyStats.h:172-182 | rearranged samples have the same summary |
| LatencyStatistics.SummaryShowsNewest | sclient/src/common/metrics/LatencyStats.h:48-64 | the last value is the newest, also without room; the count is that of the kept values |
| LatencyStatistics.RingRecords | sclient/src/common/metrics/LatencyStats.h:57-61 | overwriting the next slot slides the window "last N values in order" by one, before, at and after the wrap |
| LatencyStatistics.ObservedSummary | sclient/src/common/metrics/LatencyStats.h:88-141 | after any calls a snapshot is the from-scratch summary of a prefix missing at most interval - 1 values, a formatted report misses none, nothing from before a reset shows |
| LatencyStatistics.SnapshotsRepeatExactly | sclient/src/common/metrics/LatencyStats.h:128-141 | after more records a snapshot repeats the cached summary exactly while fewer than the interval are missing from it, and is up to date otherwise and without room |
| LatencyStatistics.LatencyStats.constructor | sclient/src/common/metrics/LatencyStats.h:33-44 | an empty window without a valid cache; the interval is at least one |
| LatencyStatistics.LatencyStats.Record | sclient/src/common/metrics/LatencyStats.h:48-64 | the ring and its cache flags go on standing for the list with the value appended |
| LatencyStatistics.LatencyStats.HasSamples | sclient/src/common/metrics/LatencyStats.h:67-69 | tells whether the window is nonempty |
| LatencyStatistics.LatencyStats.AverageMs | sclient/src/common/metrics/LatencyStats.h:77-79 | the average of the shown summary |
| LatencyStatistics.LatencyStats.SampleCount | sclient/src/common/metrics/LatencyStats.h:82-84 | the length of the window, at most the capacity |
| LatencyStatistics.LatencyStats.Snapshot | sclient/src/common/metrics/LatencyStats.h:88-91 | returns the exact summary of the covered prefix and changes only the cache |
| LatencyStatistics.LatencyStats.Reset | sclient/src/common/metrics/LatencyStats.h:94-102 | the empty list again without a valid cache, although the old summary stays in its field |
| LatencyStatistics.LatencyStats.Format | sclient/src/common/metrics/LatencyStats.h:106-118 | reports the summary of the whole current window |
| LatencyStatistics.LatencyStats.RefreshSummary | sclient/src/common/metrics/LatencyStats.h:128-141 | refreshes exactly when forced with something new, when invalid, or when the interval is full |
| LatencyStatistics.LatencyStats.BuildSummary | sclient/src/common/metrics/LatencyStats.h:146-183 | the ring, unrolled at its write position, yields the summary of the last N values in order |
| JitterBuffer.AfterCallKeepsInv | sclient/src/modules/network/AdaptiveJitterBuffer.h:60-163 | every call keeps high < 10, low < 20, and a cache that misses fewer than four samples |
| JitterBuffer.LimitsByQuality | sclient/src/modules/network/AdaptiveJitterBuffer.h:187-209 | the limits of each quality as relations to the base: three times and fourfold modulo 2^64, equal, halves and quarters with their minimums; nothing else satisfies them |
| JitterBuffer.DelayByMode | sclient/src/modules/network/AdaptiveJitterBuffer.h:281-303 | the delay is zero in Bypass, else the truncated greater of the minimum and the p95 times the factor of the mode, in nanoseconds |
| JitterBuffer.AdaptiveJitterBuffer.constructor | sclient/src/modules/network/AdaptiveJitterBuffer.h:43-57 | Bypass, Excellent, automatic, empty window of 100 with interval 4, limits 80 ms and 8 frames |
| JitterBuffer.AdaptiveJitterBuffer.Configure | sclient/src/modules/network/AdaptiveJitterBuffer.h:60-64 | takes over configuration and base limits, leaves the controller alone |
| JitterBuffer.AdaptiveJitterBuffer.RecordJitter | sclient/src/modules/network/AdaptiveJitterBuffer.h:76-89 | one step of controller and limits on the plain-list window; limits follow the new quality only when the automatic mode has evaluated |
| JitterBuffer.AdaptiveJitterBuffer.AssessNetworkQuality | sclient/src/modules/network/AdaptiveJitterBuffer.h:172-184 | grades by the refreshed p95, loss and skip rate |
| JitterBuffer.AdaptiveJitterBuffer.ApplyQualityParams | sclient/src/modules/network/AdaptiveJitterBuffer.h:187-209 | wait and frame limits of the quality, with truncating division |
| JitterBuffer.AdaptiveJitterBuffer.EvaluateStateTransition | sclient/src/modules/network/AdaptiveJitterBuffer.h:217-278 | one step of the mode machine, keeping the counters bounded |
| JitterBuffer.AdaptiveJitterBuffer.JitterP95Ms | sclient/src/modules/network/AdaptiveJitterBuffer.h:161 | the shown p95, with its effect on the cache |
| JitterBuffer.AdaptiveJitterBuffer.JitterP50Ms | sclient/src/modules/network/AdaptiveJitterBuffer.h:163 | the shown median, with its effect on the cache |
| JitterBuffer.AdaptiveJitterBuffer.TargetDelayNs | sclient/src/modules/network/AdaptiveJitterBuffer.h:281-303 | zero in Bypass without touching the cache, else the truncated delay of the mode |
| JitterBuffer.AdaptiveJitterBuffer.SetFixedMode | sclient/src/modules/network/AdaptiveJitterBuffer.h:127-130 | changes the mode and the automatic flag and nothing else |
| JitterBuffer.AdaptiveJitterBuffer.EnableAutoMode | sclient/src/modules/network/AdaptiveJitterBuffer.h:133-135 | sets the automatic flag and nothing else |
| JitterBuffer.AdaptiveJitterBuffer.Reset | sclient/src/modules/network/AdaptiveJitterBuffer.h:138-151 | the starting state again but for the automatic flag and the configuration |
| ModeHistory.MachineRefinesHistory | sclient/src/modules/network/AdaptiveJitterBuffer.h:211-278 | with any clock, the mode is the one the rule prescribes on the history alone, and the history determines the whole memory: counters are streak lengths since entry, the flag is a strike, the timer the first nonzero clock value of the low streak |
| ModeHistory.SmoothExit | sclient/src/modules/network/AdaptiveJitterBuffer.h:263-275 | for a nonzero clock, the exact end of Smooth in clock values, wrap-around included |
| ModeHistory.PersistenceIsMeasuredFromStart | sclient/src/modules/network/AdaptiveJitterBuffer.h:263-275 | for a clock that also never runs backwards, Smooth ends iff the p95 has been low for three seconds |
| ModeHistory.DocumentedRuleHolds | sclient/src/modules/network/AdaptiveJitterBuffer.h:211-278 | for such clocks the rule is the documented one |
| ModeHistory.ExitAgreesExactly | sclient/src/modules/network/AdaptiveJitterBuffer.h:262-275 | at an evaluation in Smooth the code and the documented rule agree iff the clock does not read less than at the first low p95 of the streak |
| ModeHistory.DocumentedRuleHoldsExactly | sclient/src/modules/network/AdaptiveJitterBuffer.h:211-278 | over a run, the mode is the documented one throughout iff no evaluation in Smooth reads the clock so far back |
| ModeHistory.ZeroClockKeepsSmooth | sclient/src/modules/network/AdaptiveJitterBuffer.h:263-265 | with a clock stuck at zero Smooth never ends |
| ModeHistory.SwitchesArePaidFor | sclient/src/modules/network/AdaptiveJitterBuffer.h:217-278 | the switches so far and the progress toward the next one never use more evaluations than were made |
| ModeHistory.FlappingIsBounded | sclient/src/modules/network/AdaptiveJitterBuffer.h:211-278 | 10b + 20l + 2s + 2x <= n, alternation of each pair, no jump between Bypass and Smooth |
| ModeHistory.ReturnsTakeTime | sclient/src/modules/network/AdaptiveJitterBuffer.h:262-275 | with a nondecreasing clock each return from Smooth has cost three seconds of its own |
| JitterRuns.RefreshSchedule | sclient/src/modules/network/AdaptiveJitterBuffer.h:81-89 | record n grades and evaluates with the p95 as of record 4*floor((n-1)/4)+1, or 4*floor(n/4) after an early read |
| JitterRuns.UsedP95ByRank | sclient/src/modules/network/AdaptiveJitterBuffer.h:81-89 | the p95 that record n works with is the 95th percentile of the hundred jitters up to the scheduled record |
| JitterRuns.EarlyReadChangesGrade | sclient/src/modules/network/AdaptiveJitterBuffer.h:161-184 | the same first sample is Fair, or Excellent if the empty p95 was read before |
| JitterRuns.GettersAreTransparent | sclient/src/modules/network/AdaptiveJitterBuffer.h:122-163 | a getter changes nothing exactly when a sample was recorded, the empty window was read before, or it is the delay in Bypass |
| JitterRuns.ObserversAreTransparent | sclient/src/modules/network/AdaptiveJitterBuffer.h:122-163 | getter calls inserted anywhere after the first sample change no later state |
| JitterRuns.SegmentIsStream | sclient/src/modules/network/AdaptiveJitterBuffer.h:60-163 | any automatic segment of calls acts as its stream of samples |
| JitterRuns.StreamDrivesMachine | sclient/src/modules/network/AdaptiveJitterBuffer.h:85-89 | from any automatic state the mode machine sees exactly the records from the tenth on, with the p95 then shown |
| JitterRuns.ControllerRefinesHistory | sclient/src/modules/network/AdaptiveJitterBuffer.h:81-278 | the history theorem for the whole controller, every sample stream and any clock |
| JitterRuns.StreamLeavesSmooth | sclient/src/modules/network/AdaptiveJitterBuffer.h:262-275 | the exact record that ends Smooth, in the caller's clock values |
| JitterRuns.ControllerFollowsDocumentation | sclient/src/modules/network/AdaptiveJitterBuffer.h:211-278 | with a nonzero nondecreasing clock the mode is the documented one after every record |
| JitterRuns.ControllerFollowsDocumentationExactly | sclient/src/modules/network/AdaptiveJitterBuffer.h:211-278 | for sample streams with any clock values from 1 to 2^64 - 3*10^9, exactly when the mode is the documented one after every record |
| JitterRuns.ControllerFlappingIsBounded | sclient/src/modules/network/AdaptiveJitterBuffer.h:81-278 | the flapping bound in records and in time for every sample stream |
| JitterRuns.EscalationTakesTime | sclient/src/modules/network/AdaptiveJitterBuffer.h:86-278 | no stream reaches LowLatency before record 19 or Smooth before record 21 |
| JitterRuns.EscalationIsExact | sclient/src/modules/network/AdaptiveJitterBuffer.h:86-278 | jitters above 10 ms escalate at exactly 19 and 21 and stay up |
| JitterSpells.SpellIsHarmlessExactly | sclient/src/modules/network/AdaptiveJitterBuffer.h:127-135 | from any state, the rules survive a fixed spell, whatever is recorded during and after it, iff nothing the mode reads is remembered |
| JitterSpells.SpellRule | sclient/src/modules/network/AdaptiveJitterBuffer.h:127-135 | the same condition on the samples recorded so far, for every stream and each fixed mode |
| JitterSpells.HighJittersComplete | sclient/src/modules/network/AdaptiveJitterBuffer.h:221-232 | in Bypass, unbroken high jitters escalate at exactly the evaluation completing ten, kept ones included |
| JitterSpells.LowJittersComplete | sclient/src/modules/network/AdaptiveJitterBuffer.h:236-246 | in LowLatency, unbroken low jitters return to Bypass at exactly the evaluation completing twenty, kept ones included, iff no two strikes in a row, a kept one included, come before it |
| JitterSpells.FixedModeBreaksStreakRule | sclient/src/modules/network/AdaptiveJitterBuffer.h:127-135 | an input: across a fixed mode one high sample escalates after any calm ones |
| JitterConvergence.P95Settles | sclient/src/common/metrics/LatencyStats.h:128-141 | from the 103rd calm sample on the p95 in use is below 0.5 ms, from any state |
| JitterConvergence.SmoothIsOver | sclient/src/modules/network/AdaptiveJitterBuffer.h:262-275 | Smooth is over three seconds after the 103rd calm sample |
| JitterConvergence.CalmStreamConverges | sclient/src/modules/network/AdaptiveJitterBuffer.h:217-278 | twenty samples later the mode is Bypass, and at every sample after that |
| JitterConvergence.ConvergesFromAnywhere | sclient/src/modules/network/AdaptiveJitterBuffer.h:41-278 | convergence from every reachable state with automatic mode on |
| JitterConvergence.BackwardClockEndsDwell | sclient/src/modules/network/AdaptiveJitterBuffer.h:262-275 | an input: a stream that leaves Smooth when its clock steps back by one nanosecond |
| JitterComparison.QualityIsWorstGrade | sclient/src/modules/network/AdaptiveJitterBuffer.h:172-184 | the quality is the worst of three independent grades |
| JitterComparison.WorseInputNeverLooksBetter | sclient/src/modules/network/AdaptiveJitterBuffer.h:76-184 | of two runs with the same calls, the one with pointwise worse measurements never shows a lower p95 or a better quality |
| JitterOrder.WorseInputNeverLowersMode | sclient/src/modules/network/AdaptiveJitterBuffer.h:76-278 | of two automatic runs on one clock, the one with worse measurements is never in a mode that buffers less |
| JitterOrder.WorseInputNeverShortensDelay | sclient/src/modules/network/AdaptiveJitterBuffer.h:76-303 | nor does it ever have a shorter target delay |
| JitterOrder.EqualModesOrderDelays | sclient/src/modules/network/AdaptiveJitterBuffer.h:76-303 | at equal modes the delays are ordered for any clocks and with fixed modes among the calls |
| JitterOrder.LimitsFollowQuality | sclient/src/modules/network/AdaptiveJitterBuffer.h:86-209 | in an automatic run the limits are those of the quality from the tenth sample since the last reset on, the base limits before |
| JitterOrder.RecordSetsLimits | sclient/src/modules/network/AdaptiveJitterBuffer.h:76-89 | in any state, a record in automatic mode sets the limits by the quality it found from ten samples on, and no other record touches them |
| JitterOrder.WorseInputNeverShrinksLimits | sclient/src/modules/network/AdaptiveJitterBuffer.h:76-209 | with base limits for which both limits grow, worse measurements never give smaller limits |
| JitterComparison.LimitsGrowExactly | sclient/src/modules/network/AdaptiveJitterBuffer.h:187-209 | wait limits are ordered by quality iff the base is at least 40 ms, frame limits iff the base is at least four and its fourfold modulo 2^64 is no less |
| JitterComparison.DelaysAreOrdered | sclient/src/modules/network/AdaptiveJitterBuffer.h:281-303 | for one window the delay grows from Bypass to LowLatency to Smooth, and is at least the minimum outside Bypass |
| JitterComparison.DelayIsBounded | sclient/src/modules/network/AdaptiveJitterBuffer.h:281-303 | in every state the delay is at most the greater of the minimum delay and the smooth factor times the largest of the last 103 jitters |
| JitterComparison.DelayIsBoundedInRuns | sclient/src/modules/network/AdaptiveJitterBuffer.h:281-303 | that bound at every point of every run |
| BoundedQueues.BoundedQueue.constructor | sclient/src/common/concurrency/BoundedQueue.h:19-23 | an open empty queue with room for at least one element |
| BoundedQueues.BoundedQueue.PushOrDropOldest | sclient/src/common/concurrency/BoundedQueue.h:29-43 | appends, dropping the oldest element when full; refuses when closed |
| BoundedQueues.BoundedQueue.WaitPop | sclient/src/common/concurrency/BoundedQueue.h:50-68 | sleeps iff open and empty, fails iff closed and empty, else hands out the oldest element |
| BoundedQueues.BoundedQueue.TryPop | sclient/src/common/concurrency/BoundedQueue.h:74-87 | hands out the oldest element iff there is one, open or closed |
| BoundedQueues.BoundedQueue.Size | sclient/src/common/concurrency/BoundedQueue.h:91-94 | the number of queued elements |
| BoundedQueues.BoundedQueue.Close | sclient/src/common/concurrency/BoundedQueue.h:98-102 | closes and keeps the elements |
| QueueConcurrency.StepKeepsInv | sclient/src/common/concurrency/BoundedQueue.h:29-102 | every atomic step of every thread keeps size bound, wakeup bound, conservation and freshness |
| QueueConcurrency.StepIsCall | sclient/src/common/concurrency/BoundedQueue.h:29-102 | each step leaves buffer, results and sleepers as the call it stands for; a push on a closed queue changes nothing, a blocking pop fails only on a closed empty queue |
| QueueConcurrency.EveryCallIsPossible | sclient/src/common/concurrency/BoundedQueue.h:29-102 | in every state a producer and each consumer can act, and any waiting consumer may be the one notified |
| QueueConcurrency.NobodyWaitsInVain | sclient/src/common/concurrency/BoundedQueue.h:29-68 | in every interleaving: if somebody waits, elements do not outnumber woken consumers, and each woken one would get the oldest element; once closed nobody waits |
| QueueConcurrency.NothingIsLostOrRepeated | sclient/src/common/concurrency/BoundedQueue.h:29-87 | removed elements followed by the queue are the accepted pushes in order; a popped element is followed by fewer than capacity accepted pushes, a dropped one by exactly capacity |
| QueueConcurrency.PoppedIsDelivered | sclient/src/common/concurrency/BoundedQueue.h:50-87 | in every interleaving callers are handed exactly the popped elements, in that order |
| QueueConcurrency.OpenQueueNeverFails | sclient/src/common/concurrency/BoundedQueue.h:50-68 | while an open queue is read by blocking pops alone, every pop that returns has an element |
| QueueConcurrency.ClosedQueueDrains | sclient/src/common/concurrency/BoundedQueue.h:50-102 | after closing, the pops that return take the remaining elements in order and then fail, whoever makes them |
| QueueConcurrency.ClosedQueueReleases | sclient/src/common/concurrency/BoundedQueue.h:57-102 | over any run after closing, the consumers inside are exactly the woken ones that have not run since; each leaves with its first step |
| QueueConcurrency.CloseReleasesAll | sclient/src/common/concurrency/BoundedQueue.h:57-102 | from the close on, the consumers inside are exactly those that waited or were woken then and have not run since |
| Bytes.Be16RoundTrip | sclient/src/common/net/RtpProtocol.h:52-81 | reading 16 bits inverts writing them, anywhere in a packet |
| Bytes.Be32RoundTrip | sclient/src/common/net/RtpProtocol.h:58-89 | reading 32 bits inverts writing them |
| Bytes.Be64RoundTrip | sclient/src/common/net/RtpProtocol.h:66-101 | reading 64 bits inverts writing them |
| Bytes.Be16Restores | sclient/src/common/net/RtpProtocol.h:52-81 | writing 16 bits that were read restores the bytes |
| Bytes.Be32Restores | sclient/src/common/net/RtpProtocol.h:58-89 | writing 32 bits that were read restores the bytes |
| Bytes.WriteBe16 | sclient/src/common/net/RtpProtocol.h:78-81 | writes the two bytes in place and no others |
| Bytes.WriteBe32 | sclient/src/common/net/RtpProtocol.h:84-89 | writes the four bytes in place and no others |
| Bytes.WriteBe64 | sclient/src/common/net/RtpProtocol.h:92-101 | writes the eight bytes in place and no others |
| RtpProtocol.WriteRtpHeader | sclient/src/common/net/RtpProtocol.h:143-176 | succeeds iff there is a packet and the payload is whole words; replaces the packet by the header, or leaves it alone |
| RtpProtocol.ParseRtpHeader | sclient/src/common/net/RtpProtocol.h:192-248 | the parse of the bytes through the given pointers; a refusal changes no output |
| RtpProtocol.ParseIsLocal | sclient/src/common/net/RtpProtocol.h:192-248 | 12 <= header size <= size, whole words, and every packet with the same header bytes parses alike |
| RtpWireFormat.HeaderByPosition | sclient/src/common/net/RtpProtocol.h:143-176 | a byte string is the written header iff each of its bytes, as a number with its weight, is what the fields and the extension say |
| RtpWireFormat.ParseByPosition | sclient/src/common/net/RtpProtocol.h:192-248 | the parser accepts iff version, padding bit and announced sizes fit, and answers exactly what the bytes say by position and weight |
| RtpProtocol.WriteThenParse | sclient/src/common/net/RtpProtocol.h:143-248 | for every writable header and any trailing bytes: what the parser recovers |
| RtpProtocol.WriteThenParseExactly | sclient/src/common/net/RtpProtocol.h:143-248 | the round trip is the identity iff the payload type has seven bits and there are at most 65535 words |
| RtpProtocol.ParseThenWrite | sclient/src/common/net/RtpProtocol.h:143-248 | rewriting an accepted packet reproduces its header iff it has no contributing sources and no empty extension |
| RtpProtocol.SerializeRtpLatencyExtension | sclient/src/common/net/RtpProtocol.h:104-110 | the two timestamps as 16 big-endian bytes |
| RtpProtocol.BuildRtpLatencyHeaderExtension | sclient/src/common/net/RtpProtocol.h:113-120 | those bytes under the latency profile |
| RtpWireFormat.LatencyBuiltByPosition | sclient/src/common/net/RtpProtocol.h:104-120 | profile 0x5353, capture time in bytes 0-7 and send time in bytes 8-15, most significant byte first, and nothing else |
| RtpWireFormat.LatencyReadByPosition | sclient/src/common/net/RtpProtocol.h:123-135 | the parser with the intended test reads exactly such payloads |
| RtpProtocol.ParseRtpLatencyExtension | sclient/src/common/net/RtpProtocol.h:123-135 | the parser as written never succeeds |
| RtpProtocol.ParseRtpLatencyExtensionIntended | sclient/src/common/net/RtpProtocol.h:123-135 | the parser with the intended length test |
| RtpProtocol.AsWrittenNeverReads | sclient/src/common/net/RtpProtocol.h:126-133 | only four-byte payloads pass the test as written, and they cannot be read |
| RtpProtocol.LatencyEndToEnd | sclient/src/common/net/RtpProtocol.h:104-248 | build, write, parse, parse: both timestamps arrive under the intended test, and rejection as written |
| XorRecovery.XorInto | sclient/src/modules/network/StreamClientInternal.h:38-49 | accumulates a zero-extended fragment in place, also when source and target share an array |
| XorRecovery.OrderIsIrrelevant | sclient/src/modules/network/StreamClientInternal.h:33-49 | fragments of any lengths give the same parity in any order |
| XorRecovery.ParityByBit | sclient/src/modules/network/StreamClientInternal.h:33-49 | a bit of the parity is set iff an odd number of fragments have it set |
| XorRecovery.ParityLength | sclient/src/modules/network/StreamClientInternal.h:33-49 | the parity is as long as the longest fragment |
| XorRecovery.MissingFragmentIsRecovered | sclient/src/modules/network/StreamClientInternal.h:33-49 | all fragments but one, in any order, turn the parity into the missing one, zero-padded |

## Left out

- `StreamClient`, reassembly, retransmission requests and frame emission: only declared in the repository.
- Logging: text, log state and the reads made for it inside `RecordJitter`; those reads are getters after a record, which `GettersAreTransparent` covers. The delay computed there for the log is not required to fit in 64 bits.
- The overloads that supply default arguments (`RecordJitter` without loss and skip rate, `WriteRtpHeader` without extension), and getters that only return a field.
- Protocol headers, client configuration and receive statistics: plain data.
- Sockets, system clock and file output: the time is a parameter.
- FU-A reassembly: only a constant appears in the code.
- Floating-point rounding and NaN: values are real numbers.
- Producer identities and fairness of the scheduler: producers are events, and the progress statements are about enabled steps.
- RtpProtocol.ParseRtpLatencyExtension: four-byte payloads under the latency profile are excluded, because the code reads past them.
