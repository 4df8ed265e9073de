/** Sliding-window latency statistics: a ring buffer with a lazily refreshed summary,
    and the plain list of recorded values that it stands for. */
module LatencyStatistics {
  import opened Common
  import opened Samples

  datatype LatencySummary = LatencySummary(
    count: nat, lastMs: real, minMs: real, avgMs: real,
    p50Ms: real, p95Ms: real, p99Ms: real, maxMs: real)

  function LastOf(s: seq<real>): real {
    if s == [] then 0.0 else s[|s| - 1]
  }

  /** The summary of a window computed from scratch; without samples it is all zero
      but for the most recent value. */
  function SummaryOf(window: seq<real>, last: real): LatencySummary {
    if window == [] then LatencySummary(0, last, 0.0, 0.0, 0.0, 0.0, 0.0, 0.0)
    else
      var sorted := Sort(window);
      LatencySummary(
        |window|, last, sorted[0], Sum(window) / |window| as real,
        PercentileFromSorted(sorted, 0.50),
        PercentileFromSorted(sorted, 0.95),
        PercentileFromSorted(sorted, 0.99),
        sorted[|sorted| - 1])
  }

  /** The summary of a whole history of which only the last `capacity` values are kept. */
  function SummaryOfHistory(history: seq<real>, capacity: nat): LatencySummary {
    SummaryOf(Latest(history, capacity), LastOf(history))
  }

  /** The extremes are attained and bound every sample; the percentiles are ordered
      between them, and so is the average. */
  lemma SummaryIsOrdered(window: seq<real>, last: real)
    requires window != []
    ensures var s := SummaryOf(window, last);
            && s.minMs in window && s.maxMs in window
            && (forall x :: x in window ==> s.minMs <= x <= s.maxMs)
            && s.minMs <= s.p50Ms <= s.p95Ms <= s.p99Ms <= s.maxMs
            && s.minMs <= s.avgMs <= s.maxMs
  {
    SortSorts(window);
    var sorted := Sort(window);
    assert sorted[0] in sorted && sorted[|sorted| - 1] in sorted;
    forall x | x in window ensures sorted[0] <= x <= sorted[|sorted| - 1] {
      assert x in sorted;
    }
    assert forall i :: 0 <= i < |window| ==> window[i] in window;
    PercentileMonotone(sorted, 0.50, 0.95);
    PercentileMonotone(sorted, 0.95, 0.99);
    AverageWithin(window, sorted[0], sorted[|sorted| - 1]);
  }

  /** With the samples in ascending order, `value` stands `hundredths` of a step behind the
      first, on the straight line between its two neighbours. */
  predicate StandsAt(ascending: seq<real>, hundredths: nat, value: real) {
    var k, j := hundredths / 100, hundredths % 100;
    if j == 0 then k < |ascending| && value == ascending[k]
    else k + 1 < |ascending| && 100.0 * value == (100 - j) as real * ascending[k] + j as real * ascending[k + 1]
  }

  /** The statistics by rank, in whichever way the samples were sorted. */
  lemma SummaryByRank(window: seq<real>, last: real, ascending: seq<real>)
    requires window != [] && Sorted(ascending) && multiset(ascending) == multiset(window)
    ensures |ascending| == |window|
    ensures var s := SummaryOf(window, last);
            && s.count == |window| && s.lastMs == last
            && s.minMs == ascending[0] && s.maxMs == ascending[|window| - 1]
            && StandsAt(ascending, 50 * (|window| - 1), s.p50Ms)
            && StandsAt(ascending, 95 * (|window| - 1), s.p95Ms)
            && StandsAt(ascending, 99 * (|window| - 1), s.p99Ms)
  {
    hide PercentileFromSorted, StandsAt, Sort, Sum;
    LibrarySortAgrees(window, ascending);
    PercentileStands(ascending, 50 * (|ascending| - 1), 0.50);
    PercentileStands(ascending, 95 * (|ascending| - 1), 0.95);
    PercentileStands(ascending, 99 * (|ascending| - 1), 0.99);
  }

  lemma PercentileStands(ascending: seq<real>, hundredths: nat, p: real)
    requires ascending != [] && 0.0 <= p <= 1.0 && hundredths <= 100 * (|ascending| - 1)
    requires 100.0 * Rank((|ascending| - 1) as real, p) == hundredths as real
    ensures StandsAt(ascending, hundredths, PercentileFromSorted(ascending, p))
  {
    hide PercentileFromSorted, Rank;
    var value := PercentileFromSorted(ascending, p);
    var k, j := hundredths / 100, hundredths % 100;
    if k + 1 < |ascending| {
      PercentileBlends(ascending, p, k, j as real / 100.0);
      BlendInHundredths(ascending[k], ascending[k + 1], j, value);
    } else {
      PercentileAtEnd(ascending, p);
    }
  }

  /** Without samples everything but the last value is zero. */
  lemma SummaryOfNothing(last: real)
    ensures SummaryOf([], last) == LatencySummary(0, last, 0.0, 0.0, 0.0, 0.0, 0.0, 0.0)
  {
  }

  /** The average times the count is a sum: it grows by each value that is appended. */
  lemma AverageSums(window: seq<real>, x: real, last: real, last': real)
    ensures SummaryOf(window + [x], last').avgMs * |window + [x]| as real
            == SummaryOf(window, last).avgMs * |window| as real + x
  {
    hide Sum, SummaryOf;
    AverageTimesCount(window + [x], last');
    AverageTimesCount(window, last);
    SumSnoc(window, x);
  }

  lemma AverageTimesCount(window: seq<real>, last: real)
    ensures SummaryOf(window, last).avgMs * |window| as real == Sum(window)
  {
    hide SummaryOf;
    AverageIsQuotient(window, last);
    if window != [] {
      QuotientTimes(SummaryOf(window, last).avgMs, Sum(window), |window| as real);
    }
  }

  lemma AverageIsQuotient(window: seq<real>, last: real)
    ensures window != [] ==> SummaryOf(window, last).avgMs == Sum(window) / |window| as real
  {
    hide PercentileFromSorted, Sort, Sum;
  }

  /** The order of the samples plays no part in the summary. */
  lemma SummaryIgnoresOrder(window: seq<real>, other: seq<real>, last: real)
    requires multiset(window) == multiset(other)
    ensures SummaryOf(window, last) == SummaryOf(other, last)
  {
    hide PercentileFromSorted, Sum, Sort;
    SameLength(window, other);
    SortSorts(other);
    SortPermutes(other);
    LibrarySortAgrees(window, Sort(other));
    SumIgnoresOrder(window, other);
  }

  /** Raising samples one by one never lowers the p95. */
  lemma P95Dominates(a: seq<real>, b: seq<real>, last: real, last': real)
    requires Dominated(a, b)
    ensures SummaryOf(a, last).p95Ms <= SummaryOf(b, last').p95Ms
  {
    PercentileDominates(a, b, 0.95);
  }

  /** The p95 of a nonempty window lies between two of its samples. */
  lemma P95Within(window: seq<real>, last: real)
    requires window != []
    ensures exists x, y :: x in window && y in window && x <= SummaryOf(window, last).p95Ms <= y
  {
    PercentileOfBounded(window, 0.95);
  }

  /** What the ring buffer and its cache stand for: every value recorded since the
      last reset, and the prefix of them that the cached summary covers, if one is valid. */
  datatype Stats = Stats(capacity: nat, interval: nat, history: seq<real>, seen: Option<seq<real>>) {

    ghost predicate WellFormed() {
      1 <= interval && (seen.Some? ==> seen.value <= history)
    }

    function Window(): seq<real> {
      Latest(history, capacity)
    }

    /** A window without room forgets its cache whenever a value arrives. */
    function Record(value: real): Stats {
      this.(history := history + [value], seen := if capacity == 0 then None else seen)
    }

    function Reset(): Stats {
      this.(history := [], seen := None)
    }

    /** A cached summary is kept as long as fewer than `interval` values are missing
        from it, unless a refresh is forced. */
    function Refresh(force: bool): (r: Stats)
      requires WellFormed()
      ensures r.WellFormed() && r.seen.Some?
      ensures |history| - |r.seen.value| < interval
      ensures force ==> r.seen.value == history
      ensures r.(seen := seen) == this
    {
      if seen.Some? && |history| - |seen.value| < (if force then 1 else interval) then this
      else this.(seen := Some(history))
    }

    /** How many values the cached summary misses. */
    function Lag(): nat
      requires WellFormed() && seen.Some?
    {
      |history| - |seen.value|
    }

    /** The cached summary. */
    function Shown(): LatencySummary
      requires WellFormed() && seen.Some?
    {
      SummaryOfHistory(seen.value, capacity)
    }
  }

  function Empty(capacity: nat, interval: nat): Stats {
    Stats(capacity, if interval < 1 then 1 else interval, [], None)
  }

  /** A summary shows the newest value even without room for any, and counts the kept ones;
      before the first value everything is zero. */
  lemma SummaryShowsNewest(history: seq<real>, value: real, capacity: nat)
    ensures var s := SummaryOfHistory(history + [value], capacity);
            s.lastMs == value && s.count == if |history| < capacity then |history| + 1 else capacity
    ensures SummaryOfHistory([], capacity) == LatencySummary(0, 0.0, 0.0, 0.0, 0.0, 0.0, 0.0, 0.0)
  {
    hide PercentileFromSorted, Sort, Sum;
  }

  // ----- arbitrary sequences of calls -----

  datatype StatsCall = Record(value: real) | Snapshot | Format | Reset

  function StatsAfter(s: Stats, call: StatsCall): (r: Stats)
    requires s.WellFormed()
    ensures r.WellFormed() && r.capacity == s.capacity && r.interval == s.interval
  {
    match call
    case Record(v) => s.Record(v)
    case Snapshot => s.Refresh(false)
    case Format => s.Refresh(true)
    case Reset => s.Reset()
  }

  function StatsRun(s: Stats, calls: seq<StatsCall>): (r: Stats)
    requires s.WellFormed()
    ensures r.WellFormed() && r.capacity == s.capacity && r.interval == s.interval
  {
    if calls == [] then s else StatsAfter(StatsRun(s, calls[..|calls| - 1]), calls[|calls| - 1])
  }

  /** The values recorded since the last reset among `calls`. */
  function RecordedSinceReset(calls: seq<StatsCall>): seq<real> {
    if calls == [] then []
    else
      var before := RecordedSinceReset(calls[..|calls| - 1]);
      match calls[|calls| - 1]
      case Record(v) => before + [v]
      case Reset => []
      case _ => before
  }

  lemma {:induction false} HistoryIsRecorded(capacity: nat, interval: nat, calls: seq<StatsCall>)
    ensures StatsRun(Empty(capacity, interval), calls).history == RecordedSinceReset(calls)
  {
    if calls == [] {
    } else {
      HistoryIsRecorded(capacity, interval, calls[..|calls| - 1]);
    }
  }

  /** After any calls, a snapshot is the exact summary of a prefix of the values recorded
      since the last reset that misses at most `interval - 1` of them; a formatted report
      misses none.  Nothing recorded before the reset can be seen. */
  lemma ObservedSummary(capacity: nat, interval: nat, calls: seq<StatsCall>)
    ensures var s := StatsRun(Empty(capacity, interval), calls);
            var h := RecordedSinceReset(calls);
            && (exists k: nat :: k <= |h| && |h| - k <= s.interval - 1
                  && StatsAfter(s, Snapshot).Shown() == SummaryOfHistory(h[..k], capacity))
            && StatsAfter(s, Format).Shown() == SummaryOfHistory(h, capacity)
  {
    HistoryIsRecorded(capacity, interval, calls);
    var s := StatsRun(Empty(capacity, interval), calls);
    var h := RecordedSinceReset(calls);
    var seen := StatsAfter(s, Snapshot).seen.value;
    assert seen == h[..|seen|];
  }

  lemma {:induction false} RecordsOnly(s: Stats, calls: seq<StatsCall>)
    requires s.WellFormed() && forall i :: 0 <= i < |calls| ==> calls[i].Record?
    ensures var r := StatsRun(s, calls);
            |r.history| == |s.history| + |calls| && r.seen == if s.capacity == 0 && calls != [] then None else s.seen
  {
    if calls != [] {
      RecordsOnly(s, calls[..|calls| - 1]);
    }
  }

  /** A snapshot repeats the cached summary exactly as long as fewer than `interval` values
      are missing from it; then, and always in a window without room, it is up to date. */
  lemma SnapshotsRepeatExactly(s: Stats, calls: seq<StatsCall>)
    requires s.WellFormed() && s.seen.Some? && forall i :: 0 <= i < |calls| ==> calls[i].Record?
    ensures var r := StatsRun(s, calls);
            StatsAfter(r, Snapshot).Shown() ==
            if |s.history| + |calls| - |s.seen.value| < s.interval && (s.capacity > 0 || calls == []) then s.Shown()
            else SummaryOfHistory(r.history, s.capacity)
  {
    hide SummaryOfHistory;
    RecordsOnly(s, calls);
  }

  // ----- the ring buffer -----

  /** The kept values, oldest first: the slots up to `count` while the ring has room,
      and afterwards the slots from `next` on followed by those before it. */
  function RingOrder(ring: seq<real>, next: nat, count: nat): seq<real>
    requires next <= |ring| && count <= |ring|
  {
    if count < |ring| then ring[..count] else ring[next..] + ring[..next]
  }

  /** The ring holds the window of `history`, and `next` is the slot to overwrite. */
  ghost predicate RingHolds(ring: seq<real>, next: nat, count: nat, history: seq<real>) {
    && (if ring == [] then next == 0 else next < |ring|)
    && (|history| < |ring| ==> next == |history|)
    && count == |Latest(history, |ring|)|
    && RingOrder(ring, next, count) == Latest(history, |ring|)
  }

  /** The slot after `next`, around a ring of `n` slots. */
  function Following(next: nat, n: nat): (r: nat)
    requires next < n
    ensures r == (next + 1) % n
  {
    if next + 1 == n then 0 else next + 1
  }

  lemma RingStartsEmpty(ring: seq<real>)
    ensures RingHolds(ring, 0, 0, [])
  {
    assert ring == [] ==> ring[0..] + ring[..0] == [];
  }

  lemma RingBounds(ring: seq<real>, next: nat, count: nat, history: seq<real>)
    requires RingHolds(ring, next, count, history)
    ensures ring != [] ==> next < |ring|
    ensures count <= |ring|
  {
  }

  lemma RingWithoutRoom(ring: seq<real>, next: nat, count: nat, history: seq<real>, history': seq<real>)
    requires ring == [] && RingHolds(ring, next, count, history)
    ensures RingHolds(ring, next, count, history')
  {
  }

  /** Overwriting the slot at `next` slides the window by one value. */
  lemma RingRecords(ring: seq<real>, next: nat, count: nat, history: seq<real>, value: real)
    requires ring != [] && RingHolds(ring, next, count, history)
    ensures RingHolds(ring[next := value], Following(next, |ring|),
                      if count < |ring| then count + 1 else count, history + [value])
  {
  }

  class LatencyStats {
    const maxSamples: nat
    const snapshotRefreshInterval: nat
    const samplesMs: array<real>
    var nextIndex: nat
    var sampleCount: nat
    var dirty: bool
    var cachedSummaryValid: bool
    var pendingSnapshotSamples: nat
    var cachedSummary: LatencySummary
    var lastMs: real
    ghost var history: seq<real>
    ghost var seen: Option<seq<real>>

    /** The plain list that this ring stands for. */
    ghost function Model(): Stats
      reads this`history, this`seen
    {
      Stats(maxSamples, snapshotRefreshInterval, history, seen)
    }

    ghost predicate RingValid()
      reads this`nextIndex, this`sampleCount, this`lastMs, this`history, samplesMs
    {
      && samplesMs.Length == maxSamples
      && RingHolds(samplesMs[..], nextIndex, sampleCount, history)
      && lastMs == LastOf(history)
    }

    ghost predicate CacheValid()
      reads this`dirty, this`cachedSummaryValid, this`pendingSnapshotSamples, this`cachedSummary
      reads this`history, this`seen
    {
      && Model().WellFormed()
      && cachedSummaryValid == seen.Some?
      && (cachedSummaryValid ==>
            && cachedSummary == Model().Shown()
            && pendingSnapshotSamples == Model().Lag()
            && dirty == (Model().Lag() > 0))
    }

    ghost predicate Valid()
      reads this, samplesMs
    {
      RingValid() && CacheValid()
    }

    constructor (maxSamples: nat, snapshotRefreshInterval: nat)
      ensures Valid() && fresh(samplesMs)
      ensures Model() == Empty(maxSamples, snapshotRefreshInterval)
    {
      this.maxSamples := maxSamples;
      this.snapshotRefreshInterval := if snapshotRefreshInterval < 1 then 1 else snapshotRefreshInterval;
      samplesMs := new real[maxSamples](_ => 0.0);
      nextIndex := 0;
      sampleCount := 0;
      dirty := false;
      cachedSummaryValid := false;
      pendingSnapshotSamples := 0;
      cachedSummary := LatencySummary(0, 0.0, 0.0, 0.0, 0.0, 0.0, 0.0, 0.0);
      lastMs := 0.0;
      history := [];
      seen := None;
      new;
      RingStartsEmpty(samplesMs[..]);
    }

    method Record(valueMs: real)
      requires Valid()
      modifies this, samplesMs
      ensures Valid()
      ensures Model() == old(Model()).Record(valueMs)
      ensures history == old(history) + [valueMs] && lastMs == valueMs
    {
      hide SummaryOfHistory, RingHolds, Following;
      ghost var ring := samplesMs[..];
      RingBounds(ring, nextIndex, sampleCount, history);
      history := history + [valueMs];
      lastMs := valueMs;
      if maxSamples == 0 {
        dirty := true;
        cachedSummaryValid := false;
        seen := None;
        pendingSnapshotSamples := 0;
        RingWithoutRoom(ring, nextIndex, sampleCount, old(history), history);
        return;
      }
      RingRecords(ring, nextIndex, sampleCount, old(history), valueMs);
      samplesMs[nextIndex] := valueMs;
      assert samplesMs[..] == ring[nextIndex := valueMs];
      assert (nextIndex + 1) % maxSamples == Following(nextIndex, maxSamples);
      nextIndex := (nextIndex + 1) % maxSamples;
      if sampleCount < maxSamples {
        sampleCount := sampleCount + 1;
      }
      assert RingValid();
      dirty := true;
      pendingSnapshotSamples := pendingSnapshotSamples + 1;
    }

    method HasSamples() returns (r: bool)
      requires Valid()
      ensures r == (Model().Window() != [])
    {
      r := sampleCount > 0;
    }

    method SampleCount() returns (n: nat)
      requires Valid()
      ensures n == |Model().Window()|
    {
      n := sampleCount;
    }

    /** Reading a snapshot may refresh the cache but changes nothing else. */
    method Snapshot() returns (summary: LatencySummary)
      requires Valid()
      modifies this`dirty, this`cachedSummaryValid, this`pendingSnapshotSamples, this`cachedSummary, this`seen
      ensures Valid()
      ensures Model() == old(Model()).Refresh(false)
      ensures summary == Model().Shown()
    {
      RefreshSummary(false);
      summary := cachedSummary;
    }

    method AverageMs() returns (average: real)
      requires Valid()
      modifies this`dirty, this`cachedSummaryValid, this`pendingSnapshotSamples, this`cachedSummary, this`seen
      ensures Valid()
      ensures Model() == old(Model()).Refresh(false)
      ensures average == Model().Shown().avgMs
    {
      var summary := Snapshot();
      average := summary.avgMs;
    }

    method Reset()
      requires Valid()
      modifies this, samplesMs
      ensures Valid()
      ensures Model() == old(Model()).Reset()
      ensures cachedSummary == old(cachedSummary)
    {
      forall i | 0 <= i < samplesMs.Length {
        samplesMs[i] := 0.0;
      }
      nextIndex := 0;
      sampleCount := 0;
      dirty := false;
      cachedSummaryValid := false;
      pendingSnapshotSamples := 0;
      lastMs := 0.0;
      RingStartsEmpty(samplesMs[..]);
      history, seen := [], None;
    }

    /** Returns the summary that the formatted text reports. */
    method Format() returns (summary: LatencySummary)
      requires Valid()
      modifies this`dirty, this`cachedSummaryValid, this`pendingSnapshotSamples, this`cachedSummary, this`seen
      ensures Valid()
      ensures Model() == old(Model()).Refresh(true)
      ensures summary == SummaryOfHistory(Model().history, Model().capacity)
    {
      RefreshSummary(true);
      summary := cachedSummary;
    }

    method RefreshSummary(forceRefresh: bool)
      requires Valid()
      modifies this`dirty, this`cachedSummaryValid, this`pendingSnapshotSamples, this`cachedSummary, this`seen
      ensures Valid()
      ensures Model() == old(Model()).Refresh(forceRefresh)
    {
      hide SummaryOfHistory;
      if !dirty && cachedSummaryValid {
        return;
      }
      if !forceRefresh && cachedSummaryValid && pendingSnapshotSamples < snapshotRefreshInterval {
        return;
      }
      cachedSummary := BuildSummary();
      cachedSummaryValid := true;
      dirty := false;
      pendingSnapshotSamples := 0;
      seen := Some(history);
    }

    method BuildSummary() returns (summary: LatencySummary)
      requires RingValid()
      ensures summary == SummaryOfHistory(Model().history, Model().capacity)
    {
      summary := LatencySummary(sampleCount, lastMs, 0.0, 0.0, 0.0, 0.0, 0.0, 0.0);
      if sampleCount == 0 {
        return;
      }
      assert samplesMs[..][nextIndex..] + samplesMs[..][..nextIndex] == samplesMs[nextIndex..] + samplesMs[..nextIndex];
      var orderedSamples: seq<real>;
      if sampleCount < maxSamples {
        orderedSamples := samplesMs[..sampleCount];
      } else {
        orderedSamples := samplesMs[nextIndex..] + samplesMs[..nextIndex];
      }
      var sortedSamples := Sort(orderedSamples);
      summary := summary.(
        minMs := sortedSamples[0],
        maxMs := sortedSamples[|sortedSamples| - 1],
        avgMs := Sum(orderedSamples) / |orderedSamples| as real,
        p50Ms := PercentileFromSorted(sortedSamples, 0.50),
        p95Ms := PercentileFromSorted(sortedSamples, 0.95),
        p99Ms := PercentileFromSorted(sortedSamples, 0.99));
    }
  }
}
