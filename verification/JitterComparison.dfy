/** Two runs compared, and what follows for grades, limits and delays. */
module JitterComparison {
  import opened Common
  import opened Samples
  import opened LatencyStatistics
  import opened JitterBuffer
  import opened JitterRuns

  // ----- grading -----

  function GradeP95(p95: real): nat {
    if p95 <= 1.0 then 0 else if p95 <= 10.0 then 1 else if p95 <= 50.0 then 2 else 3
  }

  function GradeLoss(loss: real): nat {
    if loss <= 0.01 then 0 else if loss <= 0.1 then 1 else if loss <= 1.0 then 2 else 3
  }

  /** A skip rate never earns grade one. */
  function GradeSkip(skip: real): nat {
    if skip <= 1.0 then 0 else if skip <= 5.0 then 2 else 3
  }

  /** The quality is the worst of three independent grades. */
  lemma QualityIsWorstGrade(p95: real, loss: real, skip: real)
    ensures QualityOf(p95, loss, skip).Badness() == Max(GradeP95(p95), Max(GradeLoss(loss), GradeSkip(skip)))
  {
  }

  // ----- two runs -----

  /** The same call, except that every measurement of the first is no worse. */
  predicate NoWorse(a: Call, b: Call) {
    if a.RecordJitter? && b.RecordJitter? then
      && a.sample.jitterMs <= b.sample.jitterMs
      && a.sample.lossPercent <= b.sample.lossPercent
      && a.sample.skipPercent <= b.sample.skipPercent
    else a == b
  }

  /** How two controllers compare that went through such calls. */
  ghost predicate Beneath(c: Core, d: Core) {
    && c.Inv() && d.Inv()
    && Dominated(c.window.history, d.window.history)
    && c.window.seen.Some? == d.window.seen.Some?
    && (c.window.seen.Some? ==> |c.window.seen.value| == |d.window.seen.value|)
    && (c.window.history == [] ==> c.machine.mode == d.machine.mode)
    && c.quality.Badness() <= d.quality.Badness()
  }

  lemma DominatedPrefix(a: seq<real>, b: seq<real>, k: nat)
    requires Dominated(a, b) && k <= |a|
    ensures Dominated(a[..k], b[..k])
  {
  }

  lemma DominatedLatest(a: seq<real>, b: seq<real>, k: nat)
    requires Dominated(a, b)
    ensures Dominated(Latest(a, k), Latest(b, k))
  {
  }

  lemma ShownMonotone(s: Stats, t: Stats)
    requires s.WellFormed() && t.WellFormed() && s.capacity == t.capacity
    requires Dominated(s.history, t.history)
    requires s.seen.Some? && t.seen.Some? && |s.seen.value| == |t.seen.value|
    ensures s.Shown().p95Ms <= t.Shown().p95Ms
  {
    hide SummaryOf;
    var a, b := s.seen.value, t.seen.value;
    DominatedPrefix(s.history, t.history, |a|);
    assert a == s.history[..|a|] && b == t.history[..|b|];
    DominatedLatest(a, b, s.capacity);
    P95Dominates(Latest(a, s.capacity), Latest(b, s.capacity), LastOf(a), LastOf(b));
  }

  lemma QualityMonotone(p: real, l: real, s: real, p': real, l': real, s': real)
    requires p <= p' && l <= l' && s <= s'
    ensures QualityOf(p, l, s).Badness() <= QualityOf(p', l', s').Badness()
  {
  }

  lemma RecordKeepsBeneath(c: Core, d: Core, a: Sample, b: Sample)
    requires Beneath(c, d) && NoWorse(RecordJitter(a), RecordJitter(b))
    ensures Beneath(AfterSample(c, a), AfterSample(d, b))
  {
    hide SummaryOfHistory, Evaluate, QualityOf;
    AfterCallKeepsInv(c, RecordJitter(a));
    AfterCallKeepsInv(d, RecordJitter(b));
    var c', d' := AfterSample(c, a), AfterSample(d, b);
    assert Dominated(c'.window.history, d'.window.history);
    ShownMonotone(c'.window, d'.window);
    QualityMonotone(c'.window.Shown().p95Ms, a.lossPercent, a.skipPercent,
                    d'.window.Shown().p95Ms, b.lossPercent, b.skipPercent);
  }

  lemma CallKeepsBeneath(c: Core, d: Core, a: Call, b: Call)
    requires Beneath(c, d) && NoWorse(a, b)
    ensures Beneath(AfterCall(c, a), AfterCall(d, b))
  {
    hide AfterSample, SummaryOfHistory;
    if a.RecordJitter? && b.RecordJitter? {
      RecordKeepsBeneath(c, d, a.sample, b.sample);
    } else {
      AfterCallKeepsInv(c, a);
      AfterCallKeepsInv(d, b);
    }
  }

  lemma P95IsMonotone(c: Core, d: Core)
    requires Beneath(c, d)
    ensures c.P95() <= d.P95()
  {
    hide SummaryOfHistory;
    ShownMonotone(c.window.Refresh(false), d.window.Refresh(false));
  }

  lemma {:induction false} RunsStayBeneath(xs: seq<Call>, ys: seq<Call>, n: nat)
    requires n <= |xs| == |ys| && forall i :: 0 <= i < |xs| ==> NoWorse(xs[i], ys[i])
    ensures Beneath(Exec(START, xs, n), Exec(START, ys, n))
  {
    hide AfterCall, Beneath, SummaryOfHistory;
    if n == 0 {
      StartBeneath();
    } else {
      RunsStayBeneath(xs, ys, n - 1);
      CallKeepsBeneath(Exec(START, xs, n - 1), Exec(START, ys, n - 1), xs[n - 1], ys[n - 1]);
    }
  }

  lemma StartBeneath()
    ensures Beneath(START, START)
  {
  }

  /** Worse measurements, call by call, never show a lower p95 or a better quality at any
      point of the run, whatever the clocks and whatever modes are fixed meanwhile. */
  lemma WorseInputNeverLooksBetter(xs: seq<Call>, ys: seq<Call>, n: nat)
    requires n <= |xs| == |ys| && forall i :: 0 <= i < |xs| ==> NoWorse(xs[i], ys[i])
    ensures Exec(START, xs, n).P95() <= Exec(START, ys, n).P95()
    ensures Exec(START, xs, n).quality.Badness() <= Exec(START, ys, n).quality.Badness()
  {
    hide AfterCall, SummaryOfHistory;
    RunsStayBeneath(xs, ys, n);
    P95IsMonotone(Exec(START, xs, n), Exec(START, ys, n));
  }

  // ----- limits -----

  /** Worse quality means more waiting exactly for a base of at least 40 ms; with less, an
      excellent network is given more than a good one.  It means more frames exactly for a
      base of at least four whose fourfold, modulo 2 to the 64, has not fallen below it. */
  lemma LimitsGrowExactly(config: Config)
    ensures var e, g, f, p := LimitsFor(Excellent, config), LimitsFor(Good, config),
                              LimitsFor(Fair, config), LimitsFor(Poor, config);
            && (e.maxWaitMs <= g.maxWaitMs <= f.maxWaitMs <= p.maxWaitMs <==> 40 <= config.baseMaxWaitMs)
            && (e.maxFrames <= g.maxFrames <= f.maxFrames <= p.maxFrames
                <==> FramesGrow(config.baseMaxFrames))
  {
  }

  /** At least four frames, and the fourfold does not wrap around to less. */
  predicate FramesGrow(b: uint64) {
    || 4 <= b < 0x4000_0000_0000_0000
    || (TWO_TO_THE_64 <= 3 * b && b < 0x8000_0000_0000_0000)
    || (2 * TWO_TO_THE_64 <= 3 * b && b < 0xC000_0000_0000_0000)
  }

  // ----- target delay -----

  /** The settings for which delays are meant. */
  predicate Sensible(config: Config) {
    0 <= config.minDelayMs && 0.0 <= config.safetyFactor <= config.smoothFactor
  }

  lemma NonnegativeProduct(x: real, y: real)
    requires 0.0 <= x && 0.0 <= y
    ensures 0.0 <= x * y
  {
  }

  lemma GreaterFactor(least: real, a: real, b: real, x: real)
    requires 0.0 <= least && 0.0 <= a <= b
    ensures AtLeast(least, x * a) <= AtLeast(least, x * b)
  {
    if 0.0 <= x {
      NonnegativeProduct(x, b - a);
      assert x * (b - a) == x * b - x * a;
    } else {
      NonnegativeProduct(-x, a);
    }
  }

  lemma GreaterProduct(least: real, a: real, x: real, y: real)
    requires 0.0 <= a && x <= y
    ensures AtLeast(least, x * a) <= AtLeast(least, y * a)
  {
    NonnegativeProduct(y - x, a);
    assert (y - x) * a == y * a - x * a;
  }

  /** A negative p95 asks for no more than the minimum, like zero. */
  lemma ClampedProduct(least: real, a: real, x: real)
    requires 0.0 <= least && 0.0 <= a
    ensures AtLeast(least, AtLeast(0.0, x) * a) == AtLeast(least, x * a)
  {
    if x < 0.0 {
      NonnegativeProduct(-x, a);
    }
  }

  lemma TargetsAreOrdered(p95: real, config: Config)
    requires Sensible(config)
    ensures config.minDelayMs as real <= TargetMs(LowLatency, p95, config) <= TargetMs(Smooth, p95, config)
  {
    GreaterFactor(config.minDelayMs as real, config.safetyFactor, config.smoothFactor, p95);
  }

  lemma TargetGrows(mode: Mode, p95: real, larger: real, config: Config)
    requires p95 <= larger && Sensible(config)
    ensures TargetMs(mode, p95, config) <= TargetMs(mode, larger, config)
  {
    GreaterProduct(config.minDelayMs as real, config.smoothFactor, p95, larger);
    GreaterProduct(config.minDelayMs as real, config.safetyFactor, p95, larger);
  }

  lemma TargetOfClamped(p95: real, config: Config)
    requires Sensible(config)
    ensures TargetMs(Smooth, AtLeast(0.0, p95), config) == TargetMs(Smooth, p95, config)
  {
    ClampedProduct(config.minDelayMs as real, config.smoothFactor, p95);
  }

  lemma TargetIsBounded(mode: Mode, p95: real, largest: real, config: Config)
    requires p95 <= AtLeast(0.0, largest) && Sensible(config)
    ensures config.minDelayMs as real <= TargetMs(mode, p95, config) <= TargetMs(Smooth, largest, config)
  {
    hide TargetMs;
    TargetsAreOrdered(p95, config);
    TargetGrows(Smooth, p95, AtLeast(0.0, largest), config);
    TargetOfClamped(largest, config);
    TargetByMode(mode, p95, config);
  }

  lemma TargetByMode(mode: Mode, p95: real, config: Config)
    ensures TargetMs(mode, p95, config) == TargetMs(if mode == LowLatency then LowLatency else Smooth, p95, config)
  {
  }

  /** For one window the delay grows with the mode, from the configured minimum on. */
  lemma DelaysAreOrdered(p95: real, config: Config)
    requires Sensible(config) && DelayFits(Smooth, p95, config)
    ensures DelayFits(LowLatency, p95, config)
    ensures DelayNs(Bypass, p95, config) <= DelayNs(LowLatency, p95, config) <= DelayNs(Smooth, p95, config)
    ensures config.minDelayMs * 1_000_000 <= DelayNs(LowLatency, p95, config)
  {
    hide TargetMs;
    TargetsAreOrdered(p95, config);
  }

  /** The p95 in use is at most the largest of the last 103 jitters, or zero. */
  lemma P95IsRecent(c: Core)
    requires c.Inv()
    ensures c.P95() <= AtLeast(0.0, Largest(Latest(c.window.history, 103)))
  {
    hide SummaryOf, Latest, Largest;
    var h, seen := c.window.history, c.window.Refresh(false).seen.value;
    var w := Latest(seen, WINDOW_SIZE);
    if w == [] {
      P95OfNothing(LastOf(seen));
    } else {
      P95Within(w, LastOf(seen));
      var y :| y in w && SummaryOf(w, LastOf(seen)).p95Ms <= y;
      CachedWindowIsRecent(h, seen, y);
    }
  }

  lemma P95OfNothing(last: real)
    ensures SummaryOf([], last).p95Ms == 0.0
  {
  }

  lemma DelayFollowsTarget(mode: Mode, p95: real, largest: real, config: Config)
    requires p95 <= AtLeast(0.0, largest) && Sensible(config) && DelayFits(mode, p95, config)
    ensures DelayNs(mode, p95, config) as real <= 1000000.0 * TargetMs(Smooth, largest, config)
  {
    hide TargetMs, AtLeast;
    TargetIsBounded(mode, p95, largest, config);
  }

  /** The greater of the minimum delay and a jitter times the smooth factor, in nanoseconds. */
  function LongestDelay(jitter: real, config: Config): real {
    1000000.0 * AtLeast(config.minDelayMs as real, jitter * config.smoothFactor)
  }

  lemma SmoothTarget(largest: real, config: Config)
    ensures 1000000.0 * TargetMs(Smooth, largest, config) == LongestDelay(largest, config)
  {
  }

  /** In every state, and in whichever mode, the delay is at most the greater of the minimum
      delay and the largest of the last 103 jitters times the smooth factor. */
  lemma DelayIsBounded(c: Core, config: Config)
    requires c.Inv() && Sensible(config)
    requires DelayFits(c.machine.mode, c.P95(), config)
    ensures DelayNs(c.machine.mode, c.P95(), config) as real
            <= LongestDelay(Largest(Latest(c.window.history, 103)), config)
  {
    hide SummaryOfHistory, TargetMs, AtLeast, LongestDelay, DelayNs, DelayFits;
    var largest := Largest(Latest(c.window.history, 103));
    P95IsRecent(c);
    DelayFollowsTarget(c.machine.mode, c.P95(), largest, config);
    SmoothTarget(largest, config);
  }

  /** The bound for every run of calls. */
  lemma DelayIsBoundedInRuns(calls: seq<Call>, n: nat, config: Config)
    requires n <= |calls| && Sensible(config)
    requires var c := Exec(START, calls, n); DelayFits(c.machine.mode, c.P95(), config)
    ensures var c := Exec(START, calls, n);
            DelayNs(c.machine.mode, c.P95(), config) as real
            <= LongestDelay(Largest(Latest(c.window.history, 103)), config)
  {
    hide SummaryOfHistory, TargetMs, AtLeast, LongestDelay, DelayNs, DelayFits, AfterCall;
    DelayIsBounded(Exec(START, calls, n), config);
  }

  lemma DelayGrows(mode: Mode, p95: real, larger: real, config: Config)
    requires p95 <= larger && Sensible(config) && DelayFits(mode, larger, config)
    ensures DelayFits(mode, p95, config) && DelayNs(mode, p95, config) <= DelayNs(mode, larger, config)
  {
    hide TargetMs;
    TargetGrows(mode, p95, larger, config);
    TargetByMode(mode, p95, config);
    TargetsAreOrdered(p95, config);
  }

  /** A mode that buffers no less, with no lower p95, waits no shorter. */
  lemma DelayGrowsWithMode(mode: Mode, p95: real, mode': Mode, p95': real, config: Config)
    requires p95 <= p95' && mode.Height() <= mode'.Height() && Sensible(config)
    requires DelayFits(mode', p95', config)
    ensures DelayFits(mode, p95, config) && DelayNs(mode, p95, config) <= DelayNs(mode', p95', config)
  {
    hide TargetMs;
    if mode != Bypass {
      DelayGrows(mode', p95, p95', config);
      if mode != mode' {
        DelaysAreOrdered(p95, config);
      }
    }
  }
}
