/** Two automatic runs on one clock: worse measurements never lead to a mode that buffers
    less, to smaller limits or to a shorter delay. */
module JitterOrder {
  import opened Common
  import opened LatencyStatistics
  import opened JitterBuffer
  import opened JitterRuns
  import opened JitterComparison

  // ----- one evaluation -----

  /** How the memories of a better and a worse run compare: in the same mode the worse one
      is no further from climbing, and the better one no further from descending. */
  predicate MachineBeneath(a: Machine, b: Machine, latest: uint64) {
    && a.Bounded() && b.Bounded() && a.sinceNs <= latest && b.sinceNs <= latest
    && a.mode.Height() <= b.mode.Height()
    && (a.mode == b.mode ==>
          match a.mode
          case Bypass => a.high <= b.high
          case LowLatency => b.low <= a.low && (a.exceeded ==> b.exceeded)
          case Smooth => b.sinceNs != 0 ==> 0 < a.sinceNs <= b.sinceNs)
  }

  lemma EvaluationKeepsOrder(a: Machine, b: Machine, latest: uint64,
                             p95: real, p95': real, jitter: real, jitter': real, now: uint64)
    requires MachineBeneath(a, b, latest) && p95 <= p95' && jitter <= jitter' && latest <= now
    ensures MachineBeneath(Evaluate(a, p95, jitter, now), Evaluate(b, p95', jitter', now), now)
  {
  }

  // ----- runs -----

  /** The time of the last sample among the first `n` calls, zero before any. */
  function LastTime(calls: seq<Call>, n: nat): uint64
    requires n <= |calls|
  {
    if n == 0 then 0
    else if calls[n - 1].RecordJitter? then calls[n - 1].sample.nowNs
    else LastTime(calls, n - 1)
  }

  ghost predicate ClockGoesForward(calls: seq<Call>) {
    forall i, j :: 0 <= i <= j < |calls| && calls[i].RecordJitter? && calls[j].RecordJitter? ==>
      calls[i].sample.nowNs <= calls[j].sample.nowNs
  }

  lemma {:induction false} LastTimeIsPast(calls: seq<Call>, n: nat, j: nat)
    requires n <= j < |calls| && ClockGoesForward(calls) && calls[j].RecordJitter?
    ensures LastTime(calls, n) <= calls[j].sample.nowNs
  {
    if n > 0 && !calls[n - 1].RecordJitter? {
      LastTimeIsPast(calls, n - 1, j);
    }
  }

  /** The calls of two runs on one clock, the second with measurements that are no better,
      neither with a fixed mode. */
  ghost predicate Comparable(xs: seq<Call>, ys: seq<Call>) {
    && |xs| == |ys| && ClockGoesForward(xs)
    && forall i :: 0 <= i < |xs| ==>
         && NoWorse(xs[i], ys[i]) && !xs[i].SetFixedMode?
         && (xs[i].RecordJitter? && ys[i].RecordJitter? ==> xs[i].sample.nowNs == ys[i].sample.nowNs)
  }

  ghost predicate Ordered(c: Core, d: Core, latest: uint64) {
    Beneath(c, d) && c.auto && d.auto && MachineBeneath(c.machine, d.machine, latest)
  }

  lemma SampleKeepsOrder(c: Core, d: Core, latest: uint64, a: Sample, b: Sample)
    requires Ordered(c, d, latest) && NoWorse(RecordJitter(a), RecordJitter(b))
    requires a.nowNs == b.nowNs && latest <= a.nowNs
    ensures Ordered(AfterSample(c, a), AfterSample(d, b), a.nowNs)
  {
    hide AfterSample, Evaluate, Core.P95, SummaryOfHistory;
    RecordKeepsBeneath(c, d, a, b);
    var c', d' := AfterSample(c, a), AfterSample(d, b);
    P95IsMonotone(c', d');
    SampleStep(c, a);
    SampleStep(d, b);
    EvaluationKeepsOrder(c.machine, d.machine, latest, c'.P95(), d'.P95(), a.jitterMs, b.jitterMs, a.nowNs);
    SampleKeepsAuto(c, a);
    SampleKeepsAuto(d, b);
  }

  lemma SampleKeepsAuto(c: Core, s: Sample)
    requires c.Inv()
    ensures AfterSample(c, s).auto == c.auto
  {
    hide SummaryOfHistory, Evaluate;
  }

  lemma OtherCallKeepsOrder(c: Core, d: Core, latest: uint64, call: Call)
    requires Ordered(c, d, latest) && !call.RecordJitter? && !call.SetFixedMode?
    ensures Ordered(AfterCall(c, call), AfterCall(d, call), latest)
  {
    hide SummaryOfHistory, AfterSample, Beneath;
    CallKeepsBeneath(c, d, call, call);
    BeneathIsValid(c, d);
  }

  lemma BeneathIsValid(c: Core, d: Core)
    requires Beneath(c, d)
    ensures c.Inv() && d.Inv()
  {
  }

  lemma {:induction false} RunsStayOrdered(xs: seq<Call>, ys: seq<Call>, n: nat)
    requires n <= |xs| && Comparable(xs, ys)
    ensures Ordered(Exec(START, xs, n), Exec(START, ys, n), LastTime(xs, n))
  {
    hide Beneath, MachineBeneath, SummaryOfHistory, AfterSample;
    if n == 0 {
      StartOrdered();
    } else {
      RunsStayOrdered(xs, ys, n - 1);
      var c, d := Exec(START, xs, n - 1), Exec(START, ys, n - 1);
      var x, y := xs[n - 1], ys[n - 1];
      if x.RecordJitter? && y.RecordJitter? {
        LastTimeIsPast(xs, n - 1, n - 1);
        SampleKeepsOrder(c, d, LastTime(xs, n - 1), x.sample, y.sample);
      } else {
        OtherCallKeepsOrder(c, d, LastTime(xs, n - 1), x);
      }
    }
  }

  lemma StartOrdered()
    ensures Ordered(START, START, 0)
  {
    StartBeneath();
  }

  /** At no point is the run with worse measurements in a mode that buffers less. */
  lemma WorseInputNeverLowersMode(xs: seq<Call>, ys: seq<Call>, n: nat)
    requires n <= |xs| && Comparable(xs, ys)
    ensures Exec(START, xs, n).machine.mode.Height() <= Exec(START, ys, n).machine.mode.Height()
  {
    hide Exec, Beneath, LastTime;
    RunsStayOrdered(xs, ys, n);
  }

  /** At no point does it have a shorter target delay. */
  lemma WorseInputNeverShortensDelay(xs: seq<Call>, ys: seq<Call>, n: nat, config: Config)
    requires n <= |xs| && Comparable(xs, ys) && Sensible(config)
    requires DelayFits(Exec(START, ys, n).machine.mode, Exec(START, ys, n).P95(), config)
    ensures DelayFits(Exec(START, xs, n).machine.mode, Exec(START, xs, n).P95(), config)
    ensures DelayNs(Exec(START, xs, n).machine.mode, Exec(START, xs, n).P95(), config)
            <= DelayNs(Exec(START, ys, n).machine.mode, Exec(START, ys, n).P95(), config)
  {
    hide Exec, Core.P95, TargetMs, DelayNs, DelayFits;
    var c, d := Exec(START, xs, n), Exec(START, ys, n);
    WorseInputNeverLowersMode(xs, ys, n);
    WorseInputNeverLooksBetter(xs, ys, n);
    DelayGrowsWithMode(c.machine.mode, c.P95(), d.machine.mode, d.P95(), config);
  }

  /** The same at equal modes, for any clocks and with fixed modes among the calls. */
  lemma EqualModesOrderDelays(xs: seq<Call>, ys: seq<Call>, n: nat, config: Config)
    requires n <= |xs| == |ys| && (forall i :: 0 <= i < |xs| ==> NoWorse(xs[i], ys[i])) && Sensible(config)
    requires Exec(START, xs, n).machine.mode == Exec(START, ys, n).machine.mode
    requires DelayFits(Exec(START, ys, n).machine.mode, Exec(START, ys, n).P95(), config)
    ensures DelayFits(Exec(START, xs, n).machine.mode, Exec(START, xs, n).P95(), config)
    ensures DelayNs(Exec(START, xs, n).machine.mode, Exec(START, xs, n).P95(), config)
            <= DelayNs(Exec(START, ys, n).machine.mode, Exec(START, ys, n).P95(), config)
  {
    hide Exec, Core.P95, TargetMs, DelayNs, DelayFits;
    var c, d := Exec(START, xs, n), Exec(START, ys, n);
    WorseInputNeverLooksBetter(xs, ys, n);
    DelayGrowsWithMode(c.machine.mode, c.P95(), d.machine.mode, d.P95(), config);
  }

  // ----- limits -----

  /** The device after the first `n` calls. */
  ghost function DeviceRun(d: Device, calls: seq<Call>, n: nat): (r: Device)
    requires d.core.Inv() && n <= |calls|
    ensures r.core == Exec(d.core, calls, n)
  {
    if n == 0 then d else DeviceAfter(DeviceRun(d, calls, n - 1), calls[n - 1])
  }

  /** A new device, configured. */
  function Configured(config: Config): Device {
    Device(START, config, BaseLimits(config))
  }

  /** Neither fixed modes nor another configuration. */
  ghost predicate RunsAutomatically(calls: seq<Call>) {
    forall i :: 0 <= i < |calls| ==> !calls[i].SetFixedMode? && !calls[i].Configure?
  }

  /** In an automatic run the limits are those of the shown quality from the tenth sample
      since the last reset on, and the base limits before. */
  lemma {:induction false} LimitsFollowQuality(config: Config, calls: seq<Call>, n: nat)
    requires n <= |calls| && RunsAutomatically(calls)
    ensures var d := DeviceRun(Configured(config), calls, n);
            && d.config == config && d.core.auto
            && if |d.core.window.history| < 10 then d.limits == Limits(config.baseMaxWaitMs, config.baseMaxFrames)
               else LimitsMean(d.core.quality, config, d.limits)
  {
    hide LimitsFor, LimitsMean, AfterCall;
    if n > 0 {
      LimitsFollowQuality(config, calls, n - 1);
      var d := DeviceRun(Configured(config), calls, n - 1);
      CallAndLimits(d.core, calls[n - 1]);
      if calls[n - 1].RecordJitter? {
        RecordSetsLimits(d, calls[n - 1].sample);
      }
    }
  }

  /** In any state, fixed modes included: from ten samples on a record in automatic mode sets
      the limits by the quality it found; any other record leaves them alone. */
  lemma RecordSetsLimits(d: Device, s: Sample)
    requires d.core.Inv()
    ensures var r := DeviceAfter(d, RecordJitter(s));
            && r.config == d.config
            && if d.core.auto && 10 <= |d.core.window.history| + 1 then LimitsMean(r.core.quality, d.config, r.limits)
               else r.limits == d.limits
  {
    hide SummaryOfHistory, Evaluate, QualityOf, LimitsFor, LimitsMean;
    var r := DeviceAfter(d, RecordJitter(s));
    LimitsByQuality(r.core.quality, d.config, r.limits);
  }

  /** What a call of an automatic run means for the history and the quality. */
  lemma CallAndLimits(c: Core, call: Call)
    requires c.Inv() && c.auto && !call.SetFixedMode? && !call.Configure?
    ensures var r := AfterCall(c, call);
            && r.auto
            && (call.RecordJitter? ==> (Evaluates(r) <==> |r.window.history| >= WARM_UP)
                                       && |r.window.history| == |c.window.history| + 1)
            && (call.ResetAll? ==> r.window.history == [])
            && (!call.RecordJitter? && !call.ResetAll? ==>
                  r.window.history == c.window.history && r.quality == c.quality)
  {
    hide SummaryOfHistory, Evaluate, QualityOf;
  }

  /** With base limits for which the limits grow at all, worse input never shrinks them. */
  lemma WorseInputNeverShrinksLimits(config: Config, xs: seq<Call>, ys: seq<Call>, n: nat)
    requires n <= |xs| == |ys| && forall i :: 0 <= i < |xs| ==> NoWorse(xs[i], ys[i])
    requires RunsAutomatically(xs)
    requires 40 <= config.baseMaxWaitMs && FramesGrow(config.baseMaxFrames)
    ensures var a, b := DeviceRun(Configured(config), xs, n).limits, DeviceRun(Configured(config), ys, n).limits;
            a.maxWaitMs <= b.maxWaitMs && a.maxFrames <= b.maxFrames
  {
    hide DeviceRun, Exec, LimitsFor, LimitsMean, AfterCall;
    forall i | 0 <= i < |ys| ensures !ys[i].SetFixedMode? && !ys[i].Configure? {
      assert NoWorse(xs[i], ys[i]);
    }
    LimitsFollowQuality(config, xs, n);
    LimitsFollowQuality(config, ys, n);
    RunsStayBeneath(xs, ys, n);
    var c, d := DeviceRun(Configured(config), xs, n), DeviceRun(Configured(config), ys, n);
    LimitsByQuality(c.core.quality, config, c.limits);
    LimitsByQuality(d.core.quality, config, d.limits);
    LimitsGrow(config, c.core.quality, d.core.quality);
  }

  lemma LimitsGrow(config: Config, q: Quality, q': Quality)
    requires q.Badness() <= q'.Badness()
    requires 40 <= config.baseMaxWaitMs && FramesGrow(config.baseMaxFrames)
    ensures LimitsFor(q, config).maxWaitMs <= LimitsFor(q', config).maxWaitMs
    ensures LimitsFor(q, config).maxFrames <= LimitsFor(q', config).maxFrames
  {
    LimitsGrowExactly(config);
  }
}
