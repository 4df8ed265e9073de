/** The adaptive jitter buffer: a three-mode controller with hysteresis, driven by jitter
    samples and by the p95 of a lazily summarised window of them. */
module JitterBuffer {
  import opened Common
  import opened LatencyStatistics

  datatype Mode = Bypass | LowLatency | Smooth {
    /** How much the mode buffers, from zero for none. */
    function Height(): nat {
      match this
      case Bypass => 0
      case LowLatency => 1
      case Smooth => 2
    }
  }

  datatype Quality = Excellent | Good | Fair | Poor {
    /** Zero for the best quality, three for the worst. */
    function Badness(): nat {
      match this
      case Excellent => 0
      case Good => 1
      case Fair => 2
      case Poor => 3
    }
  }

  const WINDOW_SIZE: nat := 100
  const REFRESH_INTERVAL: nat := 4
  const WARM_UP: nat := 10
  const HIGH_STREAK: nat := 10
  const LOW_STREAK: nat := 20
  const DWELL_NS: nat := 3_000_000_000

  datatype Sample = Sample(jitterMs: real, lossPercent: real, skipPercent: real, nowNs: uint64)

  // ----- configuration and derived limits -----

  type int32 = x: int | -0x8000_0000 <= x < 0x8000_0000

  datatype Config = Config(
    minDelayMs: int32, safetyFactor: real, smoothFactor: real,
    baseMaxWaitMs: int32, baseMaxFrames: uint64)
  {
    /** Tripling the base wait must not overflow a 32-bit int. */
    predicate WaitFits() {
      -0x8000_0000 <= baseMaxWaitMs * 3 < 0x8000_0000
    }
  }

  const DEFAULT_CONFIG := Config(2, 1.5, 2.5, 80, 8)

  datatype Limits = Limits(maxWaitMs: int, maxFrames: nat)

  function Max(a: int, b: int): int {
    if a < b then b else a
  }

  /** Integer division that truncates toward zero. */
  function TruncDiv(a: int, d: int): int
    requires d > 0
  {
    if a < 0 then -((-a) / d) else a / d
  }

  function LimitsFor(quality: Quality, config: Config): Limits {
    match quality
    case Excellent => Limits(Max(20, TruncDiv(config.baseMaxWaitMs, 4)), Max(2, config.baseMaxFrames / 4))
    case Good => Limits(TruncDiv(config.baseMaxWaitMs, 2), Max(4, config.baseMaxFrames / 2))
    case Fair => Limits(config.baseMaxWaitMs, config.baseMaxFrames)
    case Poor => Limits(config.baseMaxWaitMs * 3, (config.baseMaxFrames * 4) % TWO_TO_THE_64)
  }

  /** The limits by quality, as relations to the base: a Poor network is given three times
      the wait and four times the frames, modulo 2 to the 64, a Fair one the base itself, a
      Good one half of it and an Excellent one a quarter, truncated and with a minimum. */
  ghost predicate LimitsMean(quality: Quality, config: Config, limits: Limits) {
    var b, f, wait, frames := config.baseMaxWaitMs, config.baseMaxFrames, limits.maxWaitMs, limits.maxFrames;
    match quality
    case Poor =>
      wait == b + b + b && frames < 0x1_0000_0000_0000_0000 && (4 * f - frames) % 0x1_0000_0000_0000_0000 == 0
    case Fair => wait == b && frames == f
    case Good =>
      && (if 0 <= b then 0 <= b - 2 * wait < 2 else -2 < b - 2 * wait <= 0)
      && (if f < 8 then frames == 4 else 0 <= f - 2 * frames < 2)
    case Excellent =>
      && (if b < 80 then wait == 20 else 0 <= b - 4 * wait < 4)
      && (if f < 8 then frames == 2 else 0 <= f - 4 * frames < 4)
  }

  lemma LimitsByQuality(quality: Quality, config: Config, limits: Limits)
    ensures limits == LimitsFor(quality, config) <==> LimitsMean(quality, config, limits)
  {
    hide TruncDiv, Max;
    match quality {
      case Excellent =>
        QuarterOfWait(config.baseMaxWaitMs, limits.maxWaitMs);
        QuarterOfFrames(config.baseMaxFrames, limits.maxFrames);
      case Good =>
        HalfOfWait(config.baseMaxWaitMs, limits.maxWaitMs);
        HalfOfFrames(config.baseMaxFrames, limits.maxFrames);
      case Fair =>
      case Poor => FourfoldFrames(config.baseMaxFrames, limits.maxFrames);
    }
  }

  lemma QuarterOfWait(b: int, wait: int)
    ensures wait == Max(20, TruncDiv(b, 4)) <==> if b < 80 then wait == 20 else 0 <= b - 4 * wait < 4
  {
  }

  lemma HalfOfWait(b: int, wait: int)
    ensures wait == TruncDiv(b, 2) <==> if 0 <= b then 0 <= b - 2 * wait < 2 else -2 < b - 2 * wait <= 0
  {
  }

  lemma QuarterOfFrames(f: nat, frames: nat)
    ensures frames == Max(2, f / 4) <==> if f < 8 then frames == 2 else 0 <= f - 4 * frames < 4
  {
  }

  lemma HalfOfFrames(f: nat, frames: nat)
    ensures frames == Max(4, f / 2) <==> if f < 8 then frames == 4 else 0 <= f - 2 * frames < 2
  {
  }

  lemma FourfoldFrames(f: nat, frames: nat)
    ensures frames == (f * 4) % TWO_TO_THE_64
            <==> frames < 0x1_0000_0000_0000_0000 && (4 * f - frames) % 0x1_0000_0000_0000_0000 == 0
  {
  }

  // ----- the mode machine -----

  /** The active mode and the memory that delays its changes: two streak counters, a flag
      for one strike of a high p95, and when a low p95 was first seen (zero for never). */
  datatype Machine = Machine(mode: Mode, high: nat, low: nat, exceeded: bool, sinceNs: uint64) {
    predicate Bounded() {
      high < HIGH_STREAK && low < LOW_STREAK
    }
  }

  const IDLE := Machine(Bypass, 0, 0, false, 0)

  function Evaluate(m: Machine, p95: real, jitter: real, now: uint64): (r: Machine)
    ensures m.Bounded() ==> r.Bounded()
  {
    match m.mode
    case Bypass =>
      var high := if jitter > 1.0 then m.high + 1 else 0;
      if high >= HIGH_STREAK then m.(mode := LowLatency, high := 0, low := 0, exceeded := false)
      else m.(high := high)
    case LowLatency =>
      var low := if jitter < 0.5 then m.low + 1 else 0;
      if low >= LOW_STREAK then m.(mode := Bypass, high := 0, low := 0)
      else if p95 <= 10.0 then m.(low := low, exceeded := false)
      else if !m.exceeded then m.(low := low, exceeded := true)
      else m.(mode := Smooth, high := 0, low := 0, exceeded := false, sinceNs := 0)
    case Smooth =>
      if p95 >= 5.0 then m.(sinceNs := 0)
      else if m.sinceNs == 0 then m.(sinceNs := now)
      else if WrapSub(now, m.sinceNs) < DWELL_NS then m
      else m.(mode := LowLatency, high := 0, low := 0, exceeded := false, sinceNs := 0)
  }

  // ----- the controller state -----

  datatype Core = Core(machine: Machine, quality: Quality, auto: bool, window: Stats) {
    /** What holds between any two calls. */
    ghost predicate Inv() {
      && window.WellFormed()
      && window.capacity == WINDOW_SIZE && window.interval == REFRESH_INTERVAL
      && (window.seen.None? ==> window.history == [])
      && (window.seen.Some? ==> window.Lag() < REFRESH_INTERVAL)
      && machine.Bounded()
    }

    /** The p95 that a read returns now. */
    function P95(): real
      requires window.WellFormed()
    {
      window.Refresh(false).Shown().p95Ms
    }
  }

  const START := Core(IDLE, Excellent, true, Empty(WINDOW_SIZE, REFRESH_INTERVAL))

  function QualityOf(p95: real, loss: real, skip: real): Quality {
    if p95 > 50.0 || loss > 1.0 || skip > 5.0 then Poor
    else if p95 > 10.0 || loss > 0.1 || skip > 1.0 then Fair
    else if p95 > 1.0 || loss > 0.01 then Good
    else Excellent
  }

  /** Recording one sample: the window moves and is read once, the quality is graded, and
      from the tenth sample on an automatic controller may change mode. */
  function AfterSample(c: Core, s: Sample): Core
    requires c.window.WellFormed()
  {
    var window := c.window.Record(s.jitterMs).Refresh(false);
    var p95 := window.Shown().p95Ms;
    Core(if c.auto && |window.Window()| >= WARM_UP then Evaluate(c.machine, p95, s.jitterMs, s.nowNs) else c.machine,
         QualityOf(p95, s.lossPercent, s.skipPercent),
         c.auto,
         window)
  }

  function Peek(c: Core): Core
    requires c.window.WellFormed()
  {
    c.(window := c.window.Refresh(false))
  }

  function ResetCore(c: Core): Core {
    START.(auto := c.auto)
  }

  // ----- target delay -----

  function TargetMs(mode: Mode, p95: real, config: Config): real
  {
    var factor := if mode == LowLatency then config.safetyFactor else config.smoothFactor;
    if config.minDelayMs as real < p95 * factor then p95 * factor else config.minDelayMs as real
  }

  /** The conversion to a 64-bit unsigned integer has a defined result. */
  predicate DelayFits(mode: Mode, p95: real, config: Config) {
    mode != Bypass ==> -1.0 < TargetMs(mode, p95, config) * 1000000.0 < TWO_TO_THE_64 as real
  }

  function DelayNs(mode: Mode, p95: real, config: Config): uint64
    requires DelayFits(mode, p95, config)
  {
    if mode == Bypass then 0
    else
      var ns := TargetMs(mode, p95, config) * 1000000.0;
      if ns < 0.0 then 0 else ns.Floor
  }

  function AtLeast(least: real, x: real): real {
    if least < x then x else least
  }

  /** The delay in nanoseconds by mode: nothing in Bypass, else the greater of the minimum
      delay and the p95 times the factor of the mode, truncated. */
  lemma DelayByMode(mode: Mode, p95: real, config: Config)
    requires DelayFits(mode, p95, config)
    ensures var d, least := DelayNs(mode, p95, config) as real, config.minDelayMs as real;
            match mode
            case Bypass => d == 0.0
            case LowLatency => Truncates(d, 1000000.0 * AtLeast(least, p95 * config.safetyFactor))
            case Smooth => Truncates(d, 1000000.0 * AtLeast(least, p95 * config.smoothFactor))
  {
  }

  /** Truncation toward zero of a number above minus one. */
  predicate Truncates(d: real, x: real) {
    if x < 0.0 then d == 0.0 else d <= x < d + 1.0
  }

  // ----- calls -----

  datatype Call =
    | RecordJitter(sample: Sample)
    | ReadPercentile            // jitter_p95_ms and jitter_50_ms
    | ReadTargetDelay
    | SetFixedMode(mode: Mode)
    | EnableAutoMode
    | Configure(config: Config)
    | ResetAll

  predicate IsGetter(call: Call) {
    call.ReadPercentile? || call.ReadTargetDelay?
  }

  /** What each call does to the controller; the configuration plays no part in it. */
  function AfterCall(c: Core, call: Call): Core
    requires c.window.WellFormed()
  {
    match call
    case RecordJitter(s) => AfterSample(c, s)
    case ReadPercentile => Peek(c)
    case ReadTargetDelay => if c.machine.mode == Bypass then c else Peek(c)
    case SetFixedMode(mode) => c.(auto := false, machine := c.machine.(mode := mode))
    case EnableAutoMode => c.(auto := true)
    case Configure(_) => c
    case ResetAll => ResetCore(c)
  }

  lemma AfterCallKeepsInv(c: Core, call: Call)
    requires c.Inv()
    ensures AfterCall(c, call).Inv()
  {
    hide SummaryOfHistory;
  }

  // ----- the whole device -----

  datatype Device = Device(core: Core, config: Config, limits: Limits)

  function BaseLimits(config: Config): Limits {
    Limits(config.baseMaxWaitMs, config.baseMaxFrames)
  }

  function DeviceAfter(d: Device, call: Call): Device
    requires d.core.window.WellFormed()
  {
    var core := AfterCall(d.core, call);
    match call
    case RecordJitter(_) =>
      Device(core, d.config, if Evaluates(core) then LimitsFor(core.quality, d.config) else d.limits)
    case Configure(config) => Device(core, config, BaseLimits(config))
    case ResetAll => Device(core, d.config, BaseLimits(d.config))
    case _ => Device(core, d.config, d.limits)
  }

  /** A controller that has just recorded a sample has evaluated it, too. */
  predicate Evaluates(c: Core) {
    c.auto && |c.window.Window()| >= WARM_UP
  }

  lemma ResetYields(c: Core)
    requires c.window.WellFormed()
    ensures AfterCall(c, ResetAll) == Core(IDLE, Excellent, c.auto, Empty(WINDOW_SIZE, REFRESH_INTERVAL))
  {
    hide AfterSample, Stats.Refresh, Stats.Shown;
  }

  // ----- the class -----

  class AdaptiveJitterBuffer {
    var activeMode: Mode
    var networkQuality: Quality
    var autoMode: bool
    var window: LatencyStats
    var consecutiveHighJitter: int
    var consecutiveLowJitter: int
    var lowToSmoothP95Exceeded: bool
    var smoothLowP95SinceNs: uint64
    var config: Config
    var currentMaxWaitMs: int
    var currentMaxFrames: nat

    ghost predicate Valid()
      reads this, window, window.samplesMs
    {
      && window.Valid()
      && 0 <= consecutiveHighJitter && 0 <= consecutiveLowJitter
      && View().Inv()
    }

    ghost function Memory(): Machine
      requires 0 <= consecutiveHighJitter && 0 <= consecutiveLowJitter
      reads this
    {
      Machine(activeMode, consecutiveHighJitter, consecutiveLowJitter, lowToSmoothP95Exceeded, smoothLowP95SinceNs)
    }

    ghost function View(): Core
      requires 0 <= consecutiveHighJitter && 0 <= consecutiveLowJitter
      reads this, window
    {
      Core(Memory(), networkQuality, autoMode, window.Model())
    }

    ghost function Whole(): Device
      requires 0 <= consecutiveHighJitter && 0 <= consecutiveLowJitter
      reads this, window
    {
      Device(View(), config, Limits(currentMaxWaitMs, currentMaxFrames))
    }

    constructor ()
      ensures Valid() && Whole() == Device(START, DEFAULT_CONFIG, BaseLimits(DEFAULT_CONFIG))
      ensures config == Config(2, 1.5, 2.5, 80, 8) && currentMaxWaitMs == 80 && currentMaxFrames == 8
      ensures View() == Core(Machine(Bypass, 0, 0, false, 0), Excellent, true, Stats(100, 4, [], None))
      ensures fresh(window) && fresh(window.samplesMs)
    {
      activeMode := Bypass;
      networkQuality := Excellent;
      autoMode := true;
      window := new LatencyStats(100, 4);
      consecutiveHighJitter := 0;
      consecutiveLowJitter := 0;
      lowToSmoothP95Exceeded := false;
      smoothLowP95SinceNs := 0;
      config := DEFAULT_CONFIG;
      currentMaxWaitMs := 80;
      currentMaxFrames := 8;
    }

    method Configure(config: Config)
      requires Valid()
      modifies this`config, this`currentMaxWaitMs, this`currentMaxFrames
      ensures Valid() && Whole() == DeviceAfter(old(Whole()), Call.Configure(config))
      ensures View() == old(View()) && this.config == config
      ensures currentMaxWaitMs == config.baseMaxWaitMs && currentMaxFrames == config.baseMaxFrames
    {
      hide SummaryOfHistory, LatencyStats.Valid, AfterSample, Stats.Shown, Stats.Refresh;
      this.config := config;
      currentMaxWaitMs := config.baseMaxWaitMs;
      currentMaxFrames := config.baseMaxFrames;
    }

    method RecordJitter(jitterMs: real, fragmentLossPercent: real, skipRatePercent: real, nowNs: uint64)
      requires Valid()
      requires var c := AfterSample(View(), Sample(jitterMs, fragmentLossPercent, skipRatePercent, nowNs));
               Evaluates(c) && c.quality == Poor ==> config.WaitFits()
      modifies this, window, window.samplesMs
      ensures Valid() && window == old(window)
      ensures Whole() == DeviceAfter(old(Whole()), Call.RecordJitter(
                Sample(jitterMs, fragmentLossPercent, skipRatePercent, nowNs)))
    {
      hide SummaryOfHistory, LatencyStats.Valid, LimitsMean;
      window.Record(jitterMs);
      AssessNetworkQuality(jitterMs, fragmentLossPercent, skipRatePercent);
      var count := window.SampleCount();
      if autoMode && count >= 10 {
        EvaluateStateTransition(jitterMs, nowNs);
        ApplyQualityParams();
      }
    }

    method AssessNetworkQuality(jitterMs: real, lossPercent: real, skipPercent: real)
      requires window.Valid()
      modifies this`networkQuality, window
      ensures window.Valid()
      ensures window.Model() == old(window.Model()).Refresh(false)
      ensures networkQuality == QualityOf(window.Model().Shown().p95Ms, lossPercent, skipPercent)
    {
      hide SummaryOfHistory, LatencyStats.Valid;
      var summary := window.Snapshot();
      var p95 := summary.p95Ms;
      if p95 > 50.0 || lossPercent > 1.0 || skipPercent > 5.0 {
        networkQuality := Poor;
      } else if p95 > 10.0 || lossPercent > 0.1 || skipPercent > 1.0 {
        networkQuality := Fair;
      } else if p95 > 1.0 || lossPercent > 0.01 {
        networkQuality := Good;
      } else {
        networkQuality := Excellent;
      }
    }

    method ApplyQualityParams()
      requires networkQuality == Poor ==> config.WaitFits()
      modifies this`currentMaxWaitMs, this`currentMaxFrames
      ensures Limits(currentMaxWaitMs, currentMaxFrames) == LimitsFor(networkQuality, config)
      ensures LimitsMean(networkQuality, config, Limits(currentMaxWaitMs, currentMaxFrames))
    {
      match networkQuality {
        case Excellent =>
          currentMaxWaitMs := Max(20, TruncDiv(config.baseMaxWaitMs, 4));
          currentMaxFrames := Max(2, config.baseMaxFrames / 4);
        case Good =>
          currentMaxWaitMs := TruncDiv(config.baseMaxWaitMs, 2);
          currentMaxFrames := Max(4, config.baseMaxFrames / 2);
        case Fair =>
          currentMaxWaitMs := config.baseMaxWaitMs;
          currentMaxFrames := config.baseMaxFrames;
        case Poor =>
          currentMaxWaitMs := config.baseMaxWaitMs * 3;
          currentMaxFrames := (config.baseMaxFrames * 4) % TWO_TO_THE_64;
      }
      LimitsByQuality(networkQuality, config, Limits(currentMaxWaitMs, currentMaxFrames));
    }

    /** Its own read of the p95 finds the summary that grading has just refreshed. */
    method EvaluateStateTransition(jitterMs: real, nowNs: uint64)
      requires Valid()
      modifies this`activeMode, this`consecutiveHighJitter, this`consecutiveLowJitter,
               this`lowToSmoothP95Exceeded, this`smoothLowP95SinceNs, window
      ensures Valid()
      ensures View() == Peek(old(View())).(
                machine := Evaluate(old(View()).machine, old(View()).P95(), jitterMs, nowNs))
    {
      hide SummaryOfHistory, LatencyStats.Valid, Stats.Shown, Stats.Refresh, Evaluate;
      var summary := window.Snapshot();
      var p95 := summary.p95Ms;
      match activeMode {
        case Bypass => EvaluateInBypass(p95, jitterMs, nowNs);
        case LowLatency => EvaluateInLowLatency(p95, jitterMs, nowNs);
        case Smooth => EvaluateInSmooth(p95, jitterMs, nowNs);
      }
    }

    method EvaluateInBypass(ghost p95: real, jitterMs: real, ghost nowNs: uint64)
      requires activeMode == Bypass && 0 <= consecutiveHighJitter && 0 <= consecutiveLowJitter
      modifies this`activeMode, this`consecutiveHighJitter, this`consecutiveLowJitter, this`lowToSmoothP95Exceeded
      ensures 0 <= consecutiveHighJitter && 0 <= consecutiveLowJitter
      ensures Memory() == Evaluate(old(Memory()), p95, jitterMs, nowNs)
    {
      if jitterMs > 1.0 {
        consecutiveHighJitter := consecutiveHighJitter + 1;
      } else {
        consecutiveHighJitter := 0;
      }
      if consecutiveHighJitter >= 10 {
        activeMode := LowLatency;
        consecutiveLowJitter := 0;
        consecutiveHighJitter := 0;
        lowToSmoothP95Exceeded := false;
      }
    }

    method EvaluateInLowLatency(p95: real, jitterMs: real, ghost nowNs: uint64)
      requires activeMode == LowLatency && 0 <= consecutiveHighJitter && 0 <= consecutiveLowJitter
      modifies this`activeMode, this`consecutiveHighJitter, this`consecutiveLowJitter,
               this`lowToSmoothP95Exceeded, this`smoothLowP95SinceNs
      ensures 0 <= consecutiveHighJitter && 0 <= consecutiveLowJitter
      ensures Memory() == Evaluate(old(Memory()), p95, jitterMs, nowNs)
    {
      if jitterMs < 0.5 {
        consecutiveLowJitter := consecutiveLowJitter + 1;
      } else {
        consecutiveLowJitter := 0;
      }
      if consecutiveLowJitter >= 20 {
        activeMode := Bypass;
        consecutiveLowJitter := 0;
        consecutiveHighJitter := 0;
        return;
      }
      if p95 > 10.0 {
        if !lowToSmoothP95Exceeded {
          lowToSmoothP95Exceeded := true;
        } else {
          activeMode := Smooth;
          consecutiveLowJitter := 0;
          consecutiveHighJitter := 0;
          lowToSmoothP95Exceeded := false;
          smoothLowP95SinceNs := 0;
        }
      } else {
        lowToSmoothP95Exceeded := false;
      }
    }

    method EvaluateInSmooth(p95: real, ghost jitterMs: real, nowNs: uint64)
      requires activeMode == Smooth && 0 <= consecutiveHighJitter && 0 <= consecutiveLowJitter
      modifies this`activeMode, this`consecutiveHighJitter, this`consecutiveLowJitter,
               this`lowToSmoothP95Exceeded, this`smoothLowP95SinceNs
      ensures 0 <= consecutiveHighJitter && 0 <= consecutiveLowJitter
      ensures Memory() == Evaluate(old(Memory()), p95, jitterMs, nowNs)
    {
      if p95 < 5.0 {
        if smoothLowP95SinceNs == 0 {
          smoothLowP95SinceNs := nowNs;
        } else if WrapSub(nowNs, smoothLowP95SinceNs) >= 3_000_000_000 {
          activeMode := LowLatency;
          consecutiveLowJitter := 0;
          consecutiveHighJitter := 0;
          lowToSmoothP95Exceeded := false;
          smoothLowP95SinceNs := 0;
        }
      } else {
        smoothLowP95SinceNs := 0;
      }
    }

    /** Reading the p95 can refresh the window's cache. */
    method JitterP95Ms() returns (p95: real)
      requires Valid()
      modifies window
      ensures Valid() && Whole() == DeviceAfter(old(Whole()), ReadPercentile)
      ensures p95 == old(View()).P95()
    {
      hide SummaryOfHistory, LatencyStats.Valid;
      var summary := window.Snapshot();
      p95 := summary.p95Ms;
    }

    method JitterP50Ms() returns (p50: real)
      requires Valid()
      modifies window
      ensures Valid() && Whole() == DeviceAfter(old(Whole()), ReadPercentile)
      ensures p50 == View().window.Shown().p50Ms
    {
      hide SummaryOfHistory, LatencyStats.Valid;
      var summary := window.Snapshot();
      p50 := summary.p50Ms;
    }

    method TargetDelayNs() returns (delay: uint64)
      requires Valid() && DelayFits(activeMode, View().P95(), config)
      modifies window
      ensures Valid() && Whole() == DeviceAfter(old(Whole()), ReadTargetDelay)
      ensures delay == DelayNs(activeMode, old(View()).P95(), config)
    {
      hide SummaryOfHistory, LatencyStats.Valid;
      if activeMode == Bypass {
        return 0;
      }
      var summary := window.Snapshot();
      var p95 := summary.p95Ms;
      var factor := if activeMode == LowLatency then config.safetyFactor else config.smoothFactor;
      var target := if config.minDelayMs as real < p95 * factor then p95 * factor else config.minDelayMs as real;
      delay := if target * 1000000.0 < 0.0 then 0 else (target * 1000000.0).Floor;
    }

    method SetFixedMode(mode: Mode)
      requires Valid()
      modifies this`autoMode, this`activeMode
      ensures Valid() && Whole() == DeviceAfter(old(Whole()), Call.SetFixedMode(mode))
      ensures activeMode == mode && !autoMode
    {
      autoMode := false;
      activeMode := mode;
    }

    method EnableAutoMode()
      requires Valid()
      modifies this`autoMode
      ensures Valid() && Whole() == DeviceAfter(old(Whole()), Call.EnableAutoMode)
      ensures autoMode
    {
      autoMode := true;
    }

    /** The automatic flag is the one thing a reset keeps, beside the configuration. */
    method Reset()
      requires Valid()
      modifies this
      ensures Valid() && fresh(window) && fresh(window.samplesMs)
      ensures Whole() == DeviceAfter(old(Whole()), ResetAll)
      ensures config == old(config)
      ensures currentMaxWaitMs == config.baseMaxWaitMs && currentMaxFrames == config.baseMaxFrames
      ensures View() == Core(Machine(Bypass, 0, 0, false, 0), Excellent, old(autoMode), Stats(100, 4, [], None))
    {
      hide SummaryOfHistory, LatencyStats.Valid, AfterCall, Stats.Shown, Stats.Refresh, Stats.Lag;
      ResetYields(View());
      window := new LatencyStats(100, 4);
      activeMode := Bypass;
      networkQuality := Excellent;
      consecutiveLowJitter := 0;
      consecutiveHighJitter := 0;
      lowToSmoothP95Exceeded := false;
      smoothLowP95SinceNs := 0;
      currentMaxWaitMs := config.baseMaxWaitMs;
      currentMaxFrames := config.baseMaxFrames;
    }
  }
}
