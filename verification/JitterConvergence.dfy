/** On a calm network an automatic controller returns to Bypass and stays there, whatever
    happened before. */
module JitterConvergence {
  import opened Common
  import opened Samples
  import opened LatencyStatistics
  import opened JitterBuffer
  import opened JitterRuns

  ghost predicate Calm(xs: seq<Sample>) {
    forall i :: 0 <= i < |xs| ==> xs[i].jitterMs < 0.5
  }

  /** The timer was started no later than the first sample to come. */
  ghost predicate TimerBefore(c: Core, xs: seq<Sample>) {
    xs != [] ==> c.machine.sinceNs <= xs[0].nowNs
  }

  // ----- the window forgets -----

  lemma LatestOfSuffix(h: seq<real>, earlier: seq<real>, later: seq<real>, k: nat)
    requires h <= earlier + later && |earlier| + k <= |h|
    ensures forall x :: x in Latest(h, k) ==> x in later
  {
  }

  /** From the 103rd calm sample on, the p95 in use is below 0.5 ms: a hundred samples
      fill the window and the cached summary misses at most three. */
  lemma P95Settles(c: Core, xs: seq<Sample>, n: nat)
    requires c.Inv() && Calm(xs) && 103 <= n <= |xs|
    ensures Run(c, xs, n).window.seen.Some?
    ensures Run(c, xs, n).window.Shown().p95Ms < 0.5
  {
    hide AfterSample;
    RunHistory(c, xs, n);
    var window := Run(c, xs, n).window;
    var later, seen := Jitters(xs, n), window.seen.value;
    LatestOfSuffix(seen, c.window.history, later, WINDOW_SIZE);
    forall x | x in later ensures x < 0.5 {
      var i :| 0 <= i < |later| && later[i] == x;
      JittersAt(xs, n, i);
    }
    var w := Latest(seen, WINDOW_SIZE);
    P95Within(w, LastOf(seen));
  }

  // ----- one calm step -----

  /** With a p95 below 0.5 ms no step climbs, and LowLatency counts toward Bypass. */
  lemma CalmStep(m: Machine, p95: real, jitter: real, now: uint64)
    requires m.Bounded() && p95 < 0.5 && jitter < 0.5
    ensures var r := Evaluate(m, p95, jitter, now);
            && (m.mode == Bypass ==> r.mode == Bypass)
            && (m.mode == LowLatency ==> r.mode == Bypass || (r.mode == LowLatency && r.low == m.low + 1))
            && (m.mode == Smooth && r.mode == Smooth ==>
                  r.sinceNs == (if m.sinceNs == 0 then now else m.sinceNs)
                  && (m.sinceNs != 0 ==> WrapSub(now, m.sinceNs) < DWELL_NS))
            && (m.mode == Smooth && r.mode != Smooth ==> r.mode == LowLatency)
  {
  }

  lemma StepOf(c: Core, xs: seq<Sample>, n: nat) returns (p95: real)
    requires c.Inv() && c.auto && 103 <= n <= |xs| && Calm(xs)
    ensures p95 < 0.5
    ensures Run(c, xs, n).machine ==
              Evaluate(Run(c, xs, n - 1).machine, p95, xs[n - 1].jitterMs, xs[n - 1].nowNs)
    ensures Run(c, xs, n - 1).machine.Bounded()
  {
    hide SummaryOfHistory, Evaluate, QualityOf;
    P95Settles(c, xs, n);
    RunHistory(c, xs, n);
    p95 := Run(c, xs, n).window.Shown().p95Ms;
    assert |Run(c, xs, n).window.history| >= n;
  }

  // ----- the timer -----

  lemma TimerStep(m: Machine, p95: real, jitter: real, now: uint64)
    ensures Evaluate(m, p95, jitter, now).sinceNs in {0, m.sinceNs, now}
  {
  }

  lemma {:induction false} TimerIsPast(c: Core, xs: seq<Sample>, n: nat)
    requires c.Inv() && 0 < n <= |xs| && NondecreasingSamples(xs) && TimerBefore(c, xs)
    ensures Run(c, xs, n).machine.sinceNs <= xs[n - 1].nowNs
  {
    hide SummaryOfHistory, Evaluate, QualityOf;
    if n > 1 {
      TimerIsPast(c, xs, n - 1);
      assert xs[n - 2].nowNs <= xs[n - 1].nowNs;
    }
    var p95 := Run(c, xs, n).window.Shown().p95Ms;
    TimerStep(Run(c, xs, n - 1).machine, p95, xs[n - 1].jitterMs, xs[n - 1].nowNs);
  }

  /** If Smooth still lasts, its timer has been running since the 103rd sample or longer. */
  lemma {:induction false} TimerRuns(c: Core, xs: seq<Sample>, n: nat)
    requires c.Inv() && c.auto && 103 <= n <= |xs| && Calm(xs) && ClockedSamples(xs) && TimerBefore(c, xs)
    ensures var m := Run(c, xs, n).machine;
            m.mode == Smooth ==> 0 < m.sinceNs <= xs[102].nowNs
  {
    hide AfterSample, Evaluate;
    var p95 := StepOf(c, xs, n);
    CalmStep(Run(c, xs, n - 1).machine, p95, xs[n - 1].jitterMs, xs[n - 1].nowNs);
    if n == 103 {
      TimerIsPast(c, xs, 103);
    } else {
      TimerRuns(c, xs, n - 1);
    }
  }

  /** Three seconds after the 103rd sample Smooth is over. */
  lemma SmoothIsOver(c: Core, xs: seq<Sample>, m: nat)
    requires c.Inv() && c.auto && 103 <= m <= |xs| && Calm(xs) && ClockedSamples(xs) && TimerBefore(c, xs)
    requires xs[m - 1].nowNs - xs[102].nowNs >= 3_000_000_000
    ensures Run(c, xs, m).machine.mode != Smooth
  {
    hide AfterSample, Evaluate;
    var p95 := StepOf(c, xs, m);
    TimerRuns(c, xs, m - 1);
    CalmStep(Run(c, xs, m - 1).machine, p95, xs[m - 1].jitterMs, xs[m - 1].nowNs);
  }

  /** After Smooth is over, LowLatency counts calm samples until Bypass. */
  lemma {:induction false} LowLatencyEnds(c: Core, xs: seq<Sample>, m: nat, n: nat)
    requires c.Inv() && c.auto && 103 <= m <= n <= |xs| && Calm(xs)
    requires Run(c, xs, m).machine.mode != Smooth
    ensures var r := Run(c, xs, n).machine;
            r.mode == Bypass || (r.mode == LowLatency && n - m <= r.low)
  {
    hide AfterSample, Evaluate;
    if m < n {
      LowLatencyEnds(c, xs, m, n - 1);
      var p95 := StepOf(c, xs, n);
      CalmStep(Run(c, xs, n - 1).machine, p95, xs[n - 1].jitterMs, xs[n - 1].nowNs);
    }
  }

  /** Convergence from any state: once a calm stream has run three seconds past its 103rd
      sample, the mode is Bypass twenty samples later and at every sample after that. */
  lemma CalmStreamConverges(c: Core, xs: seq<Sample>, m: nat, n: nat)
    requires c.Inv() && c.auto && Calm(xs) && ClockedSamples(xs) && TimerBefore(c, xs)
    requires 103 <= m && m + 20 <= n <= |xs|
    requires xs[m - 1].nowNs - xs[102].nowNs >= 3_000_000_000
    ensures Run(c, xs, n).machine.mode == Bypass
  {
    hide AfterSample, Evaluate;
    SmoothIsOver(c, xs, m);
    LowLatencyEnds(c, xs, m, n);
  }

  // ----- every reachable state qualifies -----

  lemma {:induction false} ReachableTimer(calls: seq<Call>, n: nat, bound: uint64)
    requires n <= |calls|
    requires forall i :: 0 <= i < n && calls[i].RecordJitter? ==> calls[i].sample.nowNs <= bound
    ensures Exec(START, calls, n).machine.sinceNs <= bound
  {
    hide SummaryOfHistory, Evaluate, QualityOf;
    if n > 0 {
      ReachableTimer(calls, n - 1, bound);
      var before, call := Exec(START, calls, n - 1), calls[n - 1];
      if call.RecordJitter? {
        var s := call.sample;
        TimerStep(before.machine, AfterSample(before, s).window.Shown().p95Ms, s.jitterMs, s.nowNs);
      }
    }
  }

  /** After any calls whatever, including fixed modes and resets, as long as automatic mode
      is on again and the clock has not run backwards. */
  lemma ConvergesFromAnywhere(calls: seq<Call>, xs: seq<Sample>, m: nat, n: nat)
    requires Exec(START, calls, |calls|).auto
    requires Calm(xs) && ClockedSamples(xs)
    requires forall i :: 0 <= i < |calls| && calls[i].RecordJitter? && xs != [] ==> calls[i].sample.nowNs <= xs[0].nowNs
    requires 103 <= m && m + 20 <= n <= |xs|
    requires xs[m - 1].nowNs - xs[102].nowNs >= 3_000_000_000
    ensures Run(Exec(START, calls, |calls|), xs, n).machine.mode == Bypass
  {
    hide AfterSample, AfterCall, Evaluate;
    ReachableTimer(calls, |calls|, xs[0].nowNs);
    CalmStreamConverges(Exec(START, calls, |calls|), xs, m, n);
  }

  // ----- a clock that steps back -----

  lemma {:induction false} StandingClockKeepsSmooth(c: Core, xs: seq<Sample>, t: uint64, n: nat)
    requires c.Inv() && c.auto && n <= |xs| && forall s :: s in xs ==> s.nowNs == t
    requires c.machine.mode == Smooth && c.machine.sinceNs in {0, t}
    ensures Run(c, xs, n).machine.mode == Smooth && Run(c, xs, n).machine.sinceNs in {0, t}
  {
    hide SummaryOfHistory, QualityOf;
    if n > 0 {
      StandingClockKeepsSmooth(c, xs, t, n - 1);
      assert xs[n - 1] in xs;
    }
  }

  /** Escalation, then calm, all at one instant; and a last calm sample, one nanosecond
      earlier. */
  function SteppingBack(t: uint64): seq<Sample>
    requires 0 < t
  {
    Repeat(Sample(20.0, 0.0, 0.0, t), 21) + (Repeat(Sample(0.0, 0.0, 0.0, t), 103) + [Sample(0.0, 0.0, 0.0, t - 1)])
  }

  /** This stream leaves Smooth with its last sample, after no time at all. */
  lemma BackwardClockEndsDwell(t: uint64)
    requires 0 < t
    ensures Run(Origin(false), SteppingBack(t), 124).machine.mode == Smooth
    ensures Run(Origin(false), SteppingBack(t), 125).machine.mode == LowLatency
  {
    hide Run;
    var up, calm := Repeat(Sample(20.0, 0.0, 0.0, t), 21), Repeat(Sample(0.0, 0.0, 0.0, t), 103);
    var down := calm + [Sample(0.0, 0.0, 0.0, t - 1)];
    EscalationIsExact(up, false, 21);
    var c := Run(Origin(false), up, 21);
    RunAppend(Origin(false), up, down, 103);
    RunAppend(Origin(false), up, down, 104);
    RunPrefix(c, calm, [Sample(0.0, 0.0, 0.0, t - 1)], 103);
    StandingClockKeepsSmooth(c, calm, t, 103);
    TimerRuns(c, calm, 103);
    var p95 := StepOf(c, down, 104);
  }
}
