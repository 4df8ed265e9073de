/** Whole runs of the jitter buffer: which p95 each record uses, why reading the buffer is
    harmless, and what the theorems about the mode machine say about sample streams. */
module JitterRuns {
  import opened Common
  import opened Samples
  import opened LatencyStatistics
  import opened JitterBuffer
  import opened ModeHistory

  /** The controller after the first `n` samples of a stream. */
  ghost function Run(c: Core, xs: seq<Sample>, n: nat): (r: Core)
    requires c.Inv() && n <= |xs|
    ensures r.Inv() && r.auto == c.auto
  {
    if n == 0 then c
    else
      AfterCallKeepsInv(Run(c, xs, n - 1), RecordJitter(xs[n - 1]));
      AfterSample(Run(c, xs, n - 1), xs[n - 1])
  }

  /** The controller after the first `n` of some calls. */
  ghost function Exec(c: Core, calls: seq<Call>, n: nat): (r: Core)
    requires c.Inv() && n <= |calls|
    ensures r.Inv()
  {
    if n == 0 then c
    else
      AfterCallKeepsInv(Exec(c, calls, n - 1), calls[n - 1]);
      AfterCall(Exec(c, calls, n - 1), calls[n - 1])
  }

  /** The first `n` jitter values of a stream. */
  function Jitters(xs: seq<Sample>, n: nat): (r: seq<real>)
    requires n <= |xs|
    ensures |r| == n
  {
    if n == 0 then [] else Jitters(xs, n - 1) + [xs[n - 1].jitterMs]
  }

  lemma {:induction false} JittersAt(xs: seq<Sample>, n: nat, i: nat)
    requires i < n <= |xs|
    ensures Jitters(xs, n)[i] == xs[i].jitterMs
  {
    if i < n - 1 {
      JittersAt(xs, n - 1, i);
    }
  }

  // ----- the refresh schedule -----

  /** A fresh automatic controller, whose p95 may have been read while it was empty. */
  ghost function Origin(primed: bool): (c: Core)
    ensures c.Inv() && c.auto
  {
    Core(IDLE, Excellent, true,
         Stats(WINDOW_SIZE, REFRESH_INTERVAL, [], if primed then Some([]) else None))
  }

  lemma OriginIsReached(c: Core)
    requires c.Inv() && c.auto
    ensures Origin(false) == START && AfterCall(c, ResetAll) == Origin(false)
    ensures forall primed :: Origin(primed).Inv() && AfterCall(Origin(primed), ReadPercentile) == Origin(true)
    ensures forall primed :: AfterCall(Origin(primed), ReadTargetDelay) == Origin(primed)
  {
  }

  /** How many samples the p95 covers that the `n`th record works with. */
  function RefreshedAt(primed: bool, n: nat): nat {
    if primed then 4 * (n / 4) else if n == 0 then 0 else 4 * ((n - 1) / 4) + 1
  }

  /** The p95 of the last hundred samples as of the latest refresh. */
  function UsedP95(xs: seq<Sample>, primed: bool, n: nat): real
    requires n <= |xs|
  {
    SummaryOfHistory(Jitters(xs, RefreshedAt(primed, n)), 100).p95Ms
  }

  /** Records 1, 5, 9, ... refresh the p95; a read of the empty window shifts that to
      records 4, 8, 12, ...  Both grading and mode changes work with that value. */
  lemma {:induction false} RefreshSchedule(xs: seq<Sample>, primed: bool, n: nat)
    requires 0 < n <= |xs|
    ensures var c := Run(Origin(primed), xs, n);
            && c.window.history == Jitters(xs, n)
            && c.window.seen == Some(Jitters(xs, RefreshedAt(primed, n)))
            && c.P95() == UsedP95(xs, primed, n)
            && c.quality == QualityOf(UsedP95(xs, primed, n), xs[n - 1].lossPercent, xs[n - 1].skipPercent)
            && c.machine ==
                 var before := Run(Origin(primed), xs, n - 1).machine;
                 if n < 10 then before
                 else Evaluate(before, UsedP95(xs, primed, n), xs[n - 1].jitterMs, xs[n - 1].nowNs)
  {
    hide SummaryOfHistory, Evaluate, QualityOf, RefreshedAt;
    var before := Run(Origin(primed), xs, n - 1);
    ScheduleStep(primed, n);
    if n == 1 {
      assert before == Origin(primed);
    } else {
      RefreshSchedule(xs, primed, n - 1);
    }
    assert before.window.history == Jitters(xs, n - 1);
    assert before.window.Record(xs[n - 1].jitterMs).history == Jitters(xs, n);
  }

  /** A refresh happens when four samples are missing from the cached summary. */
  lemma ScheduleStep(primed: bool, n: nat)
    requires 0 < n
    ensures primed || n > 1 ==>
              RefreshedAt(primed, n) == if n - RefreshedAt(primed, n - 1) < 4 then RefreshedAt(primed, n - 1) else n
    ensures !primed && n == 1 ==> RefreshedAt(primed, n) == 1
    ensures primed && n == 1 ==> RefreshedAt(primed, 0) == RefreshedAt(primed, 1) == 0
    ensures RefreshedAt(primed, n) <= n && RefreshedAt(primed, n - 1) <= n - 1
  {
  }

  /** The samples behind the p95 that the `n`th record works with: the hundred up to the
      latest refresh, or all of them before there are so many. */
  function UsedJitters(xs: seq<Sample>, primed: bool, n: nat): (r: seq<real>)
    requires n <= |xs|
  {
    var m := RefreshedAt(primed, n);
    var first := if m < 100 then 0 else m - 100;
    seq(m - first, i requires 0 <= i < m - first => xs[first + i].jitterMs)
  }

  /** The p95 in use is the 95th percentile of those samples: in ascending order, it stands
      95 hundredths of the way from the first to the last. */
  lemma UsedP95ByRank(xs: seq<Sample>, primed: bool, n: nat, ascending: seq<real>)
    requires 0 < n <= |xs| && Sorted(ascending)
    requires multiset(ascending) == multiset(UsedJitters(xs, primed, n))
    ensures var p95 := Run(Origin(primed), xs, n).P95();
            if ascending == [] then primed && n < 4 && p95 == 0.0
            else StandsAt(ascending, 95 * (|ascending| - 1), p95)
  {
    hide SummaryOf, StandsAt, Run, Core.P95;
    RefreshSchedule(xs, primed, n);
    var m := RefreshedAt(primed, n);
    var used, h := UsedJitters(xs, primed, n), Jitters(xs, m);
    UsedIsLatest(xs, primed, n);
    SameLength(ascending, used);
    if used == [] {
      SummaryOfNothing(LastOf(h));
    } else {
      SummaryByRank(used, LastOf(h), ascending);
    }
  }

  lemma UsedIsLatest(xs: seq<Sample>, primed: bool, n: nat)
    requires n <= |xs|
    ensures UsedJitters(xs, primed, n) == Latest(Jitters(xs, RefreshedAt(primed, n)), 100)
  {
    hide Jitters;
    var m := RefreshedAt(primed, n);
    forall i | 0 <= i < m ensures Jitters(xs, m)[i] == xs[i].jitterMs {
      JittersAt(xs, m, i);
    }
  }

  /** The order of calls matters only here: the same first sample is graded with its own
      p95, or with the empty one read before it. */
  lemma EarlyReadChangesGrade(now: uint64)
    ensures var xs := [Sample(20.0, 0.0, 0.0, now)];
            Run(Origin(false), xs, 1).quality == Fair && Run(Origin(true), xs, 1).quality == Excellent
  {
    hide SummaryOfHistory;
    var xs := [Sample(20.0, 0.0, 0.0, now)];
    RefreshSchedule(xs, false, 1);
    RefreshSchedule(xs, true, 1);
    assert Jitters(xs, 0) == [];
    assert Jitters(xs, 1) == [20.0] by { JittersAt(xs, 1, 0); }
    SmallestWindows(20.0);
  }

  lemma SmallestWindows(x: real)
    ensures SummaryOfHistory([], WINDOW_SIZE).p95Ms == 0.0
    ensures SummaryOfHistory([x], WINDOW_SIZE).p95Ms == x
  {
    P95Within([x], x);
  }

  // ----- reading changes nothing -----

  /** A getter leaves the controller unchanged exactly when a sample has been recorded, the
      empty window has been read already, or it is the target delay in Bypass. */
  lemma GettersAreTransparent(c: Core, call: Call)
    requires c.Inv() && IsGetter(call)
    ensures AfterCall(c, call) == c
            <==> c.window.history != [] || c.window.seen.Some?
                 || (call == ReadTargetDelay && c.machine.mode == Bypass)
  {
    hide SummaryOfHistory;
  }

  /** The first `n` calls without the getters among them. */
  function WithoutGetters(calls: seq<Call>, n: nat): seq<Call>
    requires n <= |calls|
  {
    if n == 0 then []
    else if IsGetter(calls[n - 1]) then WithoutGetters(calls, n - 1)
    else WithoutGetters(calls, n - 1) + [calls[n - 1]]
  }

  lemma {:induction false} ExecPrefix(c: Core, calls: seq<Call>, more: seq<Call>, n: nat)
    requires c.Inv() && n <= |calls|
    ensures Exec(c, calls + more, n) == Exec(c, calls, n)
  {
    hide AfterCall, SummaryOfHistory;
    if n > 0 {
      ExecPrefix(c, calls, more, n - 1);
    }
  }

  lemma HistoryRemains(c: Core, call: Call)
    requires c.Inv() && c.window.history != [] && call != ResetAll
    ensures AfterCall(c, call).window.history != []
  {
  }

  /** Getter calls can be inserted anywhere after the first sample, up to the next reset,
      without any effect on what follows. */
  lemma {:induction false} ObserversAreTransparent(c: Core, calls: seq<Call>, n: nat)
    requires c.Inv() && c.window.history != [] && n <= |calls| && ResetAll !in calls
    ensures var plain := WithoutGetters(calls, n);
            Exec(c, calls, n) == Exec(c, plain, |plain|) && Exec(c, calls, n).window.history != []
  {
    hide AfterCall, SummaryOfHistory;
    if n == 0 {
    } else {
      ObserversAreTransparent(c, calls, n - 1);
      var before, call := Exec(c, calls, n - 1), calls[n - 1];
      HistoryRemains(before, call);
      if IsGetter(call) {
        GettersAreTransparent(before, call);
      } else {
        var plain := WithoutGetters(calls, n - 1);
        ExecPrefix(c, plain, [call], |plain|);
      }
    }
  }

  // ----- automatic segments -----

  /** The calls of an automatic segment: no reset and no fixed mode. */
  predicate KeepsAuto(call: Call) {
    !call.ResetAll? && !call.SetFixedMode?
  }

  /** The samples among the first `n` calls. */
  function SamplesOf(calls: seq<Call>, n: nat): seq<Sample>
    requires n <= |calls|
  {
    if n == 0 then []
    else if calls[n - 1].RecordJitter? then SamplesOf(calls, n - 1) + [calls[n - 1].sample]
    else SamplesOf(calls, n - 1)
  }

  /** Whether a percentile was read before the first sample. */
  function PrimedBy(calls: seq<Call>, n: nat): bool
    requires n <= |calls|
  {
    n != 0 && (PrimedBy(calls, n - 1) || (calls[n - 1] == ReadPercentile && SamplesOf(calls, n - 1) == []))
  }

  lemma {:induction false} RunPrefix(c: Core, xs: seq<Sample>, more: seq<Sample>, n: nat)
    requires c.Inv() && n <= |xs|
    ensures Run(c, xs + more, n) == Run(c, xs, n)
  {
    hide AfterSample, SummaryOfHistory;
    if n > 0 {
      RunPrefix(c, xs, more, n - 1);
    }
  }

  /** A segment of any calls since construction or reset is a plain stream of samples, so
      the theorems about streams cover it. */
  lemma {:induction false} SegmentIsStream(calls: seq<Call>, n: nat)
    requires n <= |calls| && forall i :: 0 <= i < |calls| ==> KeepsAuto(calls[i])
    ensures var xs := SamplesOf(calls, n);
            Exec(START, calls, n) == Run(Origin(PrimedBy(calls, n)), xs, |xs|)
  {
    hide AfterCall, SummaryOfHistory;
    if n == 0 {
      OriginIsReached(START);
    } else {
      SegmentIsStream(calls, n - 1);
      StreamStep(SamplesOf(calls, n - 1), PrimedBy(calls, n - 1), calls[n - 1]);
    }
  }

  lemma StreamStep(xs: seq<Sample>, primed: bool, call: Call)
    requires KeepsAuto(call)
    ensures call.RecordJitter? ==>
              AfterCall(Run(Origin(primed), xs, |xs|), call) == Run(Origin(primed), xs + [call.sample], |xs| + 1)
    ensures !call.RecordJitter? ==>
              AfterCall(Run(Origin(primed), xs, |xs|), call)
              == Run(Origin(primed || (call == ReadPercentile && xs == [])), xs, |xs|)
  {
    hide AfterSample, SummaryOfHistory;
    if call.RecordJitter? {
      RunPrefix(Origin(primed), xs, [call.sample], |xs|);
    } else if xs == [] {
      OriginIsReached(START);
    } else {
      RefreshSchedule(xs, primed, |xs|);
      if IsGetter(call) {
        GettersAreTransparent(Run(Origin(primed), xs, |xs|), call);
      }
    }
  }

  // ----- streams drive the mode machine -----

  lemma {:induction false} RunHistory(c: Core, xs: seq<Sample>, n: nat)
    requires c.Inv() && n <= |xs|
    ensures Run(c, xs, n).window.history == c.window.history + Jitters(xs, n)
    ensures n > 0 ==> Run(c, xs, n).window.seen.Some?
  {
    hide SummaryOfHistory, Evaluate, QualityOf;
    if n > 0 {
      RunHistory(c, xs, n - 1);
    }
  }

  /** How many records must follow `recorded` ones until evaluation starts. */
  function Skipped(recorded: nat): nat {
    if recorded < 9 then 9 - recorded else 0
  }

  /** How many of `n` records that follow `recorded` ones are evaluated. */
  function EvaluationCount(recorded: nat, n: nat): nat {
    if n < Skipped(recorded) then 0 else n - Skipped(recorded)
  }

  /** What an automatic controller feeds its mode machine: from the tenth record on, the
      p95 shown after each record, its jitter and its time. */
  ghost function Evaluations(c: Core, xs: seq<Sample>): (es: seq<Evaluation>)
    requires c.Inv()
    ensures |es| == EvaluationCount(|c.window.history|, |xs|)
  {
    var skipped := Skipped(|c.window.history|);
    seq(EvaluationCount(|c.window.history|, |xs|), k requires 0 <= k && skipped + k < |xs| =>
      Evaluation(Run(c, xs, skipped + k + 1).P95(), xs[skipped + k].jitterMs, xs[skipped + k].nowNs))
  }

  lemma EvaluationAt(c: Core, xs: seq<Sample>, n: nat)
    requires c.Inv() && Skipped(|c.window.history|) < n <= |xs|
    ensures Evaluations(c, xs)[n - 1 - Skipped(|c.window.history|)] ==
            Evaluation(Run(c, xs, n).P95(), xs[n - 1].jitterMs, xs[n - 1].nowNs)
  {
    hide Core.P95, Run;
  }

  lemma SampleStep(c: Core, s: Sample)
    requires c.Inv() && c.auto
    ensures AfterSample(c, s).machine ==
            if |c.window.history| < 9 then c.machine
            else Evaluate(c.machine, AfterSample(c, s).P95(), s.jitterMs, s.nowNs)
  {
    hide SummaryOfHistory, Evaluate, QualityOf;
  }

  /** In automatic mode the machine sees exactly the evaluations, from whatever state. */
  lemma {:induction false} StreamDrivesMachine(c: Core, xs: seq<Sample>, n: nat)
    requires c.Inv() && c.auto && n <= |xs|
    ensures Run(c, xs, n).machine ==
            Drive(c.machine, Evaluations(c, xs), EvaluationCount(|c.window.history|, n))
  {
    hide AfterSample, Evaluate, Evaluations, Core.P95;
    if n == 0 {
    } else {
      StreamDrivesMachine(c, xs, n - 1);
      RunHistory(c, xs, n - 1);
      SampleStep(Run(c, xs, n - 1), xs[n - 1]);
      if Skipped(|c.window.history|) < n {
        EvaluationAt(c, xs, n);
      }
    }
  }

  ghost predicate ClockedSamples(xs: seq<Sample>) {
    && (forall i :: 0 <= i < |xs| ==> xs[i].nowNs != 0)
    && NondecreasingSamples(xs)
  }

  ghost predicate NondecreasingSamples(xs: seq<Sample>) {
    forall i, j :: 0 <= i <= j < |xs| ==> xs[i].nowNs <= xs[j].nowNs
  }

  /** After every record of every stream, with any clock, the controller is in the mode that
      the rule prescribes and remembers what the history says. */
  lemma ControllerRefinesHistory(xs: seq<Sample>, primed: bool, n: nat)
    requires n <= |xs|
    ensures var es, k := Evaluations(Origin(primed), xs), EvaluationCount(0, n);
            Remembers(es, k, Run(Origin(primed), xs, n).machine, PhaseAt(Bypass, es, k))
  {
    hide Core.P95, Evaluate, Remembers, PhaseAt, Evaluations;
    StreamDrivesMachine(Origin(primed), xs, n);
    MachineRefinesHistory(Bypass, Evaluations(Origin(primed), xs), EvaluationCount(0, n));
  }

  /** For a clock that is never zero, record `n` ends Smooth exactly when the p95 in use has
      been low for the last `k > 1` records since Smooth was entered, and the clock is three
      seconds past the first of them, or has stepped back from it so little that the
      unsigned difference is as large. */
  lemma StreamLeavesSmooth(xs: seq<Sample>, primed: bool, n: nat)
    requires 10 <= n <= |xs| && (forall i :: 0 <= i < |xs| ==> xs[i].nowNs != 0)
    ensures var es := Evaluations(Origin(primed), xs);
            var k := Streak(es, LowP95, PhaseAt(Bypass, es, n - 10).entered, n - 9);
            Run(Origin(primed), xs, n - 1).machine.mode == Smooth ==>
              (Run(Origin(primed), xs, n).machine.mode == LowLatency
               <==> 1 < k
                    && var (first, now) := (xs[n - k].nowNs, xs[n - 1].nowNs);
                       first + 3_000_000_000 <= now || first - (TWO_TO_THE_64 - 3_000_000_000) <= now < first)
  {
    hide Core.P95, Evaluate, Run;
    var es := Evaluations(Origin(primed), xs);
    ControllerRefinesHistory(xs, primed, n - 1);
    ControllerRefinesHistory(xs, primed, n);
    SmoothExit(es, PhaseAt(Bypass, es, n - 10).entered, n - 9);
  }

  /** With a clock that is never zero and never runs backwards, the mode is the documented
      one after every record. */
  lemma ControllerFollowsDocumentation(xs: seq<Sample>, primed: bool, n: nat)
    requires n <= |xs| && ClockedSamples(xs)
    ensures var es, k := Evaluations(Origin(primed), xs), EvaluationCount(0, n);
            Run(Origin(primed), xs, n).machine.mode == DocumentedPhaseAt(Bypass, es, k).mode
  {
    hide Core.P95, Evaluate, PhaseAt, DocumentedPhaseAt;
    var es := Evaluations(Origin(primed), xs);
    ControllerRefinesHistory(xs, primed, n);
    DocumentedRuleHolds(Bypass, es, EvaluationCount(0, n));
  }

  /** After record `n` the mode is the documented one. */
  ghost predicate FollowsDocumentation(xs: seq<Sample>, primed: bool, n: nat)
    requires n <= |xs|
  {
    Run(Origin(primed), xs, n).machine.mode
    == DocumentedPhaseAt(Bypass, Evaluations(Origin(primed), xs), EvaluationCount(0, n)).mode
  }

  lemma FollowsIsSameMode(xs: seq<Sample>, primed: bool, n: nat)
    requires n <= |xs|
    ensures FollowsDocumentation(xs, primed, n)
            <==> SameMode(Bypass, Evaluations(Origin(primed), xs), EvaluationCount(0, n))
  {
    hide Core.P95, Evaluate, PhaseAt, DocumentedPhaseAt, Run;
    ControllerRefinesHistory(xs, primed, n);
  }

  /** For clock values in range, the mode is the documented one after every record if and
      only if no evaluation in Smooth reads the clock below the first reading of its streak
      of low p95. */
  lemma ControllerFollowsDocumentationExactly(xs: seq<Sample>, primed: bool, n: nat)
    requires n <= |xs| && forall i :: 0 <= i < |xs| ==> 0 < xs[i].nowNs <= TWO_TO_THE_64 - 3_000_000_000
    ensures (forall j :: 0 <= j <= n ==> FollowsDocumentation(xs, primed, j))
            <==> (forall k :: 0 < k <= EvaluationCount(0, n) ==>
                    !BackwardInSmooth(Bypass, Evaluations(Origin(primed), xs), k))
  {
    hide Core.P95, Evaluate, FollowsDocumentation, SameMode, BackwardInSmooth, Run;
    var es := Evaluations(Origin(primed), xs);
    var last := EvaluationCount(0, n);
    DocumentedRuleHoldsExactly(Bypass, es, last);
    forall j | 0 <= j <= n
      ensures FollowsDocumentation(xs, primed, j) <==> SameMode(Bypass, es, EvaluationCount(0, j))
    {
      FollowsIsSameMode(xs, primed, j);
    }
    forall k | 0 <= k <= last
      ensures var j := if k == 0 then 0 else k + 9;
              j <= n && (FollowsDocumentation(xs, primed, j) <==> SameMode(Bypass, es, k))
    {
      FollowsIsSameMode(xs, primed, if k == 0 then 0 else k + 9);
    }
  }

  /** The bound on flapping for sample streams, in evaluations and in time. */
  lemma ControllerFlappingIsBounded(xs: seq<Sample>, primed: bool, n: nat)
    requires 10 <= n <= |xs|
    ensures var t := Switches(Evaluations(Origin(primed), xs), n - 9);
            && 10 * t.bypassToLow + 20 * t.lowToBypass + 2 * t.lowToSmooth + 2 * t.smoothToLow <= n - 9
            && (NondecreasingSamples(xs) ==> t.smoothToLow * 3_000_000_000 <= xs[n - 1].nowNs - xs[9].nowNs)
  {
    hide Core.P95, Evaluate;
    var es := Evaluations(Origin(primed), xs);
    FlappingIsBounded(es, n - 9);
    if NondecreasingSamples(xs) {
      ReturnsTakeTime(es, n - 9);
    }
  }

  // ----- how fast the mode can escalate -----

  /** No stream is in LowLatency before record 19, or in Smooth before record 21. */
  lemma EscalationTakesTime(xs: seq<Sample>, primed: bool, n: nat)
    requires n <= |xs|
    ensures Run(Origin(primed), xs, n).machine.mode == LowLatency ==> 19 <= n
    ensures Run(Origin(primed), xs, n).machine.mode == Smooth ==> 21 <= n
  {
    hide Core.P95, Evaluate;
    StreamDrivesMachine(Origin(primed), xs, n);
    SwitchesArePaidFor(Evaluations(Origin(primed), xs), EvaluationCount(0, n));
  }

  lemma UsedP95Exceeds(xs: seq<Sample>, primed: bool, n: nat, bound: real)
    requires 4 <= n <= |xs|
    requires forall i :: 0 <= i < |xs| ==> xs[i].jitterMs > bound
    ensures UsedP95(xs, primed, n) > bound
  {
    var k := RefreshedAt(primed, n);
    var h := Jitters(xs, k);
    var w := Latest(h, WINDOW_SIZE);
    forall i | 0 <= i < |h| ensures h[i] > bound {
      JittersAt(xs, k, i);
    }
    P95Within(w, LastOf(h));
  }

  /** A stream of jitters above 10 ms escalates at exactly these records and stays up. */
  lemma {:induction false} EscalationIsExact(xs: seq<Sample>, primed: bool, n: nat)
    requires n <= |xs|
    requires forall i :: 0 <= i < |xs| ==> xs[i].jitterMs > 10.0
    ensures var m := Run(Origin(primed), xs, n).machine;
            && m.mode == (if n < 19 then Bypass else if n < 21 then LowLatency else Smooth)
            && m.sinceNs == 0
            && (n < 19 ==> m.high == EvaluationCount(0, n))
            && (19 <= n < 21 ==> m.low == 0 && m.exceeded == (n == 20))
  {
    hide UsedP95, SummaryOfHistory;
    if n == 0 {
    } else {
      EscalationIsExact(xs, primed, n - 1);
      RefreshSchedule(xs, primed, n);
      if n >= 10 {
        UsedP95Exceeds(xs, primed, n, 10.0);
      }
    }
  }

  // ----- runs in two parts -----

  function Repeat(s: Sample, n: nat): (xs: seq<Sample>)
    ensures |xs| == n && forall i :: 0 <= i < n ==> xs[i] == s
  {
    seq(n, _ => s)
  }

  lemma {:induction false} RunAppend(c: Core, xs: seq<Sample>, ys: seq<Sample>, n: nat)
    requires c.Inv() && n <= |ys|
    ensures Run(c, xs + ys, |xs| + n) == Run(Run(c, xs, |xs|), ys, n)
  {
    hide AfterSample, SummaryOfHistory;
    if n == 0 {
      RunPrefix(c, xs, ys, |xs|);
    } else {
      RunAppend(c, xs, ys, n - 1);
      assert (xs + ys)[|xs| + n - 1] == ys[n - 1];
    }
  }

  // ----- the shown p95 is recent -----

  /** The window of a history cut short by at most three values lies in its last 103. */
  lemma CachedWindowIsRecent(h: seq<real>, seen: seq<real>, x: real)
    requires seen <= h && |h| - |seen| <= 3 && x in Latest(seen, WINDOW_SIZE)
    ensures x in Latest(h, 103) && x in h
  {
  }

  /** After four records the shown p95 lies between two of the last 103 jitters. */
  lemma P95AmongRecent(c: Core)
    requires c.Inv() && 4 <= |c.window.history|
    ensures exists x, y :: x in Latest(c.window.history, 103) && y in Latest(c.window.history, 103)
              && x <= c.P95() <= y
  {
    hide SummaryOf, Latest;
    var h, seen := c.window.history, c.window.Refresh(false).seen.value;
    var w := Latest(seen, WINDOW_SIZE);
    P95Within(w, LastOf(seen));
    var x, y :| x in w && y in w && x <= SummaryOf(w, LastOf(seen)).p95Ms <= y;
    CachedWindowIsRecent(h, seen, x);
    CachedWindowIsRecent(h, seen, y);
  }
}
