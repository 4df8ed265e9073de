/** A spell in a fixed mode within an automatic run: exactly when the rules of the automatic
    modes go on holding after it. */
module JitterSpells {
  import opened Samples
  import opened LatencyStatistics
  import opened JitterBuffer
  import opened ModeHistory
  import opened JitterRuns

  /** The controller after fixing a mode, some samples, and enabling automatic mode again. */
  ghost function AfterSpell(c: Core, mode: Mode, between: seq<Sample>): (r: Core)
    requires c.Inv()
    ensures r.Inv() && r.auto
  {
    AfterCallKeepsInv(c, SetFixedMode(mode));
    var fixed := AfterCall(c, SetFixedMode(mode));
    var later := Run(fixed, between, |between|);
    AfterCallKeepsInv(later, EnableAutoMode);
    AfterCall(later, EnableAutoMode)
  }

  lemma {:induction false} FixedModeFreezesMachine(c: Core, xs: seq<Sample>, n: nat)
    requires c.Inv() && !c.auto && n <= |xs|
    ensures Run(c, xs, n).machine == c.machine
  {
    hide SummaryOfHistory, Evaluate, QualityOf;
    if n > 0 {
      FixedModeFreezesMachine(c, xs, n - 1);
    }
  }

  /** A spell changes the mode, and keeps counters, flag and timer. */
  lemma SpellKeepsMemory(c: Core, mode: Mode, between: seq<Sample>)
    requires c.Inv()
    ensures var r := AfterSpell(c, mode, between);
            && r.machine == c.machine.(mode := mode)
            && r.window.history == c.window.history + Jitters(between, |between|)
  {
    hide SummaryOfHistory, AfterSample;
    AfterCallKeepsInv(c, SetFixedMode(mode));
    var fixed := AfterCall(c, SetFixedMode(mode));
    FixedModeFreezesMachine(fixed, between, |between|);
    RunHistory(fixed, between, |between|);
  }

  /** After a spell, the mode is the one that the rule prescribes for a run that has just
      entered the fixed mode. */
  ghost predicate FollowsRule(c: Core, mode: Mode, between: seq<Sample>, ys: seq<Sample>, j: nat)
    requires c.Inv() && j <= |ys|
  {
    var r := AfterSpell(c, mode, between);
    Run(r, ys, j).machine.mode
    == PhaseAt(mode, Evaluations(r, ys), EvaluationCount(|r.window.history|, j)).mode
  }

  /** The rule compares two machines on the same evaluations. */
  lemma RuleComparesMachines(c: Core, mode: Mode, between: seq<Sample>, ys: seq<Sample>, j: nat)
    requires c.Inv() && j <= |ys|
    ensures var r := AfterSpell(c, mode, between);
            var es, k := Evaluations(r, ys), EvaluationCount(|r.window.history|, j);
            FollowsRule(c, mode, between, ys, j)
            <==> Drive(c.machine.(mode := mode), es, k).mode == Drive(Entering(mode), es, k).mode
  {
    hide Run, Evaluations, AfterSpell, PhaseAt, Drive;
    var r := AfterSpell(c, mode, between);
    SpellKeepsMemory(c, mode, between);
    StreamDrivesMachine(r, ys, j);
    MachineRefinesHistory(mode, Evaluations(r, ys), EvaluationCount(|r.window.history|, j));
  }

  lemma ClearSpellFollowsRule(c: Core, mode: Mode, between: seq<Sample>, ys: seq<Sample>, j: nat)
    requires c.Inv() && j <= |ys| && Clear(c.machine, mode)
    ensures FollowsRule(c, mode, between, ys, j)
  {
    hide Run, Evaluations, AfterSpell, FollowsRule, Drive;
    var r := AfterSpell(c, mode, between);
    RuleComparesMachines(c, mode, between, ys, j);
    AlikeStays(c.machine.(mode := mode), Entering(mode),
               Evaluations(r, ys), EvaluationCount(|r.window.history|, j));
  }

  // ----- a continuation that shows what was kept -----

  lemma LatestOfRepeated(h: seq<real>, later: seq<real>, v: real)
    requires 103 <= |later| && forall i :: 0 <= i < |later| ==> later[i] == v
    ensures forall x :: x in Latest(h + later, 103) ==> x == v
  {
  }

  /** When the last 103 jitters are equal, the shown p95 is their value. */
  lemma RepeatedP95(c: Core, h: seq<real>, later: seq<real>, v: real)
    requires c.Inv() && c.window.history == h + later
    requires 103 <= |later| && forall i :: 0 <= i < |later| ==> later[i] == v
    ensures c.P95() == v
  {
    hide Core.P95, Latest;
    LatestOfRepeated(h, later, v);
    P95AmongRecent(c);
  }

  lemma RepeatedEvaluations(c: Core, mode: Mode, s: Sample, n: nat)
    requires c.Inv()
    ensures var r := AfterSpell(c, mode, Repeat(s, 103));
            && EvaluationCount(|r.window.history|, n) == n == |Evaluations(r, Repeat(s, n))|
            && forall i :: 0 <= i < n ==>
                 Evaluations(r, Repeat(s, n))[i] == Evaluation(s.jitterMs, s.jitterMs, s.nowNs)
  {
    hide AfterSpell, Run, Evaluations, Core.P95, AfterSample;
    var between, ys := Repeat(s, 103), Repeat(s, n);
    var r := AfterSpell(c, mode, between);
    SpellKeepsMemory(c, mode, between);
    forall i | 0 <= i < n
      ensures Evaluations(r, ys)[i] == Evaluation(s.jitterMs, s.jitterMs, s.nowNs)
    {
      EvaluationAt(r, ys, i + 1);
      RunHistory(r, ys, i + 1);
      var later := Jitters(between, 103) + Jitters(ys, i + 1);
      assert Run(r, ys, i + 1).window.history == c.window.history + later;
      forall k | 0 <= k < |later| ensures later[k] == s.jitterMs {
        if k < 103 {
          JittersAt(between, 103, k);
        } else {
          JittersAt(ys, i + 1, k - 103);
        }
      }
      RepeatedP95(Run(r, ys, i + 1), c.window.history, later, s.jitterMs);
    }
  }

  /** If some memory is kept, there is a spell and a continuation that break the rule. */
  lemma KeptMemoryBreaksRule(c: Core, mode: Mode) returns (between: seq<Sample>, ys: seq<Sample>)
    requires c.Inv() && !Clear(c.machine, mode)
    ensures !FollowsRule(c, mode, between, ys, |ys|)
  {
    hide AfterSpell, Run, Evaluations, FollowsRule, Drive;
    var (e, n) := Probe(c.machine, mode);
    var s := Sample(e.jitterMs, 0.0, 0.0, e.nowNs);
    between, ys := Repeat(s, 103), Repeat(s, n);
    RepeatedEvaluations(c, mode, s, n);
    ProbeShowsMemory(c.machine, mode, Evaluations(AfterSpell(c, mode, between), ys));
    RuleComparesMachines(c, mode, between, ys, n);
  }

  /** The rules survive a spell, whatever is recorded during and after it, if and only if
      nothing that the fixed mode reads was remembered when it was fixed. */
  lemma SpellIsHarmlessExactly(c: Core, mode: Mode)
    requires c.Inv()
    ensures (forall between, ys, j | 0 <= j <= |ys| :: FollowsRule(c, mode, between, ys, j))
            <==> Clear(c.machine, mode)
  {
    hide FollowsRule, Clear;
    if Clear(c.machine, mode) {
      forall between, ys, j | 0 <= j <= |ys| ensures FollowsRule(c, mode, between, ys, j) {
        ClearSpellFollowsRule(c, mode, between, ys, j);
      }
    } else {
      var between, ys := KeptMemoryBreaksRule(c, mode);
    }
  }

  // ----- the condition in terms of the samples recorded so far -----

  /** No streak that the mode counts is under way.  LowLatency also needs that no strike
      stands: none at the last evaluation in LowLatency, nor, if it was left for Bypass, at
      the last but one there. */
  ghost predicate NothingUnderWay(es: seq<Evaluation>, n: nat, p: Phase, mode: Mode)
    requires n <= |es| && p.entered <= n
  {
    match mode
    case Bypass => p.mode == Bypass ==> Streak(es, HighJitter, p.entered, n) == 0
    case LowLatency =>
      && (p.mode == LowLatency ==>
            Streak(es, LowJitter, p.entered, n) == 0 && (p.entered < n ==> !Holds(HighP95, es[n - 1])))
      && (p.mode == Bypass && 2 <= p.entered ==> !Holds(HighP95, es[p.entered - 2]))
    case Smooth =>
      p.mode == Smooth ==> FirstNonzero(es, n - Streak(es, LowP95, p.entered, n), n) == 0
  }

  /** After any automatic stream, a spell in a mode is harmless exactly when the evaluations
      so far leave nothing under way that this mode counts. */
  lemma SpellRule(xs: seq<Sample>, primed: bool, n: nat, mode: Mode)
    requires n <= |xs|
    ensures var es, k := Evaluations(Origin(primed), xs), EvaluationCount(0, n);
            (forall between, ys, j | 0 <= j <= |ys| ::
               FollowsRule(Run(Origin(primed), xs, n), mode, between, ys, j))
            <==> NothingUnderWay(es, k, PhaseAt(Bypass, es, k), mode)
  {
    hide FollowsRule, Run, Evaluations, PhaseAt, Evaluate;
    ControllerRefinesHistory(xs, primed, n);
    SpellIsHarmlessExactly(Run(Origin(primed), xs, n), mode);
  }

  // ----- how many samples a streak still needs -----

  lemma {:induction false} EvaluationsMarked(c: Core, ys: seq<Sample>, n: nat, mark: Mark)
    requires c.Inv() && n <= EvaluationCount(|c.window.history|, |ys|) && mark in {HighJitter, LowJitter}
    requires forall s :: s in ys ==> Holds(mark, Evaluation(0.0, s.jitterMs, 0))
    ensures forall i :: 0 <= i < n ==> Holds(mark, Evaluations(c, ys)[i])
  {
    hide Core.P95, Run;
    forall i | 0 <= i < n ensures Holds(mark, Evaluations(c, ys)[i]) {
      EvaluationAt(c, ys, Skipped(|c.window.history|) + i + 1);
      assert ys[Skipped(|c.window.history|) + i] in ys;
    }
  }

  /** From any automatic state in Bypass, unbroken high jitters escalate at exactly the
      evaluation that completes ten of them, those before a spell included. */
  lemma HighJittersComplete(c: Core, ys: seq<Sample>, j: nat)
    requires c.Inv() && c.auto && c.machine.mode == Bypass && j <= |ys|
    requires forall s :: s in ys ==> s.jitterMs > 1.0
    requires c.machine.high + EvaluationCount(|c.window.history|, j) <= 10
    ensures Run(c, ys, j).machine.mode ==
            if c.machine.high + EvaluationCount(|c.window.history|, j) < 10 then Bypass else LowLatency
  {
    hide Evaluations, Run, Core.P95;
    var k := EvaluationCount(|c.window.history|, j);
    StreamDrivesMachine(c, ys, j);
    EvaluationsMarked(c, ys, k, HighJitter);
    HighStreakGoesOn(c.machine, Evaluations(c, ys), k);
  }

  /** From any automatic state in LowLatency, unbroken low jitters return to Bypass with the
      evaluation that completes twenty of them, those before a spell included, exactly if no
      two strikes in a row precede it, one kept through the spell included. */
  lemma LowJittersComplete(c: Core, ys: seq<Sample>, j: nat)
    requires c.Inv() && c.auto && c.machine.mode == LowLatency && j <= |ys|
    requires forall s :: s in ys ==> s.jitterMs < 0.5
    requires c.machine.low + EvaluationCount(|c.window.history|, j) <= 20
    ensures var k := EvaluationCount(|c.window.history|, j);
            Run(c, ys, j).machine.mode == Bypass
            <==> c.machine.low + k == 20 && NoTwoStrikes(c.machine, Evaluations(c, ys), k - 1)
  {
    hide Evaluations, Run, Core.P95;
    var k := EvaluationCount(|c.window.history|, j);
    StreamDrivesMachine(c, ys, j);
    EvaluationsMarked(c, ys, k, LowJitter);
    LowStreakCompletesExactly(c.machine, Evaluations(c, ys), k);
  }

  /** A concrete failure: nine high evaluations before a spell in Bypass and one after it
      reach LowLatency, however calm the samples in between were. */
  lemma FixedModeBreaksStreakRule(xs: seq<Sample>, between: seq<Sample>, last: Sample)
    requires |xs| == 18 && (forall i :: 0 <= i < |xs| ==> xs[i].jitterMs > 1.0) && last.jitterMs > 1.0
    ensures Run(AfterSpell(Run(Origin(false), xs, 18), Bypass, between), [last], 1).machine.mode == LowLatency
  {
    hide AfterSpell, Run, Evaluations;
    var c := Run(Origin(false), xs, 18);
    RunHistory(Origin(false), xs, 18);
    StreamDrivesMachine(Origin(false), xs, 18);
    EvaluationsMarked(Origin(false), xs, 9, HighJitter);
    HighStreakGoesOn(IDLE, Evaluations(Origin(false), xs), 9);
    SpellKeepsMemory(c, Bypass, between);
    HighJittersComplete(AfterSpell(c, Bypass, between), [last], 1);
  }
}
