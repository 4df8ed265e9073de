/** The mode machine seen from outside: what its counters, flag and timer say about the
    evaluations so far, when it changes mode, and how often it can do so. */
module ModeHistory {
  import opened Common
  import opened JitterBuffer

  /** One evaluation: the p95 in use, the jitter just recorded and the time. */
  datatype Evaluation = Evaluation(p95: real, jitterMs: real, nowNs: uint64)

  /** The machine after the first `n` evaluations of a run that starts as `start`. */
  function Drive(start: Machine, es: seq<Evaluation>, n: nat): (m: Machine)
    requires n <= |es|
    ensures start.Bounded() ==> m.Bounded()
  {
    if n == 0 then start
    else Evaluate(Drive(start, es, n - 1), es[n - 1].p95, es[n - 1].jitterMs, es[n - 1].nowNs)
  }

  /** A mode that has just been entered, with nothing remembered. */
  function Entering(mode: Mode): Machine {
    Machine(mode, 0, 0, false, 0)
  }

  // ----- the history of evaluations -----

  datatype Mark = HighJitter | LowJitter | HighP95 | LowP95

  predicate Holds(mark: Mark, e: Evaluation) {
    match mark
    case HighJitter => e.jitterMs > 1.0
    case LowJitter => e.jitterMs < 0.5
    case HighP95 => e.p95 > 10.0
    case LowP95 => e.p95 < 5.0
  }

  /** Each of the last `k` evaluations before position `n` carries the mark. */
  ghost predicate LastAll(es: seq<Evaluation>, mark: Mark, k: nat, n: nat)
    requires k <= n <= |es|
  {
    forall i :: n - k <= i < n ==> Holds(mark, es[i])
  }

  /** The mode and the number of evaluations that had been made when it was entered. */
  datatype Phase = Phase(mode: Mode, entered: nat)

  /** The length of the unbroken streak of marked evaluations that ends at position `n`
      and began after `entered` of them. */
  function Streak(es: seq<Evaluation>, mark: Mark, entered: nat, n: nat): (k: nat)
    requires n <= |es|
    ensures k <= n && (entered <= n ==> entered + k <= n)
  {
    if n <= entered || !Holds(mark, es[n - 1]) then 0 else 1 + Streak(es, mark, entered, n - 1)
  }

  lemma {:induction false} StreakMeaning(es: seq<Evaluation>, mark: Mark, entered: nat, n: nat, k: nat)
    requires n <= |es|
    ensures k <= Streak(es, mark, entered, n) && entered <= n
            <==> entered + k <= n && LastAll(es, mark, k, n)
  {
    if k == 0 || n == 0 {
    } else {
      StreakMeaning(es, mark, entered, n - 1, k - 1);
    }
  }

  /** The first clock value other than zero, or zero if there is none. */
  function FirstNonzero(es: seq<Evaluation>, from: nat, to: nat): uint64
    requires to <= |es|
    decreases if from < to then to - from else 0
  {
    if to <= from then 0
    else if es[from].nowNs != 0 then es[from].nowNs
    else FirstNonzero(es, from + 1, to)
  }

  lemma {:induction false} FirstNonzeroExtends(es: seq<Evaluation>, from: nat, n: nat)
    requires from < n <= |es|
    ensures FirstNonzero(es, from, n) ==
            if FirstNonzero(es, from, n - 1) != 0 then FirstNonzero(es, from, n - 1) else es[n - 1].nowNs
    decreases n - from
  {
    if from + 1 < n {
      FirstNonzeroExtends(es, from + 1, n);
    }
  }

  /** The exact end of Smooth, for any clock: within the current streak of low p95 the clock
      has read other than zero before, and three seconds, as an unsigned difference, lie
      between the first such reading and now. */
  predicate SmoothEnds(es: seq<Evaluation>, entered: nat, n: nat)
    requires 0 < n <= |es|
  {
    var k := Streak(es, LowP95, entered, n);
    0 < k
    && var t := FirstNonzero(es, n - k, n - 1);
       t != 0 && WrapSub(es[n - 1].nowNs, t) >= 3_000_000_000
  }

  ghost function NextPhase(es: seq<Evaluation>, p: Phase, n: nat): Phase
    requires 0 < n <= |es|
  {
    match p.mode
    case Bypass =>
      if p.entered + 10 <= n && LastAll(es, HighJitter, 10, n) then Phase(LowLatency, n) else p
    case LowLatency =>
      if p.entered + 20 <= n && LastAll(es, LowJitter, 20, n) then Phase(Bypass, n)
      else if p.entered + 2 <= n && LastAll(es, HighP95, 2, n) then Phase(Smooth, n)
      else p
    case Smooth =>
      if SmoothEnds(es, p.entered, n) then Phase(LowLatency, n) else p
  }

  /** The mode by rule, without counters, flag or timer, for a run that begins by entering
      the mode `start`. */
  ghost function PhaseAt(start: Mode, es: seq<Evaluation>, n: nat): (p: Phase)
    requires n <= |es|
    ensures p.entered <= n
  {
    if n == 0 then Phase(start, 0) else NextPhase(es, PhaseAt(start, es, n - 1), n)
  }

  /** The whole memory of the machine, as a function of the evaluations since the mode was
      entered.  The flag survives in Bypass: it is the strike of the last evaluation but
      one before LowLatency was left. */
  ghost predicate Remembers(es: seq<Evaluation>, n: nat, m: Machine, p: Phase)
    requires n <= |es|
  {
    && m.mode == p.mode && p.entered <= n
    && match p.mode
       case Bypass =>
         && m.high == Streak(es, HighJitter, p.entered, n)
         && m.exceeded == (2 <= p.entered && Holds(HighP95, es[p.entered - 2]))
         && m.low == 0 && m.sinceNs == 0
       case LowLatency =>
         && m.low == Streak(es, LowJitter, p.entered, n)
         && m.exceeded == (p.entered < n && Holds(HighP95, es[n - 1]))
         && m.high == 0 && m.sinceNs == 0
       case Smooth =>
         && m.sinceNs == FirstNonzero(es, n - Streak(es, LowP95, p.entered, n), n)
         && m.high == 0 && m.low == 0 && !m.exceeded
  }

  /** In every run, with any clock, the machine is in the mode that the rule prescribes, and
      its memory is what the history says: each counter is the length of the matching streak
      since the mode was entered, the flag is the previous strike, and the timer is the first
      clock value other than zero of the current streak of low p95. */
  lemma {:induction false} MachineRefinesHistory(start: Mode, es: seq<Evaluation>, n: nat)
    requires n <= |es|
    ensures Remembers(es, n, Drive(Entering(start), es, n), PhaseAt(start, es, n))
  {
    if n == 0 {
    } else {
      MachineRefinesHistory(start, es, n - 1);
      var m, p := Drive(Entering(start), es, n - 1), PhaseAt(start, es, n - 1);
      match p.mode {
        case Bypass => BypassStep(es, n, m, p);
        case LowLatency => LowLatencyStep(es, n, m, p);
        case Smooth => SmoothStep(es, n, m, p);
      }
    }
  }

  lemma BypassStep(es: seq<Evaluation>, n: nat, m: Machine, p: Phase)
    requires 0 < n <= |es| && p.mode == Bypass && m.Bounded() && Remembers(es, n - 1, m, p)
    ensures Remembers(es, n, Evaluate(m, es[n - 1].p95, es[n - 1].jitterMs, es[n - 1].nowNs), NextPhase(es, p, n))
  {
    StreakMeaning(es, HighJitter, p.entered, n, 10);
  }

  lemma LowLatencyStep(es: seq<Evaluation>, n: nat, m: Machine, p: Phase)
    requires 0 < n <= |es| && p.mode == LowLatency && m.Bounded() && Remembers(es, n - 1, m, p)
    ensures Remembers(es, n, Evaluate(m, es[n - 1].p95, es[n - 1].jitterMs, es[n - 1].nowNs), NextPhase(es, p, n))
  {
    StreakMeaning(es, LowJitter, p.entered, n, 20);
    StrikesAreConsecutive(es, p.entered, n);
  }

  lemma SmoothStep(es: seq<Evaluation>, n: nat, m: Machine, p: Phase)
    requires 0 < n <= |es| && p.mode == Smooth && m.Bounded() && Remembers(es, n - 1, m, p)
    ensures Remembers(es, n, Evaluate(m, es[n - 1].p95, es[n - 1].jitterMs, es[n - 1].nowNs), NextPhase(es, p, n))
  {
    var k := Streak(es, LowP95, p.entered, n);
    if 0 < k {
      FirstNonzeroExtends(es, n - k, n);
    }
  }

  lemma StrikesAreConsecutive(es: seq<Evaluation>, entered: nat, n: nat)
    requires entered < n <= |es|
    ensures (entered + 2 <= n && LastAll(es, HighP95, 2, n))
            <==> (entered < n - 1 && Holds(HighP95, es[n - 2]) && Holds(HighP95, es[n - 1]))
  {
  }

  // ----- what the clock must do -----

  ghost predicate NonzeroClock(es: seq<Evaluation>) {
    forall i :: 0 <= i < |es| ==> es[i].nowNs != 0
  }

  ghost predicate Nondecreasing(es: seq<Evaluation>) {
    forall i, j :: 0 <= i <= j < |es| ==> es[i].nowNs <= es[j].nowNs
  }

  /** In the caller's clock values: if they are never zero, Smooth ends exactly when the low
      p95 has lasted beyond its first evaluation and the clock is three seconds past that
      one, or has stepped back from it so little that the unsigned difference is as large. */
  lemma SmoothExit(es: seq<Evaluation>, entered: nat, n: nat)
    requires entered <= n && 0 < n <= |es| && NonzeroClock(es)
    ensures SmoothEnds(es, entered, n)
            <==> var k := Streak(es, LowP95, entered, n);
                 1 < k
                 && var (first, now) := (es[n - k].nowNs, es[n - 1].nowNs);
                    first + 3_000_000_000 <= now || first - (TWO_TO_THE_64 - 3_000_000_000) <= now < first
  {
  }

  /** Within the phase, the p95 has stayed low from some evaluation up to the latest one,
      and that took at least three seconds. */
  ghost predicate LowP95Persists(es: seq<Evaluation>, entered: nat, n: nat)
    requires n <= |es|
  {
    exists k: nat :: 1 < k && entered + k <= n && LastAll(es, LowP95, k, n)
      && es[n - 1].nowNs - es[n - k].nowNs >= 3_000_000_000
  }

  /** If no earlier reading of the streak is below its first, persistence is measured from
      that first one. */
  lemma PersistenceFromStart(es: seq<Evaluation>, entered: nat, n: nat)
    requires entered <= n && 0 < n <= |es|
    requires var k := Streak(es, LowP95, entered, n);
             forall i :: n - k <= i < n - 1 ==> es[n - k].nowNs <= es[i].nowNs
    ensures var k := Streak(es, LowP95, entered, n);
            LowP95Persists(es, entered, n) <==> 1 < k && es[n - 1].nowNs - es[n - k].nowNs >= 3_000_000_000
  {
    var k := Streak(es, LowP95, entered, n);
    StreakMeaning(es, LowP95, entered, n, k);
    if LowP95Persists(es, entered, n) {
      var j: nat :| 1 < j && entered + j <= n && LastAll(es, LowP95, j, n)
        && es[n - 1].nowNs - es[n - j].nowNs >= 3_000_000_000;
      StreakMeaning(es, LowP95, entered, n, j);
      assert es[n - k].nowNs <= es[n - j].nowNs;
    }
  }

  /** Since the clock does not run backwards, waiting is longest from the streak's start. */
  lemma PersistenceIsMeasuredFromStart(es: seq<Evaluation>, entered: nat, n: nat)
    requires entered <= n && 0 < n <= |es| && NonzeroClock(es) && Nondecreasing(es)
    ensures SmoothEnds(es, entered, n) <==> LowP95Persists(es, entered, n)
  {
    hide SmoothEnds, LowP95Persists;
    SmoothExit(es, entered, n);
    PersistenceFromStart(es, entered, n);
  }

  /** The documented rule: Smooth ends when the p95 has stayed low for three seconds. */
  ghost function DocumentedPhaseAt(start: Mode, es: seq<Evaluation>, n: nat): (p: Phase)
    requires n <= |es|
    ensures p.entered <= n
  {
    if n == 0 then Phase(start, 0)
    else
      var p := DocumentedPhaseAt(start, es, n - 1);
      if p.mode != Smooth then NextPhase(es, p, n)
      else if LowP95Persists(es, p.entered, n) then Phase(LowLatency, n)
      else p
  }

  /** A clock that never reads zero and never runs backwards makes the rule the documented one. */
  lemma {:induction false} DocumentedRuleHolds(start: Mode, es: seq<Evaluation>, n: nat)
    requires n <= |es| && NonzeroClock(es) && Nondecreasing(es)
    ensures PhaseAt(start, es, n) == DocumentedPhaseAt(start, es, n)
  {
    if n > 0 {
      DocumentedRuleHolds(start, es, n - 1);
      PersistenceIsMeasuredFromStart(es, PhaseAt(start, es, n - 1).entered, n);
    }
  }

  /** Clock values that are not zero and leave room for three seconds below 2 to the 64. */
  ghost predicate ClockInRange(es: seq<Evaluation>) {
    forall i :: 0 <= i < |es| ==> 0 < es[i].nowNs <= TWO_TO_THE_64 - 3_000_000_000
  }

  /** The latest reading is below the first of the current streak of low p95. */
  predicate StepsBelowStart(es: seq<Evaluation>, entered: nat, n: nat)
    requires 0 < n <= |es|
  {
    var k := Streak(es, LowP95, entered, n);
    1 < k && es[n - 1].nowNs < es[n - k].nowNs
  }

  /** While Smooth lasts, no reading of the streak has been below its first: it would have
      ended Smooth at once. */
  lemma {:induction false} NoReadingBelowStart(start: Mode, es: seq<Evaluation>, n: nat)
    requires n <= |es| && ClockInRange(es) && PhaseAt(start, es, n).mode == Smooth
    ensures var k := Streak(es, LowP95, PhaseAt(start, es, n).entered, n);
            forall i :: n - k <= i < n ==> es[n - k].nowNs <= es[i].nowNs
  {
    hide SmoothEnds;
    if n > 0 && PhaseAt(start, es, n).entered < n {
      NoReadingBelowStart(start, es, n - 1);
      SmoothExit(es, PhaseAt(start, es, n).entered, n);
      StreakBegan(es, PhaseAt(start, es, n).entered, n);
    }
  }

  /** In Smooth, the code and the documented rule agree at an evaluation if and only if the
      clock has not stepped back below the first reading of the streak. */
  lemma ExitAgreesExactly(start: Mode, es: seq<Evaluation>, n: nat)
    requires 0 < n <= |es| && ClockInRange(es) && PhaseAt(start, es, n - 1).mode == Smooth
    ensures var entered := PhaseAt(start, es, n - 1).entered;
            (SmoothEnds(es, entered, n) <==> LowP95Persists(es, entered, n))
            <==> !StepsBelowStart(es, entered, n)
  {
    hide SmoothEnds, LowP95Persists;
    var entered := PhaseAt(start, es, n - 1).entered;
    SmoothExit(es, entered, n);
    NoReadingBelowStart(start, es, n - 1);
    StreakBegan(es, entered, n);
    PersistenceFromStart(es, entered, n);
  }

  lemma StreakBegan(es: seq<Evaluation>, entered: nat, n: nat)
    requires entered < n <= |es|
    ensures Streak(es, LowP95, entered, n)
            == if Holds(LowP95, es[n - 1]) then Streak(es, LowP95, entered, n - 1) + 1 else 0
  {
  }

  /** Evaluation `n` is made in Smooth, with a clock reading below the streak's first. */
  ghost predicate BackwardInSmooth(start: Mode, es: seq<Evaluation>, n: nat)
    requires 0 < n <= |es|
  {
    var p := PhaseAt(start, es, n - 1);
    p.mode == Smooth && StepsBelowStart(es, p.entered, n)
  }

  ghost predicate SameMode(start: Mode, es: seq<Evaluation>, n: nat)
    requires n <= |es|
  {
    PhaseAt(start, es, n).mode == DocumentedPhaseAt(start, es, n).mode
  }

  lemma AgreementStep(start: Mode, es: seq<Evaluation>, n: nat)
    requires 0 < n <= |es| && ClockInRange(es)
    requires PhaseAt(start, es, n - 1) == DocumentedPhaseAt(start, es, n - 1)
    ensures SameMode(start, es, n) <==> !BackwardInSmooth(start, es, n)
    ensures SameMode(start, es, n) ==> PhaseAt(start, es, n) == DocumentedPhaseAt(start, es, n)
  {
    hide SmoothEnds, LowP95Persists, StepsBelowStart, ClockInRange;
    if PhaseAt(start, es, n - 1).mode == Smooth {
      ExitAgreesExactly(start, es, n);
    }
  }

  lemma {:induction false} SameModesSamePhases(start: Mode, es: seq<Evaluation>, n: nat)
    requires n <= |es| && ClockInRange(es)
    requires forall j :: 0 <= j <= n ==> SameMode(start, es, j)
    ensures PhaseAt(start, es, n) == DocumentedPhaseAt(start, es, n)
    ensures forall j :: 0 < j <= n ==> !BackwardInSmooth(start, es, j)
  {
    hide PhaseAt, DocumentedPhaseAt, SameMode, BackwardInSmooth, ClockInRange;
    if n == 0 {
      PhasesBegin(start, es);
    } else {
      SameModesSamePhases(start, es, n - 1);
      assert SameMode(start, es, n);
      AgreementStep(start, es, n);
    }
  }

  lemma {:induction false} ForwardSamePhases(start: Mode, es: seq<Evaluation>, n: nat)
    requires n <= |es| && ClockInRange(es)
    requires forall j :: 0 < j <= n ==> !BackwardInSmooth(start, es, j)
    ensures PhaseAt(start, es, n) == DocumentedPhaseAt(start, es, n)
    ensures forall j :: 0 <= j <= n ==> SameMode(start, es, j)
  {
    hide PhaseAt, DocumentedPhaseAt, SameMode, BackwardInSmooth, ClockInRange;
    if n == 0 {
      PhasesBegin(start, es);
    } else {
      ForwardSamePhases(start, es, n - 1);
      AgreementStep(start, es, n);
    }
  }

  lemma PhasesBegin(start: Mode, es: seq<Evaluation>)
    ensures PhaseAt(start, es, 0) == DocumentedPhaseAt(start, es, 0) && SameMode(start, es, 0)
  {
  }

  /** Over a whole run: the mode is the documented one throughout if and only if the clock
      never steps back, within a streak of low p95 in Smooth, below the streak's first
      reading. */
  lemma DocumentedRuleHoldsExactly(start: Mode, es: seq<Evaluation>, n: nat)
    requires n <= |es| && ClockInRange(es)
    ensures (forall j :: 0 <= j <= n ==> SameMode(start, es, j))
            <==> (forall j :: 0 < j <= n ==> !BackwardInSmooth(start, es, j))
  {
    hide SameMode, BackwardInSmooth, ClockInRange;
    if forall j :: 0 <= j <= n ==> SameMode(start, es, j) {
      SameModesSamePhases(start, es, n);
    }
    if forall j :: 0 < j <= n ==> !BackwardInSmooth(start, es, j) {
      ForwardSamePhases(start, es, n);
    }
  }

  /** Zero stands for a timer that has not started, so a clock stuck at zero never
      leaves Smooth, however low the p95 is. */
  lemma {:induction false} ZeroClockKeepsSmooth(start: Machine, es: seq<Evaluation>, n: nat)
    requires n <= |es| && start.mode == Smooth && start.sinceNs == 0
    requires forall i :: 0 <= i < n ==> es[i].nowNs == 0
    ensures Drive(start, es, n).mode == Smooth && Drive(start, es, n).sinceNs == 0
  {
    if n > 0 {
      ZeroClockKeepsSmooth(start, es, n - 1);
    }
  }

  // ----- when memory matters -----

  /** The part of the memory that a mode reads is empty. */
  predicate Clear(m: Machine, mode: Mode) {
    match mode
    case Bypass => m.high == 0
    case LowLatency => m.low == 0 && !m.exceeded
    case Smooth => m.sinceNs == 0
  }

  /** Two machines in the same mode that agree on what this mode reads. */
  predicate Alike(a: Machine, b: Machine) {
    && a.mode == b.mode
    && match a.mode
       case Bypass => a.high == b.high
       case LowLatency => a.low == b.low && a.exceeded == b.exceeded
       case Smooth => a.sinceNs == b.sinceNs
  }

  lemma {:induction false} AlikeStays(a: Machine, b: Machine, es: seq<Evaluation>, n: nat)
    requires n <= |es| && Alike(a, b)
    ensures Alike(Drive(a, es, n), Drive(b, es, n))
  {
    if n > 0 {
      AlikeStays(a, b, es, n - 1);
    }
  }

  lemma {:induction false} HighStreakGoesOn(m: Machine, es: seq<Evaluation>, n: nat)
    requires m.mode == Bypass && m.Bounded() && n <= |es| && m.high + n <= 10
    requires forall i :: 0 <= i < n ==> Holds(HighJitter, es[i])
    ensures var r := Drive(m, es, n);
            if m.high + n < 10 then r.mode == Bypass && r.high == m.high + n else r.mode == LowLatency
  {
    if n > 0 {
      HighStreakGoesOn(m, es, n - 1);
    }
  }

  /** Evaluation `i` is a strike right after another, which the machine may have kept. */
  predicate SecondStrike(m: Machine, es: seq<Evaluation>, i: nat)
    requires i < |es|
  {
    Holds(HighP95, es[i]) && (if i == 0 then m.exceeded else Holds(HighP95, es[i - 1]))
  }

  predicate NoTwoStrikes(m: Machine, es: seq<Evaluation>, n: nat)
    requires n <= |es|
  {
    forall i :: 0 <= i < n ==> !SecondStrike(m, es, i)
  }

  lemma {:induction false} LowStreakGoesOn(m: Machine, es: seq<Evaluation>, n: nat)
    requires m.mode == LowLatency && m.Bounded() && n <= |es| && m.low + n < 20
    requires (forall i :: 0 <= i < n ==> Holds(LowJitter, es[i])) && NoTwoStrikes(m, es, n)
    ensures Drive(m, es, n) ==
            m.(low := m.low + n, exceeded := if n == 0 then m.exceeded else Holds(HighP95, es[n - 1]))
  {
    if n > 0 {
      LowStreakGoesOn(m, es, n - 1);
      assert !SecondStrike(m, es, n - 1);
    }
  }

  lemma {:induction false} TwoStrikesClimb(m: Machine, es: seq<Evaluation>, n: nat) returns (i: nat)
    requires m.mode == LowLatency && m.Bounded() && n <= |es| && m.low + n < 20
    requires (forall i :: 0 <= i < n ==> Holds(LowJitter, es[i])) && !NoTwoStrikes(m, es, n)
    ensures i < n && Drive(m, es, i + 1).mode == Smooth
  {
    if NoTwoStrikes(m, es, n - 1) {
      LowStreakGoesOn(m, es, n - 1);
      i := n - 1;
      assert SecondStrike(m, es, i);
    } else {
      i := TwoStrikesClimb(m, es, n - 1);
    }
  }

  /** From Smooth it takes more than twenty evaluations to reach Bypass. */
  lemma {:induction false} NoQuickDescent(m: Machine, es: seq<Evaluation>, a: nat, n: nat)
    requires m.Bounded() && a <= n <= |es| && n - a <= 20 && Drive(m, es, a).mode == Smooth
    ensures var r := Drive(m, es, n);
            r.mode != Bypass && (r.mode == LowLatency ==> a < n && r.low < n - a)
  {
    if a < n {
      NoQuickDescent(m, es, a, n - 1);
    }
  }

  /** Unbroken low jitters in LowLatency reach Bypass with the evaluation that completes
      twenty of them, and not before, exactly if no two strikes in a row precede it. */
  lemma LowStreakCompletesExactly(m: Machine, es: seq<Evaluation>, n: nat)
    requires m.mode == LowLatency && m.Bounded() && n <= |es| && m.low + n <= 20
    requires forall i :: 0 <= i < n ==> Holds(LowJitter, es[i])
    ensures Drive(m, es, n).mode == Bypass <==> m.low + n == 20 && NoTwoStrikes(m, es, n - 1)
  {
    if n == 0 {
    } else if NoTwoStrikes(m, es, n - 1) {
      LowStreakGoesOn(m, es, n - 1);
    } else {
      var i := TwoStrikesClimb(m, es, n - 1);
      NoQuickDescent(m, es, i + 1, n);
    }
  }

  /** What shows that some memory is left: so many repetitions of one evaluation, whose p95
      is its jitter. */
  function Probe(m: Machine, mode: Mode): (r: (Evaluation, nat)) {
    match mode
    case Bypass => (Evaluation(2.0, 2.0, 0), if m.high < 10 then 10 - m.high else 0)
    case LowLatency =>
      if m.low != 0 then (Evaluation(0.0, 0.0, 0), if m.low < 20 then 20 - m.low else 0)
      else (Evaluation(20.0, 20.0, 0), 1)
    case Smooth => (Evaluation(0.0, 0.0, (m.sinceNs + DWELL_NS) % TWO_TO_THE_64), 1)
  }

  /** Memory that is left makes a difference to some run. */
  lemma ProbeShowsMemory(m: Machine, mode: Mode, es: seq<Evaluation>)
    requires m.Bounded() && !Clear(m, mode) && |es| == Probe(m, mode).1
    requires forall i :: 0 <= i < |es| ==> es[i] == Probe(m, mode).0
    ensures Drive(m.(mode := mode), es, |es|).mode != Drive(Entering(mode), es, |es|).mode
  {
    match mode {
      case Bypass =>
        HighStreakGoesOn(m.(mode := mode), es, |es|);
        HighStreakGoesOn(Entering(mode), es, |es|);
      case LowLatency =>
        if m.low != 0 {
          LowStreakCompletesExactly(m.(mode := mode), es, |es|);
          LowStreakCompletesExactly(Entering(mode), es, |es|);
        } else {
          assert Drive(m.(mode := mode), es, 0) == m.(mode := mode);
        }
      case Smooth =>
        assert Drive(m.(mode := mode), es, 0) == m.(mode := mode);
        assert WrapSub(es[0].nowNs, m.sinceNs) == DWELL_NS;
    }
  }

  // ----- how often the mode can change -----

  datatype Tally = Tally(bypassToLow: nat, lowToBypass: nat, lowToSmooth: nat, smoothToLow: nat)

  function Switches(es: seq<Evaluation>, n: nat): Tally
    requires n <= |es|
  {
    if n == 0 then Tally(0, 0, 0, 0)
    else
      var t := Switches(es, n - 1);
      match (Drive(IDLE, es, n - 1).mode, Drive(IDLE, es, n).mode)
      case (Bypass, LowLatency) => t.(bypassToLow := t.bypassToLow + 1)
      case (LowLatency, Bypass) => t.(lowToBypass := t.lowToBypass + 1)
      case (LowLatency, Smooth) => t.(lowToSmooth := t.lowToSmooth + 1)
      case (Smooth, LowLatency) => t.(smoothToLow := t.smoothToLow + 1)
      case _ => t
  }

  /** Evaluations already invested in the next change of mode. */
  function Invested(m: Machine): nat {
    match m.mode
    case Bypass => m.high
    case LowLatency => if m.low == 0 && m.exceeded then 1 else m.low
    case Smooth => if m.sinceNs == 0 then 0 else 1
  }

  lemma {:induction false} SwitchesArePaidFor(es: seq<Evaluation>, n: nat)
    requires n <= |es|
    ensures var t, m := Switches(es, n), Drive(IDLE, es, n);
            && 10 * t.bypassToLow + 20 * t.lowToBypass + 2 * t.lowToSmooth + 2 * t.smoothToLow + Invested(m) <= n
            && t.bypassToLow - t.lowToBypass == (if m.mode == Bypass then 0 else 1)
            && t.lowToSmooth - t.smoothToLow == (if m.mode == Smooth then 1 else 0)
  {
    if n == 0 {
    } else {
      SwitchesArePaidFor(es, n - 1);
    }
  }

  /** Flapping is bounded: every pair of neighbouring modes is switched back and forth in
      alternation, each switch uses up evaluations of its own, and Bypass and Smooth never
      follow each other. */
  lemma FlappingIsBounded(es: seq<Evaluation>, n: nat)
    requires n <= |es|
    ensures var t := Switches(es, n);
            && 10 * t.bypassToLow + 20 * t.lowToBypass + 2 * t.lowToSmooth + 2 * t.smoothToLow <= n
            && 0 <= t.bypassToLow - t.lowToBypass <= 1
            && 0 <= t.lowToSmooth - t.smoothToLow <= 1
    ensures 0 < n ==> var (before, after) := (Drive(IDLE, es, n - 1).mode, Drive(IDLE, es, n).mode);
                      !(before == Bypass && after == Smooth) && !(before == Smooth && after == Bypass)
  {
    SwitchesArePaidFor(es, n);
  }

  function Dwelt(m: Machine, now: uint64): int {
    if m.mode == Smooth && m.sinceNs != 0 then now - m.sinceNs else 0
  }

  /** Every return from Smooth has cost three seconds of its own. */
  lemma {:induction false} ReturnsTakeTime(es: seq<Evaluation>, n: nat)
    requires 0 < n <= |es| && Nondecreasing(es)
    ensures var m, now := Drive(IDLE, es, n), es[n - 1].nowNs;
            && 0 <= Dwelt(m, now)
            && Switches(es, n).smoothToLow * 3_000_000_000 + Dwelt(m, now) <= now - es[0].nowNs
  {
    assert DWELL_NS == 3_000_000_000;
    if n == 1 {
      assert Drive(IDLE, es, 0) == IDLE && Switches(es, 0) == Tally(0, 0, 0, 0);
      assert Drive(IDLE, es, 1).mode == Bypass;
    } else {
      ReturnsTakeTime(es, n - 1);
      assert es[n - 2].nowNs <= es[n - 1].nowNs;
    }
  }
}
