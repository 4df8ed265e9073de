/** The queue shared by any number of threads.  Every critical section is one atomic step;
    a consumer is outside, waiting on the condition variable, or woken and about to take
    the lock again.  Wakeups may be spurious. */
module QueueConcurrency {
  import opened Common
  import opened BoundedQueues

  /** An element that left the queue, with the number of pushes accepted by then. */
  datatype Removal<T> = Removal(value: T, popped: bool, acceptedByThen: nat)

  /** A pop that came back to its caller. */
  datatype Return<T> = Return(thread: nat, result: Option<T>)

  /** The shared state and, for the theorems, the log of what happened. */
  datatype State<T> = State(
    buffer: Buffer<T>, waiting: set<nat>, woken: set<nat>,
    accepted: seq<T>, removed: seq<Removal<T>>, returned: seq<Return<T>>)

  datatype Event<T> =
    | Push(value: T, notified: Option<nat>)
    | WaitPop(thread: nat)
    | Resume(thread: nat)           // a woken consumer takes the lock and tests again
    | SpuriousWakeup(thread: nat)
    | TryPop(thread: nat)
    | Close

  function Start<T>(capacity: nat): State<T> {
    State(Empty(capacity), {}, {}, [], [], [])
  }

  ghost predicate Outside<T>(s: State<T>, thread: nat) {
    thread !in s.waiting && thread !in s.woken
  }

  /** An accepted push notifies some waiting consumer, if there is one. */
  ghost predicate Enabled<T>(s: State<T>, e: Event<T>) {
    match e
    case Push(_, None) => s.buffer.closed || s.waiting == {}
    case Push(_, Some(t)) => !s.buffer.closed && t in s.waiting
    case WaitPop(t) => Outside(s, t)
    case Resume(t) => t in s.woken
    case SpuriousWakeup(t) => t in s.waiting
    case TryPop(t) => Outside(s, t)
    case Close => true
  }

  /** The steps leave nothing out: a producer, and every consumer wherever it is, can act in
      every state, and any waiting consumer may be the one that is notified. */
  lemma EveryCallIsPossible<T>(s: State<T>, value: T, thread: nat)
    ensures Enabled(s, Push(value, None)) || exists t :: Enabled(s, Push(value, Some(t)))
    ensures Enabled(s, Close)
    ensures Enabled(s, WaitPop(thread)) && Enabled(s, TryPop(thread))
            <==> thread !in s.waiting && thread !in s.woken
    ensures Enabled(s, Resume(thread)) <==> thread in s.woken
    ensures Enabled(s, SpuriousWakeup(thread)) <==> thread in s.waiting
    ensures !s.buffer.closed ==> (Enabled(s, Push(value, Some(thread))) <==> thread in s.waiting)
  {
    if !Enabled(s, Push(value, None)) {
      var t :| t in s.waiting;
      assert Enabled(s, Push(value, Some(t)));
    }
  }

  ghost function AfterPush<T>(s: State<T>, value: T, notified: Option<nat>): State<T>
    requires s.buffer.capacity > 0
  {
    if s.buffer.closed then s
    else
      var woken := if notified.Some? then {notified.value} else {};
      s.(buffer := s.buffer.Push(value),
         waiting := s.waiting - woken,
         woken := s.woken + woken,
         accepted := s.accepted + [value],
         removed := if s.buffer.IsFull() && s.buffer.items != []
                    then s.removed + [Removal(s.buffer.items[0], false, |s.accepted| + 1)]
                    else s.removed)
  }

  /** A pop that returns at once, with the oldest element if there is one. */
  ghost function AfterTake<T>(s: State<T>, thread: nat): State<T> {
    if s.buffer.items == [] then s.(returned := s.returned + [Return(thread, None)])
    else
      var value := s.buffer.items[0];
      s.(buffer := s.buffer.Pop(),
         removed := s.removed + [Removal(value, true, |s.accepted|)],
         returned := s.returned + [Return(thread, Some(value))])
  }

  /** The body of a blocking pop: sleep while the queue is open and empty. */
  ghost function AfterWait<T>(s: State<T>, thread: nat): State<T> {
    if !s.buffer.closed && s.buffer.items == [] then s.(waiting := s.waiting + {thread})
    else AfterTake(s, thread)
  }

  ghost function Step<T>(s: State<T>, e: Event<T>): State<T>
    requires s.buffer.capacity > 0
  {
    match e
    case Push(value, notified) => AfterPush(s, value, notified)
    case WaitPop(t) => AfterWait(s, t)
    case Resume(t) => AfterWait(s.(woken := s.woken - {t}), t)
    case SpuriousWakeup(t) => s.(waiting := s.waiting - {t}, woken := s.woken + {t})
    case TryPop(t) => AfterTake(s, t)
    case Close => s.(buffer := s.buffer.(closed := true), waiting := {}, woken := s.woken + s.waiting)
  }

  // ----- invariants of every interleaving -----

  function Values<T>(rs: seq<Removal<T>>): (vs: seq<T>)
    ensures |vs| == |rs|
  {
    if |rs| == 0 then [] else Values(rs[..|rs| - 1]) + [rs[|rs| - 1].value]
  }

  ghost predicate Sized<T>(s: State<T>) {
    0 < s.buffer.capacity && |s.buffer.items| <= s.buffer.capacity
  }

  /** While the queue is open, each element a waiting consumer could want is matched by a
      woken consumer that has yet to run; once closed, nobody waits. */
  ghost predicate NoLostWakeup<T>(s: State<T>) {
    && s.waiting !! s.woken
    && (s.buffer.closed ==> s.waiting == {})
    && (s.waiting != {} ==> |s.buffer.items| <= |s.woken|)
  }

  /** What was removed, followed by what is queued, is what was accepted. */
  ghost predicate Conserved<T>(s: State<T>) {
    Values(s.removed) + s.buffer.items == s.accepted
  }

  /** Of the pushes accepted later than the `i`th element, fewer than `capacity` precede
      its pop, and exactly `capacity` lead to its being dropped. */
  ghost predicate Fresh<T>(s: State<T>) {
    forall i :: 0 <= i < |s.removed| ==>
      var r := s.removed[i];
      && i < r.acceptedByThen <= |s.accepted|
      && (if r.popped then r.acceptedByThen - 1 - i < s.buffer.capacity
          else r.acceptedByThen - 1 - i == s.buffer.capacity)
  }

  ghost predicate Inv<T>(s: State<T>) {
    Sized(s) && NoLostWakeup(s) && Conserved(s) && Fresh(s)
  }

  lemma StepKeepsSized<T>(s: State<T>, e: Event<T>)
    requires Sized(s)
    ensures Sized(Step(s, e)) && Step(s, e).buffer.capacity == s.buffer.capacity
  {
  }

  lemma StepLosesNoWakeup<T>(s: State<T>, e: Event<T>)
    requires Sized(s) && NoLostWakeup(s) && Enabled(s, e)
    ensures NoLostWakeup(Step(s, e))
  {
  }

  lemma ValuesSnoc<T>(rs: seq<Removal<T>>, r: Removal<T>)
    ensures Values(rs + [r]) == Values(rs) + [r.value]
  {
    assert (rs + [r])[..|rs|] == rs;
  }

  lemma TakeConserves<T>(s: State<T>, t: nat)
    requires Conserved(s)
    ensures Conserved(AfterTake(s, t))
  {
    hide Values;
    if s.buffer.items != [] {
      ValuesSnoc(s.removed, Removal(s.buffer.items[0], true, |s.accepted|));
      assert s.buffer.items == [s.buffer.items[0]] + s.buffer.items[1..];
    }
  }

  lemma PushConserves<T>(s: State<T>, value: T, notified: Option<nat>)
    requires Sized(s) && Conserved(s)
    ensures Conserved(AfterPush(s, value, notified))
  {
    hide Values;
    var items := s.buffer.items;
    if !s.buffer.closed && s.buffer.IsFull() {
      ValuesSnoc(s.removed, Removal(items[0], false, |s.accepted| + 1));
      assert items + [value] == [items[0]] + (items[1..] + [value]);
    }
  }

  lemma StepConserves<T>(s: State<T>, e: Event<T>)
    requires Sized(s) && Conserved(s)
    ensures Conserved(Step(s, e))
  {
    hide AfterPush, AfterTake, Values;
    match e {
      case Push(value, notified) => PushConserves(s, value, notified);
      case WaitPop(t) => TakeConserves(s, t);
      case Resume(t) => TakeConserves(s.(woken := s.woken - {t}), t);
      case TryPop(t) => TakeConserves(s, t);
      case _ =>
    }
  }

  lemma StepKeepsFresh<T>(s: State<T>, e: Event<T>)
    requires Sized(s) && Conserved(s) && Fresh(s)
    ensures Fresh(Step(s, e))
  {
    assert |s.accepted| == |s.removed| + |s.buffer.items|;
  }

  lemma StepKeepsInv<T>(s: State<T>, e: Event<T>)
    requires Inv(s) && Enabled(s, e)
    ensures Inv(Step(s, e))
  {
    hide Step, Conserved, Fresh, NoLostWakeup, Enabled;
    StepKeepsSized(s, e);
    StepLosesNoWakeup(s, e);
    StepConserves(s, e);
    StepKeepsFresh(s, e);
  }

  // ----- runs -----

  /** The state after the first `n` events, each of which must be possible when it comes. */
  ghost function Run<T>(s: State<T>, es: seq<Event<T>>, n: nat): (r: State<T>)
    requires n <= |es| && Sized(s)
    ensures Sized(r) && r.buffer.capacity == s.buffer.capacity
  {
    if n == 0 then s
    else
      StepKeepsSized(Run(s, es, n - 1), es[n - 1]);
      Step(Run(s, es, n - 1), es[n - 1])
  }

  ghost predicate Possible<T>(s: State<T>, es: seq<Event<T>>, n: nat)
    requires n <= |es| && Sized(s)
  {
    n == 0 || (Possible(s, es, n - 1) && Enabled(Run(s, es, n - 1), es[n - 1]))
  }

  lemma {:induction false} RunKeepsInv<T>(s: State<T>, es: seq<Event<T>>, n: nat)
    requires n <= |es| && Inv(s) && Possible(s, es, n)
    ensures Inv(Run(s, es, n))
  {
    hide Step, Conserved, Fresh, NoLostWakeup, Enabled;
    if n > 0 {
      RunKeepsInv(s, es, n - 1);
      StepKeepsInv(Run(s, es, n - 1), es[n - 1]);
    }
  }

  lemma StartHasInv<T>(capacity: nat)
    ensures Inv<T>(Start(capacity))
  {
  }

  /** No lost wakeups: whenever somebody waits at an open queue, at least as many consumers
      are awake as there are elements, and each of them would find one. */
  lemma NobodyWaitsInVain<T>(capacity: nat, es: seq<Event<T>>, n: nat)
    requires n <= |es| && Possible(Start(capacity), es, n)
    ensures var s := Run(Start(capacity), es, n);
            && (s.buffer.closed ==> s.waiting == {})
            && (s.waiting != {} ==> |s.buffer.items| <= |s.woken|)
            && (s.waiting != {} && s.buffer.items != [] ==> s.woken != {})
            && (s.buffer.items != [] ==>
                  forall t :: t in s.woken ==>
                    Enabled(s, Resume(t))
                    && Step(s, Resume(t)).returned == s.returned + [Return(t, Some(s.buffer.items[0]))])
  {
    StartHasInv<T>(capacity);
    RunKeepsInv(Start(capacity), es, n);
  }

  /** Conservation and freshness over every interleaving. */
  lemma NothingIsLostOrRepeated<T>(capacity: nat, es: seq<Event<T>>, n: nat)
    requires n <= |es| && Possible(Start(capacity), es, n)
    ensures var s, bound := Run(Start(capacity), es, n), if capacity < 1 then 1 else capacity;
            && |s.buffer.items| <= bound
            && Values(s.removed) + s.buffer.items == s.accepted
            && forall i :: 0 <= i < |s.removed| ==>
                 var later := s.removed[i].acceptedByThen - 1 - i;
                 s.removed[i].value == s.accepted[i]
                 && (if s.removed[i].popped then 0 <= later < bound else later == bound)
  {
    StartHasInv<T>(capacity);
    RunKeepsInv(Start(capacity), es, n);
    var s := Run(Start(capacity), es, n);
    forall i | 0 <= i < |s.removed| ensures s.removed[i].value == s.accepted[i] {
      ValuesAt(s.removed, i);
      assert s.accepted[i] == (Values(s.removed) + s.buffer.items)[i];
    }
  }

  lemma {:induction false} ValuesAt<T>(rs: seq<Removal<T>>, i: nat)
    requires i < |rs|
    ensures Values(rs)[i] == rs[i].value
  {
    if i < |rs| - 1 {
      ValuesAt(rs[..|rs| - 1], i);
    }
  }

  // ----- steps are the calls of the object -----

  /** The three ways in which the critical section of a pop can end. */
  datatype PopEnd<T> = Sleeping | Failing | Taking(value: T)

  /** What the object's blocking pop does to the buffer `b`; the others never sleep. */
  function EndOf<T>(b: Buffer<T>, blocking: bool): PopEnd<T> {
    if b.items != [] then Taking(b.items[0])
    else if blocking && !b.closed then Sleeping
    else Failing
  }

  /** The consumers that the step of a waiting or resuming one takes out of the woken. */
  function Resuming<T>(e: Event<T>): set<nat> {
    if e.Resume? then {e.thread} else {}
  }

  /** Every step leaves the buffer as the call of the object does that it stands for, and
      its thread sleeps, fails or takes an element exactly when that call does.  A push wakes
      the consumer it notifies and nobody else. */
  lemma StepIsCall<T>(s: State<T>, e: Event<T>)
    requires Sized(s)
    ensures var s', b := Step(s, e), s.buffer;
            && s'.buffer.capacity == b.capacity
            && s'.buffer.closed == (b.closed || e.Close?)
            && (e.Push? ==>
                  && s'.buffer.items == (if b.closed then b.items
                                         else if |b.items| < b.capacity then b.items + [e.value]
                                         else b.items[1..] + [e.value])
                  && s'.accepted == (if b.closed then s.accepted else s.accepted + [e.value])
                  && s'.returned == s.returned
                  && (b.closed || e.notified.None? ==> s'.waiting == s.waiting && s'.woken == s.woken)
                  && (!b.closed && e.notified.Some? ==>
                        && s'.waiting == s.waiting - {e.notified.value}
                        && s'.woken == s.woken + {e.notified.value}))
            && (e.SpuriousWakeup? || e.Close? ==>
                  s'.buffer.items == b.items && s'.returned == s.returned && s'.removed == s.removed)
            && (e.WaitPop? || e.Resume? || e.TryPop? ==>
                  match EndOf(b, !e.TryPop?)
                  case Sleeping =>
                    && s'.buffer == b && s'.returned == s.returned && s'.removed == s.removed
                    && s'.waiting == s.waiting + {e.thread} && s'.woken == s.woken - Resuming(e)
                  case Failing =>
                    && s'.buffer == b && s'.removed == s.removed
                    && s'.waiting == s.waiting && s'.woken == s.woken - Resuming(e)
                    && s'.returned == s.returned + [Return(e.thread, None)]
                  case Taking(v) =>
                    && s'.buffer.items == b.items[1..]
                    && s'.waiting == s.waiting && s'.woken == s.woken - Resuming(e)
                    && s'.removed == s.removed + [Removal(v, true, |s.accepted|)]
                    && s'.returned == s.returned + [Return(e.thread, Some(v))])
  {
  }

  /** The elements among the results, and the popped ones among the removals. */
  function Results<T>(rs: seq<Return<T>>): seq<T> {
    if rs == [] then []
    else Results(rs[..|rs| - 1]) + (if rs[|rs| - 1].result.Some? then [rs[|rs| - 1].result.value] else [])
  }

  function Popped<T>(rs: seq<Removal<T>>): seq<T> {
    if rs == [] then []
    else Popped(rs[..|rs| - 1]) + (if rs[|rs| - 1].popped then [rs[|rs| - 1].value] else [])
  }

  lemma ResultsSnoc<T>(rs: seq<Return<T>>, r: Return<T>)
    ensures Results(rs + [r]) == Results(rs) + (if r.result.Some? then [r.result.value] else [])
  {
    assert (rs + [r])[..|rs|] == rs;
  }

  lemma PoppedSnoc<T>(rs: seq<Removal<T>>, r: Removal<T>)
    ensures Popped(rs + [r]) == Popped(rs) + (if r.popped then [r.value] else [])
  {
    assert (rs + [r])[..|rs|] == rs;
  }

  lemma StepDelivers<T>(s: State<T>, e: Event<T>)
    requires Sized(s) && Results(s.returned) == Popped(s.removed)
    ensures Results(Step(s, e).returned) == Popped(Step(s, e).removed)
  {
    hide Results, Popped;
    if s.buffer.items != [] {
      PoppedSnoc(s.removed, Removal(s.buffer.items[0], true, |s.accepted|));
      PoppedSnoc(s.removed, Removal(s.buffer.items[0], false, |s.accepted| + 1));
    }
    if e.WaitPop? || e.Resume? || e.TryPop? {
      var result := if s.buffer.items == [] then None else Some(s.buffer.items[0]);
      ResultsSnoc(s.returned, Return(e.thread, result));
    }
  }

  /** In every interleaving the callers are handed exactly the elements that were popped, in
      that order, each of them once. */
  lemma {:induction false} PoppedIsDelivered<T>(capacity: nat, es: seq<Event<T>>, n: nat)
    requires n <= |es| && Possible(Start(capacity), es, n)
    ensures var s := Run(Start(capacity), es, n); Results(s.returned) == Popped(s.removed)
  {
    hide Step, Enabled, Results, Popped;
    if n == 0 {
      NothingYet<T>();
    } else {
      PoppedIsDelivered(capacity, es, n - 1);
      StepDelivers(Run(Start(capacity), es, n - 1), es[n - 1]);
    }
  }

  lemma NothingYet<T>()
    ensures Results<T>([]) == [] == Popped<T>([])
  {
  }

  /** While a queue that only blocking pops read is open, every pop that returns has taken an
      element: a pop of the empty queue sleeps. */
  lemma {:induction false} OpenQueueNeverFails<T>(s: State<T>, es: seq<Event<T>>, n: nat)
    requires n <= |es| && Sized(s) && (forall i :: 0 <= i < n ==> !es[i].TryPop?)
    requires !Run(s, es, n).buffer.closed
    requires forall r :: r in s.returned ==> r.result.Some?
    ensures forall r :: r in Run(s, es, n).returned ==> r.result.Some?
  {
    hide Step;
    if n > 0 {
      StepIsCall(Run(s, es, n - 1), es[n - 1]);
      OpenQueueNeverFails(s, es, n - 1);
    }
  }

  // ----- after close -----

  /** The results of draining `items` by `k` pops: the elements in order, then failures. */
  ghost predicate Drains<T>(items: seq<T>, before: State<T>, after: State<T>) {
    && after.buffer.closed && after.waiting == {} && after.accepted == before.accepted
    && before.returned <= after.returned
    && var b, k := |before.returned|, |after.returned| - |before.returned|;
       && after.buffer.items == (if k <= |items| then items[k..] else [])
       && forall j :: b <= j < b + k ==>
            after.returned[j].result == if j - b < |items| then Some(items[j - b]) else None
  }

  /** Once closed, no push is accepted and nobody sleeps; the pops that return take what
      is left in order and fail from then on. */
  lemma {:induction false} ClosedQueueDrains<T>(s: State<T>, es: seq<Event<T>>, n: nat)
    requires n <= |es| && Inv(s) && s.buffer.closed && Possible(s, es, n)
    ensures Drains(s.buffer.items, s, Run(s, es, n))
  {
    if n == 0 {
      assert s.buffer.items[0..] == s.buffer.items;
    } else {
      ClosedQueueDrains(s, es, n - 1);
      DrainStep(s.buffer.items, s, Run(s, es, n - 1), es[n - 1]);
    }
  }

  lemma DrainStep<T>(items: seq<T>, before: State<T>, s: State<T>, e: Event<T>)
    requires Sized(s) && Drains(items, before, s) && Enabled(s, e)
    ensures Drains(items, before, Step(s, e))
  {
    hide Step, Enabled;
    ClosedStep(s, e);
    var s' := Step(s, e);
    if s'.returned != s.returned {
      DrainReturn(items, before, s, s', s'.returned[|s.returned|]);
    } else {
      DrainIdle(items, before, s, s');
    }
  }

  lemma DrainIdle<T>(items: seq<T>, before: State<T>, s: State<T>, s': State<T>)
    requires Drains(items, before, s)
    requires s'.buffer.closed && s'.waiting == {} && s'.accepted == s.accepted
    requires s'.returned == s.returned && s'.buffer.items == s.buffer.items
    ensures Drains(items, before, s')
  {
  }

  lemma DrainReturn<T>(items: seq<T>, before: State<T>, s: State<T>, s': State<T>, r: Return<T>)
    requires Drains(items, before, s)
    requires s'.buffer.closed && s'.waiting == {} && s'.accepted == s.accepted
    requires s'.returned == s.returned + [r]
    requires r.result == if s.buffer.items == [] then None else Some(s.buffer.items[0])
    requires s'.buffer.items == if s.buffer.items == [] then [] else s.buffer.items[1..]
    ensures Drains(items, before, s')
  {
    var b := |before.returned|;
    var k := |s.returned| - b;
    PrefixStays(before.returned, s.returned, r);
    RestAfter(items, k, s.buffer.items);
    forall j | b <= j < b + k + 1
      ensures s'.returned[j].result == if j - b < |items| then Some(items[j - b]) else None
    {
      if j < b + k {
        assert s'.returned[j] == s.returned[j];
      } else {
        assert s'.returned[j] == r;
      }
    }
  }

  lemma PrefixStays<T>(before: seq<Return<T>>, rs: seq<Return<T>>, r: Return<T>)
    requires before <= rs
    ensures before <= rs + [r]
  {
  }

  /** What is left after `k` pops, and what the next one finds. */
  lemma RestAfter<T>(items: seq<T>, k: nat, rest: seq<T>)
    requires rest == if k <= |items| then items[k..] else []
    ensures rest == [] <==> |items| <= k
    ensures rest != [] ==> rest[0] == items[k] && rest[1..] == items[k + 1..]
    ensures items[|items|..] == []
  {
  }

  /** One step of a closed queue: a pop returns with what the queue gives it, a consumer that
      takes the lock again leaves, and nothing else happens. */
  lemma ClosedStep<T>(s: State<T>, e: Event<T>)
    requires Sized(s) && s.buffer.closed && s.waiting == {} && Enabled(s, e)
    ensures var s', items := Step(s, e), s.buffer.items;
            && s'.buffer.closed && s'.waiting == {} && s'.accepted == s.accepted
            && s'.woken == s.woken - (if e.Resume? then {e.thread} else {})
            && if e.WaitPop? || e.TryPop? || e.Resume?
               then s'.returned == s.returned + [Return(e.thread, if items == [] then None else Some(items[0]))]
                    && s'.buffer.items == if items == [] then [] else items[1..]
               else s'.returned == s.returned && s'.buffer.items == items
  {
    assert Sized(Step(s, e)) by { StepKeepsSized(s, e); }
  }

  /** The consumers that have taken the lock again among the first `n` events. */
  ghost function Resumed<T>(es: seq<Event<T>>, n: nat): set<nat>
    requires n <= |es|
  {
    if n == 0 then {}
    else Resumed(es, n - 1) + (if es[n - 1].Resume? then {es[n - 1].thread} else {})
  }

  /** Once closed, the consumers inside are the ones that were woken and have not run since:
      each leaves with its first step, nobody sleeps again, and nobody gets stuck later. */
  lemma {:induction false} ClosedQueueReleases<T>(s: State<T>, es: seq<Event<T>>, n: nat)
    requires n <= |es| && Inv(s) && s.buffer.closed && Possible(s, es, n)
    ensures var s' := Run(s, es, n);
            s'.buffer.closed && s'.waiting == {} && s'.woken == s.woken - Resumed(es, n)
  {
    hide Step, Enabled, Conserved, Fresh;
    if n > 0 {
      ClosedQueueReleases(s, es, n - 1);
      ClosedStep(Run(s, es, n - 1), es[n - 1]);
    }
  }

  /** From the moment of closing: whoever was waiting or woken leaves with the first step of
      its own, and those that have not made it are the only ones inside. */
  lemma {:induction false} CloseReleasesAll<T>(s: State<T>, es: seq<Event<T>>, n: nat)
    requires 0 < n <= |es| && Inv(s) && es[0] == Close && Possible(s, es, n)
    ensures var s' := Run(s, es, n);
            s'.buffer.closed && s'.waiting == {} && s'.woken == (s.waiting + s.woken) - Resumed(es, n)
  {
    if n == 1 {
      assert Run(s, es, 0) == s && Resumed(es, 0) == {};
      assert Resumed(es, 1) == {};
    } else {
      CloseReleasesAll(s, es, n - 1);
      ReleaseStep(s, es, n, s.waiting + s.woken);
    }
  }

  lemma ReleaseStep<T>(s: State<T>, es: seq<Event<T>>, n: nat, inside: set<nat>)
    requires 1 < n <= |es| && Sized(s) && Possible(s, es, n)
    requires var before := Run(s, es, n - 1);
             before.buffer.closed && before.waiting == {} && before.woken == inside - Resumed(es, n - 1)
    ensures var s' := Run(s, es, n);
            s'.buffer.closed && s'.waiting == {} && s'.woken == inside - Resumed(es, n)
  {
    hide Step, Enabled;
    ClosedStep(Run(s, es, n - 1), es[n - 1]);
  }
}
