/** The engine's shared object in its own, imperative form: `Sim` and the attempt
    loops of `run_role`.  Each method is tied to the atomic step it stands for in
    the interleaving model. */
module SimObject {
  import opened Protocols
  import opened Engine
  import opened Progress

  class Sim {
    var completed: set<nat>
    var error: Option<Failure>
    var counter: nat
    var trace: seq<Event>
    const maxTrace: nat

    ghost function View(): Shared
      reads this
    {
      Shared(completed, error, counter, trace)
    }

    constructor (maxTrace: nat, done: set<nat>)
      ensures this.maxTrace == maxTrace && View() == Shared(done, None, 0, [])
    {
      this.maxTrace := maxTrace;
      completed, error, counter, trace := done, None, 0, [];
    }

    /** The first failure wins. */
    method SetFailure(f: Failure)
      modifies this`error
      ensures View() == Engine.SetFailure(old(View()), f)
    {
      if error.None? {
        error := Some(f);
      }
    }

    method MarkDone(i: nat)
      modifies this`completed
      ensures View() == Engine.MarkDone(old(View()), i)
    {
      completed := completed + {i};
    }

    /** `counter.fetch_add`: the number is taken before the event is stored. */
    method Stamp() returns (seqNo: nat, stored: bool)
      modifies this`counter
      ensures seqNo == old(counter) && stored == (seqNo < maxTrace)
      ensures View() == old(View()).(counter := old(counter) + 1)
    {
      seqNo := counter;
      counter := counter + 1;
      stored := seqNo < maxTrace;
    }

    method Store(e: Event)
      modifies this`trace
      ensures View() == old(View()).(trace := old(trace) + [e])
    {
      trace := trace + [e];
    }

    /** `record` when no other thread intervenes: the two halves in a row. */
    method Record(r: nat, running: nat)
      modifies this`counter, this`trace, this`error
      ensures counter == old(counter) + 1 && completed == old(completed)
      ensures old(counter) < maxTrace ==> trace == old(trace) + [Event(old(counter), running)] && error == old(error)
      ensures old(counter) >= maxTrace ==>
                trace == old(trace) && error == (if old(error).None? then Some(Failure(r, TraceLimit)) else old(error))
    {
      var seqNo, stored := Stamp();
      if stored {
        Store(Event(seqNo, running));
      } else {
        SetFailure(Failure(r, TraceLimit));
      }
    }

    /** The shared part of any atomic step of the interleaving model, done with the
        operations above. */
    method Atomic(c: Config, r: nat, i: nat, t: Thread)
      requires c.maxTrace == maxTrace
      modifies this`completed, this`error, this`counter, this`trace
      ensures View() == StepShared(c, r, i, t, old(View()))
    {
      match t.phase
      case Emit(left, _) =>
        if left > 0 {
          var _, _ := Stamp();
        }
      case Push(seqNo, _, _) => Store(Event(seqNo, i));
      case Overflow(_, _) => SetFailure(Failure(r, TraceLimit));
      case Fail(kind) => SetFailure(Failure(r, kind));
      case Stop(_) => SetFailure(Failure(r, RuntimeLimit));
      case Mark(_, _) => MarkDone(i);
      case _ =>
    }

    /** One look at the completed set, as `wait_deps` takes under the lock. */
    method Ready(deps: seq<nat>) returns (ready: bool)
      ensures ready <==> forall d :: d in deps ==> d in completed
    {
      ready := true;
      for i := 0 to |deps|
        invariant ready <==> forall d :: d in deps[..i] ==> d in completed
      {
        assert deps[..i + 1] == deps[..i] + [deps[i]];
        ready := ready && deps[i] in completed;
      }
      assert deps[..|deps|] == deps;
    }
  }

  /** What the environment answers to the `n`-th attempt. */
  datatype Reply = Reply(result: Result, canResend: bool, selected: bool, sent: bool, late: bool)

  /** The phase that follows an attempt in the interleaving model, once the events
      on the way there are recorded. */
  ghost function AfterAttempt(step: Step, c: Counters, answer: Reply): Phase {
    var ch := Choice(answer.late, false, None, 0, answer.result, answer.canResend, answer.selected, answer.sent);
    var one := Continue(step, INITIAL_STATE, ThenResult(c, answer.result), ch);
    if !one.Emit? then one
    else
      var two := Continue(step, INITIAL_STATE, one.next, ch);
      if !two.Emit? then two
      else
        var three := Continue(step, INITIAL_STATE, two.next, ch);
        if !three.Emit? then three else Continue(step, INITIAL_STATE, three.next, ch)
  }

  /** How the attempts at a step end. */
  datatype Ending = Finished | Failing(kind: FailureKind) | Late

  /** How the model's thread ends the step from its `n`-th attempt on, and after
      how many attempts. */
  ghost function Course(step: Step, reply: nat -> Reply, n: nat, c: Counters): (Ending, nat)
    requires CountersOk(step, c)
    decreases step.loopCount - c.loops, Resends(step) - c.resends + step.retry - c.retries, 1
  {
    match AfterAttempt(step, c, reply(n))
    case Attempt(next) => Course(step, reply, n + 1, next)
    case LoopCheck(_) => AfterLast(step, reply, n + 1, c.loops)
    case Fail(kind) => (Failing(kind), n + 1)
    case _ => (Late, n + 1)
  }

  /** Likewise from the end of loop iteration `loops` on. */
  ghost function AfterLast(step: Step, reply: nat -> Reply, n: nat, loops: nat): (Ending, nat)
    requires loops < step.loopCount
    decreases step.loopCount - loops, 0, 0
  {
    match AfterLoop(step, Thread(0, INITIAL_STATE, Top), Counters(loops, 0, 0), reply(n).late).phase
    case Attempt(next) => Course(step, reply, n, next)
    case Mark(_, _) => (Finished, n)
    case _ => (Late, n)
  }

  lemma CourseStep(step: Step, reply: nat -> Reply, n: nat, c: Counters)
    requires CountersOk(step, c)
    ensures var a := reply(n);
            Course(step, reply, n, c) ==
            if a.result.Done? then AfterLast(step, reply, n + 1, c.loops)
            else if c.resends < Resends(step) && step.receives && a.result.TimedOut? && a.canResend then
              if a.sent then Course(step, reply, n + 1, c.(resends := c.resends + 1)) else (Failing(RetransmitFailed), n + 1)
            else if c.retries < step.retry && a.selected then Course(step, reply, n + 1, c.(retries := c.retries + 1))
            else (Failing(StepFailed), n + 1)
  {
  }

  lemma AfterLastStep(step: Step, reply: nat -> Reply, n: nat, loops: nat)
    requires loops < step.loopCount
    ensures AfterLast(step, reply, n, loops) ==
            if reply(n).late then (Late, n)
            else if loops + 1 < step.loopCount then Course(step, reply, n, Counters(loops + 1, 0, 0))
            else (Finished, n)
  {
  }

  // ------------------------------------------------------------------
  // One iteration
  // ------------------------------------------------------------------

  /** A timeout with something to resend, which is resent. */
  predicate Resent(a: Reply) {
    a.result == TimedOut && a.canResend && a.sent
  }

  /** A failure that does not call for a retransmission. */
  predicate NotResent(step: Step, a: Reply) {
    a.result != Done && !(step.receives && a.result == TimedOut && a.canResend)
  }

  /** The resends and retries the counters leave over. */
  function Spare(step: Step, c: Counters, selected: bool): int {
    (if step.retransmit > step.timerRetransmit then step.retransmit else step.timerRetransmit) - c.resends
    + if selected then step.retry - c.retries else 0
  }

  /** Timeouts are answered with retransmissions up to the larger of the two settings,
      then with retries if they are selected; one more fails the step. */
  lemma {:induction false} TimeoutsFrom(step: Step, reply: nat -> Reply, n: nat, c: Counters, k: nat, selected: bool)
    requires CountersOk(step, c) && step.receives
    requires forall x: nat :: n <= x < n + k ==> Resent(reply(x)) && reply(x).selected == selected
    ensures k <= Spare(step, c, selected) && reply(n + k).result == Done ==>
              Course(step, reply, n, c) == AfterLast(step, reply, n + k + 1, c.loops)
    ensures k > Spare(step, c, selected) ==> Course(step, reply, n, c) == (Failing(StepFailed), n + Spare(step, c, selected) + 1)
    decreases k
  {
    hide Course, AfterLast;
    CourseStep(step, reply, n, c);
    if k > 0 {
      assert Resent(reply(n)) && reply(n).selected == selected;
      var next := if c.resends < Resends(step) then c.(resends := c.resends + 1) else c.(retries := c.retries + 1);
      if c.resends < Resends(step) || (selected && c.retries < step.retry) {
        TimeoutsFrom(step, reply, n + 1, next, k - 1, selected);
        assert n + 1 + (k - 1) == n + k;
      }
    } else {
      assert n + k == n;
    }
  }

  /** Other failures are answered with retries if they are selected. */
  lemma {:induction false} FailuresFrom(step: Step, reply: nat -> Reply, n: nat, c: Counters, k: nat)
    requires CountersOk(step, c)
    requires forall x: nat :: n <= x < n + k ==> NotResent(step, reply(x)) && reply(x).selected
    ensures k <= step.retry - c.retries && reply(n + k).result == Done ==>
              Course(step, reply, n, c) == AfterLast(step, reply, n + k + 1, c.loops)
    ensures k > step.retry - c.retries ==> Course(step, reply, n, c) == (Failing(StepFailed), n + step.retry - c.retries + 1)
    decreases k
  {
    hide Course, AfterLast;
    CourseStep(step, reply, n, c);
    if k > 0 {
      assert NotResent(step, reply(n)) && reply(n).selected;
      if c.retries < step.retry {
        FailuresFrom(step, reply, n + 1, c.(retries := c.retries + 1), k - 1);
        assert n + 1 + (k - 1) == n + k;
      }
    } else {
      assert n + k == n;
    }
  }

  /** A failure that is neither resent nor selected ends the step at once, and so
      does a retransmission that fails. */
  lemma FailsAtOnce(step: Step, reply: nat -> Reply, n: nat, c: Counters)
    requires CountersOk(step, c)
    ensures NotResent(step, reply(n)) && !reply(n).selected ==> Course(step, reply, n, c) == (Failing(StepFailed), n + 1)
    ensures step.receives && reply(n).result == TimedOut && reply(n).canResend && !reply(n).sent && Spare(step, c, false) > 0 ==>
              Course(step, reply, n, c) == (Failing(RetransmitFailed), n + 1)
  {
    hide Course, AfterLast;
    CourseStep(step, reply, n, c);
  }

  /** Every iteration answers its first `k` attempts with timeouts and then succeeds. */
  ghost predicate TimesOut(reply: nat -> Reply, k: nat, selected: bool) {
    forall x: nat ::
      && !reply(x).late
      && (x % (k + 1) < k ==> Resent(reply(x)) && reply(x).selected == selected)
      && (x % (k + 1) == k ==> reply(x).result == Done)
  }

  lemma Position(l: nat, j: nat, m: nat)
    requires j < m
    ensures (l * m + j) % m == j
  {
    var x := l * m + j;
    var d := l - x / m;
    assert m * d == x % m - j;
    assert d >= 1 ==> m * d >= m;
    assert d <= -1 ==> m * d + m <= 0;
  }

  lemma {:induction false} IterationsFrom(step: Step, reply: nat -> Reply, k: nat, selected: bool, l: nat)
    requires step.receives && TimesOut(reply, k, selected) && l < step.loopCount
    ensures k <= Spare(step, Counters(l, 0, 0), selected) ==>
              Course(step, reply, l * (k + 1), Counters(l, 0, 0)) == (Finished, step.loopCount * (k + 1))
    ensures k > Spare(step, Counters(l, 0, 0), selected) ==>
              Course(step, reply, l * (k + 1), Counters(l, 0, 0)) ==
              (Failing(StepFailed), l * (k + 1) + Spare(step, Counters(l, 0, 0), selected) + 1)
    decreases step.loopCount - l
  {
    hide Course, AfterLast;
    var n := l * (k + 1);
    forall x: nat | n <= x < n + k
      ensures Resent(reply(x)) && reply(x).selected == selected
    {
      Position(l, x - n, k + 1);
    }
    Position(l, k, k + 1);
    TimeoutsFrom(step, reply, n, Counters(l, 0, 0), k, selected);
    if k <= Spare(step, Counters(l, 0, 0), selected) {
      assert n + k + 1 == (l + 1) * (k + 1);
      AfterLastStep(step, reply, (l + 1) * (k + 1), l);
      if l + 1 < step.loopCount {
        IterationsFrom(step, reply, k, selected, l + 1);
      }
    }
  }

  /** The loop, retransmit and retry nest of `run_role`: it follows the phases of
      the interleaving model and stays within the attempt budget.  When every
      iteration times out `k` times, it gets through with as many attempts if the
      larger retransmit setting, and the retries if selected, cover `k`, and otherwise
      fails after as many as they allow. */
  method RunBody(step: Step, reply: nat -> Reply) returns (ending: Ending, attempts: nat)
    ensures attempts <= Budget(step)
    ensures forall k: nat, selected | step.receives && step.loopCount > 0 && TimesOut(reply, k, selected) ::
              var most := if step.retransmit > step.timerRetransmit then step.retransmit else step.timerRetransmit;
              var absorbed := most + if selected then step.retry else 0;
              (ending, attempts) ==
              if k <= absorbed then (Finished, step.loopCount * (k + 1)) else (Failing(StepFailed), absorbed + 1)
    ensures step.loopCount == 0 ==> ending == Finished && attempts == 0
    ensures step.loopCount > 0 ==> (ending, attempts) == Course(step, reply, 0, Counters(0, 0, 0))
  {
    hide Course, AfterLast;
    ghost var whole := if step.loopCount > 0 then Course(step, reply, 0, Counters(0, 0, 0)) else (Finished, 0);
    forall k: nat, selected | step.receives && step.loopCount > 0 && TimesOut(reply, k, selected)
      ensures var absorbed := Spare(step, Counters(0, 0, 0), selected);
              whole == if k <= absorbed then (Finished, step.loopCount * (k + 1)) else (Failing(StepFailed), absorbed + 1)
    {
      IterationsFrom(step, reply, k, selected, 0);
    }
    hide TimesOut;
    attempts := 0;
    for loops := 0 to step.loopCount
      invariant attempts <= loops * PerLoop(step)
      invariant loops < step.loopCount ==> whole == Course(step, reply, attempts, Counters(loops, 0, 0))
      invariant loops == step.loopCount ==> whole == (Finished, attempts)
    {
      var resends, retries := 0, 0;
      var done := false;
      ghost var start := attempts;
      while !done
        invariant CountersOk(step, Counters(loops, resends, retries))
        invariant attempts == start + resends + retries + if done then 1 else 0
        invariant !done ==> whole == Course(step, reply, attempts, Counters(loops, resends, retries))
        invariant done ==> whole == AfterLast(step, reply, attempts, loops)
        decreases !done, Resends(step) - resends + step.retry - retries
      {
        CourseStep(step, reply, attempts, Counters(loops, resends, retries));
        var answer := reply(attempts);
        attempts := attempts + 1;
        SpentBelowBudget(step, Counters(loops, resends, retries));
        if answer.result.Done? {
          done := true;
        } else if resends < Resends(step) && step.receives && answer.result.TimedOut? && answer.canResend {
          if !answer.sent {
            return Failing(RetransmitFailed), attempts;
          }
          resends := resends + 1;
        } else if retries < step.retry && answer.selected {
          retries := retries + 1;
        } else {
          return Failing(StepFailed), attempts;
        }
      }
      assert (loops + 1) * PerLoop(step) == loops * PerLoop(step) + PerLoop(step);
      MulMono(loops + 1, step.loopCount, PerLoop(step));
      AfterLastStep(step, reply, attempts, loops);
      if reply(attempts).late {
        return Late, attempts;
      }
    }
    ending := Finished;
  }

  // ------------------------------------------------------------------
  // The end of a step
  // ------------------------------------------------------------------

  /** The phases a thread goes through once its attempts have ended, when the trace
      has or has no room for one more event. */
  function Closing(ending: Ending, counter: nat, room: bool): seq<Phase> {
    match ending
    case Finished => [Mark(Succeeded, INITIAL_STATE)]
    case Late => [Stop(true), Mark(Failed, INITIAL_STATE)]
    case Failing(kind) =>
      [Emit(1, ThenFail(kind)),
       if room then Push(counter, 0, ThenFail(kind)) else Overflow(0, ThenFail(kind)),
       Emit(0, ThenFail(kind)), Fail(kind), Mark(Failed, INITIAL_STATE)]
  }

  /** The shared state after these phases of the model. */
  ghost function Shares(c: Config, r: nat, i: nat, phases: seq<Phase>, sh: Shared): Shared
    decreases |phases|
  {
    if phases == [] then sh
    else StepShared(c, r, i, Thread(0, INITIAL_STATE, phases[|phases| - 1]), Shares(c, r, i, phases[..|phases| - 1], sh))
  }

  /** These are the model's phases one after the other. */
  lemma ClosingIsCourse(c: Config, r: nat, step: Step, t: Thread, sh: Shared, kind: FailureKind, ch: Choice)
    requires t.phase == Emit(1, ThenFail(kind))
    ensures var next := Closing(Failing(kind), sh.counter, sh.counter < c.maxTrace);
            var two := StepThread(c, r, step, t, sh, ch);
            var three := StepThread(c, r, step, two, sh, ch);
            var four := StepThread(c, r, step, three, sh, ch);
            t.phase == next[0] && two.phase == next[1] && three.phase == next[2] && four.phase == next[3]
  {
  }

  lemma LateIsCourse(c: Config, r: nat, step: Step, t: Thread, sh: Shared, ch: Choice)
    requires t.phase == Closing(Late, sh.counter, sh.counter < c.maxTrace)[0]
    ensures StepThread(c, r, step, t, sh, ch).phase == Mark(Failed, t.state)
    ensures Closing(Late, sh.counter, sh.counter < c.maxTrace)[1] == Mark(Failed, INITIAL_STATE)
  {
  }

  /** Runs the attempts at a step and records how they ended, no other thread
      intervening: the step is done, and a failure is on record unless an earlier
      one was. */
  method RunStep(sim: Sim, c: Config, r: nat, i: nat, step: Step, reply: nat -> Reply) returns (ending: Ending, attempts: nat)
    requires c.maxTrace == sim.maxTrace && step.loopCount > 0
    modifies sim
    ensures (ending, attempts) == Course(step, reply, 0, Counters(0, 0, 0)) && attempts <= Budget(step)
    ensures sim.View() == Shares(c, r, i, Closing(ending, old(sim.counter), old(sim.counter) < c.maxTrace), old(sim.View()))
    ensures i in sim.completed && (ending.Finished? ==> sim.error == old(sim.error)) && (!ending.Finished? ==> sim.error.Some?)
  {
    hide Course, Budget;
    ending, attempts := RunBody(step, reply);
    ghost var start := sim.View();
    var phases := Closing(ending, sim.counter, sim.counter < c.maxTrace);
    var k := 0;
    while k < |phases|
      invariant 0 <= k <= |phases|
      invariant sim.View() == Shares(c, r, i, phases[..k], start)
      invariant k < |phases| || i in sim.completed
      invariant ending.Finished? ==> sim.error == start.error
      invariant !ending.Finished? && k == |phases| ==> sim.error.Some?
      invariant !ending.Finished? && k == |phases| - 1 ==> sim.error.Some?
    {
      assert phases[..k + 1][..k] == phases[..k];
      sim.Atomic(c, r, i, Thread(0, INITIAL_STATE, phases[k]));
      k := k + 1;
    }
    assert phases[..k] == phases;
  }
}
