/** The attempts at a step in runs of the interleaving model: whatever the environment
    answers, some run takes that course, and the attempt budget is reached. */
module AttemptRuns {
  import opened Protocols
  import opened ModelChecker
  import opened Engine
  import opened Scheduler
  import opened Progress
  import opened SimObject

  /** A run that ends with thread `r` in state `t` at step `i`, the other threads being
      those of `rest`, after `a` attempts at the step. */
  ghost predicate Holding(c: Config, run: seq<Sys>, rest: seq<Thread>, r: nat, t: Thread, i: nat, a: int) {
    && IsRun(c, run) && r < |rest| == |c.m.roles| && run[|run| - 1].threads == rest[r := t]
    && t.pos < |Steps(c, r)| && Steps(c, r)[t.pos] == i && i < |c.m.steps|
    && Attempts(run[|run| - 1].history, i) == a
  }

  function ChoiceOf(a: Reply): Choice {
    Choice(a.late, true, Some(true), 0, a.result, a.canResend, a.selected, a.sent)
  }

  predicate Inside(p: Phase) {
    p.Attempt? || p.Emit? || p.Push? || p.Overflow? || p.LoopCheck?
  }

  lemma Move(c: Config, run: seq<Sys>, rest: seq<Thread>, r: nat, t: Thread, i: nat, a: int, reply: Reply)
    returns (run': seq<Sys>, t': Thread)
    requires Holding(c, run, rest, r, t, i, a) && Inside(t.phase)
    ensures t' == StepThread(c, r, c.m.steps[i], t, run[|run| - 1].shared, ChoiceOf(reply))
    ensures t'.pos == t.pos ==> Holding(c, run', rest, r, t', i, a + if t.phase.Attempt? then 1 else 0)
    ensures run <= run'
  {
    var s, ch := run[|run| - 1], ChoiceOf(reply);
    assert s.threads[r] == t && Fires(c, s, r, ch);
    ExtendRun(c, run, r, ch);
    run' := run + [Do(c, s, r, ch)];
    t' := StepThread(c, r, c.m.steps[i], t, s.shared, ch);
    hide Steps, CanStep, StepThread;
    assert s.threads[r := t'] == rest[r := t'];
  }

  /** One event more or less recorded leads on. */
  lemma Recorded(c: Config, run: seq<Sys>, rest: seq<Thread>, r: nat, t: Thread, i: nat, a: int, reply: Reply)
    returns (run': seq<Sys>)
    requires Holding(c, run, rest, r, t, i, a) && t.phase.Emit? && t.phase.left == 1
    ensures Holding(c, run', rest, r, t.(phase := Emit(0, t.phase.next)), i, a) && run <= run'
  {
    assert i < |c.m.steps|;
    hide Holding, Resends;
    var t1, t2;
    run', t1 := Move(c, run, rest, r, t, i, a, reply);
    run', t2 := Move(c, run', rest, r, t1, i, a, reply);
  }

  function NextPhase(step: Step, state: string, next: Next, reply: Reply): Phase {
    var p := Continue(step, state, next, ChoiceOf(reply));
    if p.Emit? then Emit(0, p.next) else p
  }

  /** What follows the recording of events, up to the next time events are recorded. */
  lemma Follow(c: Config, run: seq<Sys>, rest: seq<Thread>, r: nat, t: Thread, i: nat, a: int, reply: Reply)
    returns (run': seq<Sys>)
    requires Holding(c, run, rest, r, t, i, a) && t.phase.Emit? && t.phase.left == 0
    ensures Holding(c, run', rest, r, t.(phase := NextPhase(c.m.steps[i], t.state, t.phase.next, reply)), i, a) && run <= run'
  {
    assert i < |c.m.steps|;
    hide Holding, Resends;
    var t1;
    run', t1 := Move(c, run, rest, r, t, i, a, reply);
    if t1.phase.Emit? && t1.phase.left == 1 {
      run' := Recorded(c, run', rest, r, t1, i, a, reply);
    }
  }

  /** One attempt and what follows it, up to the next attempt or the end. */
  lemma AttemptRun(c: Config, run: seq<Sys>, rest: seq<Thread>, r: nat, t: Thread, i: nat, a: int, reply: Reply)
    returns (run': seq<Sys>)
    requires Holding(c, run, rest, r, t, i, a) && t.phase.Attempt?
    ensures Holding(c, run', rest, r, t.(phase := AfterAttempt(c.m.steps[i], t.phase.c, reply)), i, a + 1) && run <= run'
  {
    assert i < |c.m.steps|;
    hide Holding, Resends;
    var t1;
    run', t1 := Move(c, run, rest, r, t, i, a, reply);
    var step := c.m.steps[i];
    run' := Follow(c, run', rest, r, t1, i, a + 1, reply);
    var t2 := t1.(phase := NextPhase(step, t.state, t1.phase.next, reply));
    if t2.phase.Emit? {
      run' := Follow(c, run', rest, r, t2, i, a + 1, reply);
      var t3 := t2.(phase := NextPhase(step, t.state, t2.phase.next, reply));
      if t3.phase.Emit? {
        run' := Follow(c, run', rest, r, t3, i, a + 1, reply);
        var t4 := t3.(phase := NextPhase(step, t.state, t3.phase.next, reply));
        if t4.phase.Emit? {
          run' := Follow(c, run', rest, r, t4, i, a + 1, reply);
        }
      }
    }
  }

  /** The thread once the attempts at its step have ended. */
  function Ended(step: Step, t: Thread, ending: Ending): Thread {
    match ending
    case Finished =>
      t.(state := if step.toState.Some? then step.toState.value else t.state, phase := Mark(Succeeded, t.state))
    case Failing(kind) => t.(phase := Fail(kind))
    case Late => t.(phase := Stop(true))
  }

  /** The course of the loop nest, read off the phase that follows the attempt. */
  lemma CoursePhase(step: Step, reply: nat -> Reply, n: nat, c: Counters)
    requires CountersOk(step, c)
    ensures var next := AfterAttempt(step, c, reply(n));
            match next
            case Attempt(c') =>
              && CountersOk(step, c') && c'.loops == c.loops && c'.resends + c'.retries == c.resends + c.retries + 1
              && Course(step, reply, n, c) == Course(step, reply, n + 1, c')
            case LoopCheck(c') => c' == c && Course(step, reply, n, c) == AfterLast(step, reply, n + 1, c.loops)
            case Fail(kind) => Course(step, reply, n, c) == (Failing(kind), n + 1)
            case _ => false
  {
  }

  /** From any state in which a thread attempts a step, for all answers of the
      environment, some run takes exactly the course of the loop nest. */
  lemma {:induction false} CourseRun(c: Config, run: seq<Sys>, rest: seq<Thread>, r: nat, t: Thread, i: nat, a: int,
                                     reply: nat -> Reply, n: nat)
    returns (run': seq<Sys>)
    requires Holding(c, run, rest, r, t, i, a) && t.phase.Attempt? && CountersOk(c.m.steps[i], t.phase.c)
    ensures var end := Course(c.m.steps[i], reply, n, t.phase.c);
            Holding(c, run', rest, r, Ended(c.m.steps[i], t, end.0), i, a + end.1 - n)
    ensures run <= run'
    decreases c.m.steps[i].loopCount - t.phase.c.loops,
              Resends(c.m.steps[i]) - t.phase.c.resends + c.m.steps[i].retry - t.phase.c.retries, 1
  {
    assert i < |c.m.steps|;
    var step, cn := c.m.steps[i], t.phase.c;
    hide Holding, Course, AfterLast, AfterAttempt, Resends;
    CoursePhase(step, reply, n, cn);
    run' := AttemptRun(c, run, rest, r, t, i, a, reply(n));
    var t' := t.(phase := AfterAttempt(step, cn, reply(n)));
    if t'.phase.Attempt? {
      run' := CourseRun(c, run', rest, r, t', i, a + 1, reply, n + 1);
    } else if t'.phase.LoopCheck? {
      run' := AfterLastRun(c, run', rest, r, t', i, a + 1, reply, n + 1);
    }
  }

  lemma {:induction false} AfterLastRun(c: Config, run: seq<Sys>, rest: seq<Thread>, r: nat, t: Thread, i: nat, a: int,
                                        reply: nat -> Reply, n: nat)
    returns (run': seq<Sys>)
    requires Holding(c, run, rest, r, t, i, a) && t.phase.LoopCheck? && t.phase.c.loops < c.m.steps[i].loopCount
    ensures var end := AfterLast(c.m.steps[i], reply, n, t.phase.c.loops);
            Holding(c, run', rest, r, Ended(c.m.steps[i], t, end.0), i, a + end.1 - n)
    ensures run <= run'
    decreases c.m.steps[i].loopCount - t.phase.c.loops, 0, 0
  {
    assert i < |c.m.steps|;
    var step, cn := c.m.steps[i], t.phase.c;
    hide Holding, Course, AfterLast, Resends;
    AfterLastStep(step, reply, n, cn.loops);
    var t';
    run', t' := Move(c, run, rest, r, t, i, a, reply(n));
    if t'.phase.Attempt? {
      run' := CourseRun(c, run', rest, r, t', i, a, reply, n);
    }
  }

  /** The attempt budget is reached in runs: timed out as often as the settings
      absorb in every iteration, the step still succeeds, after exactly
      loop * (1 + max(retransmit, timer retransmit) + retry) attempts. */
  lemma BudgetReached(c: Config, run: seq<Sys>, rest: seq<Thread>, r: nat, t: Thread, i: nat, k: nat, selected: bool)
    returns (run': seq<Sys>)
    requires Holding(c, run, rest, r, t, i, 0) && t.phase == Attempt(Counters(0, 0, 0))
    requires c.m.steps[i].receives && c.m.steps[i].loopCount > 0
    ensures run <= run'
    ensures var step := c.m.steps[i];
            var most := if step.retransmit > step.timerRetransmit then step.retransmit else step.timerRetransmit;
            var absorbed := most + if selected then step.retry else 0;
            if k <= absorbed then Holding(c, run', rest, r, Ended(step, t, Finished), i, step.loopCount * (k + 1))
            else Holding(c, run', rest, r, Ended(step, t, Failing(StepFailed)), i, absorbed + 1)
  {
    assert CountersOk(c.m.steps[i], Counters(0, 0, 0));
    assert i < |c.m.steps|;
    hide Holding, Course;
    var reply := (x: nat) =>
      if x % (k + 1) < k then Reply(TimedOut, true, selected, true, false) else Reply(Done, true, selected, true, false);
    IterationsFrom(c.m.steps[i], reply, k, selected, 0);
    run' := CourseRun(c, run, rest, r, t, i, 0, reply, 0);
  }
}
