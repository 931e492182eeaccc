/** What every interleaving of the engine's threads keeps. */
module Scheduler {
  import opened Protocols
  import opened Collections
  import opened ModelChecker
  import opened Engine

  // ------------------------------------------------------------------
  // Runs
  // ------------------------------------------------------------------

  ghost predicate Shape(c: Config, s: Sys) {
    |s.threads| == |c.m.roles|
  }

  ghost predicate StepsTo(c: Config, s: Sys, s': Sys) {
    exists r: nat, ch :: Fires(c, s, r, ch) && s' == Do(c, s, r, ch)
  }

  ghost predicate Fires(c: Config, s: Sys, r: nat, ch: Choice) {
    Shape(c, s) && r < |s.threads| && CanStep(c, s, r, ch)
  }

  /** `run` starts in the initial state and every state steps to the next. */
  ghost predicate IsRun(c: Config, run: seq<Sys>) {
    && |run| > 0
    && run[0] == Start(c)
    && forall i :: 0 <= i < |run| - 1 ==> StepsTo(c, run[i], run[i + 1])
  }

  ghost predicate Reached(c: Config, s: Sys) {
    exists run :: IsRun(c, run) && run[|run| - 1] == s
  }

  ghost predicate AllExited(s: Sys) {
    forall r :: 0 <= r < |s.threads| ==> s.threads[r].phase.Exited?
  }

  lemma RunPrefix(c: Config, run: seq<Sys>)
    requires IsRun(c, run) && |run| > 1
    ensures IsRun(c, run[..|run| - 1])
    ensures StepsTo(c, run[|run| - 2], run[|run| - 1])
  {
    var p := run[..|run| - 1];
    forall i | 0 <= i < |p| - 1
      ensures StepsTo(c, p[i], p[i + 1])
    {
      assert StepsTo(c, run[i], run[i + 1]);
    }
  }

  lemma ExtendRun(c: Config, run: seq<Sys>, r: nat, ch: Choice)
    requires IsRun(c, run) && Fires(c, run[|run| - 1], r, ch)
    ensures IsRun(c, run + [Do(c, run[|run| - 1], r, ch)])
  {
    hide Do, CanStep;
    var longer := run + [Do(c, run[|run| - 1], r, ch)];
    forall i | 0 <= i < |longer| - 1
      ensures StepsTo(c, longer[i], longer[i + 1])
    {
      if i < |run| - 1 {
        assert StepsTo(c, run[i], run[i + 1]);
      }
    }
  }

  // ------------------------------------------------------------------
  // Role step lists
  // ------------------------------------------------------------------

  lemma {:induction false} RoleStepsElements(m: Model, role: string, n: nat)
    requires n <= |m.steps|
    ensures forall i: nat :: i in RoleSteps(m, role, n) <==> i < n && m.steps[i].role == role
    ensures forall a, b :: 0 <= a < b < |RoleSteps(m, role, n)| ==> RoleSteps(m, role, n)[a] < RoleSteps(m, role, n)[b]
  {
    if n > 0 {
      RoleStepsElements(m, role, n - 1);
      var before := RoleSteps(m, role, n - 1);
      forall a | 0 <= a < |before|
        ensures before[a] < n - 1
      {
        assert before[a] in before;
      }
    }
  }

  /** The `k`-th step of role `r`. */
  lemma StepOfRole(c: Config, r: nat, k: nat)
    requires r < |c.m.roles| && k < |Steps(c, r)|
    ensures Steps(c, r)[k] < |c.m.steps| && c.m.steps[Steps(c, r)[k]].role == c.m.roles[r]
  {
    RoleStepsElements(c.m, c.m.roles[r], |c.m.steps|);
    assert Steps(c, r)[k] in Steps(c, r);
  }

  lemma StepsIncrease(c: Config, r: nat, a: nat, b: nat)
    requires r < |c.m.roles| && a < b < |Steps(c, r)|
    ensures Steps(c, r)[a] < Steps(c, r)[b]
  {
    RoleStepsElements(c.m, c.m.roles[r], |c.m.steps|);
  }

  /** Lists of different roles share no step. */
  lemma RolesAreDisjoint(c: Config, r: nat, r': nat, k: nat, k': nat)
    requires Distinct(c.m.roles) && r < |c.m.roles| && r' < |c.m.roles| && r != r'
    requires k < |Steps(c, r)| && k' < |Steps(c, r')|
    ensures Steps(c, r)[k] != Steps(c, r')[k']
  {
    StepOfRole(c, r, k);
    StepOfRole(c, r', k');
  }

  // ------------------------------------------------------------------
  // Where each thread stands
  // ------------------------------------------------------------------

  /** The thread is past the dependency and failure tests of its current step. */
  predicate Running(p: Phase) {
    match p
    case Top => false
    case Waiting => false
    case Checking => false
    case Exited => false
    case Stop(mark) => mark
    case _ => true
  }

  ghost predicate PositionOk(c: Config, sh: Shared, h: History, r: nat, t: Thread)
    requires r < |c.m.roles|
  {
    var l := Steps(c, r);
    && t.pos <= |l|
    && (t.pos == |l| ==> t.phase.Top? || t.phase.Exited?)
    && (forall k :: 0 <= k < t.pos ==> l[k] in sh.completed && l[k] in h.started)
    && (forall k :: t.pos < k < |l| ==> l[k] !in sh.completed && l[k] !in h.started)
    && (t.pos < |l| && !t.phase.Exited? ==> l[t.pos] !in sh.completed && (l[t.pos] in h.started <==> Running(t.phase)))
    && (t.pos < |l| && t.phase.Exited? ==> sh.error.Some? && (l[t.pos] in sh.completed <==> l[t.pos] in h.started))
  }

  ghost predicate PhaseOk(c: Config, sh: Shared, r: nat, t: Thread)
    requires r < |c.m.roles|
  {
    && (t.phase.Mark? && t.phase.outcome.Failed? ==> sh.error.Some?)
    && (t.phase.Mark? ==> !t.phase.outcome.External?)
    && (t.phase.Checking? && t.pos < |Steps(c, r)| && Steps(c, r)[t.pos] < |c.m.steps| ==>
          DeclaredDone(c.m, Steps(c, r)[t.pos], sh.completed))
  }

  /** An inactive role has no thread; its steps count as complete. */
  ghost predicate InactiveOk(c: Config, sh: Shared, h: History, r: nat, t: Thread)
    requires r < |c.m.roles|
  {
    t.phase.Exited? && forall k :: 0 <= k < |Steps(c, r)| ==> Steps(c, r)[k] in sh.completed && Steps(c, r)[k] !in h.started
  }

  ghost predicate ThreadOk(c: Config, sh: Shared, h: History, r: nat, t: Thread)
    requires r < |c.m.roles|
  {
    if c.m.roles[r] in c.active then PositionOk(c, sh, h, r, t) && PhaseOk(c, sh, r, t)
    else InactiveOk(c, sh, h, r, t)
  }

  ghost predicate ThreadsOk(c: Config, s: Sys)
    requires Shape(c, s)
  {
    forall r :: 0 <= r < |s.threads| ==> ThreadOk(c, s.shared, s.history, r, s.threads[r])
  }

  /** A failed step's failure is on record. */
  ghost predicate OutcomesOk(c: Config, s: Sys) {
    && s.history.outcome.Keys == s.shared.completed
    && (forall i :: i in s.shared.completed ==> i < |c.m.steps|)
    && (forall i :: i in s.shared.completed && s.history.outcome[i].Failed? ==> s.shared.error.Some?)
    && forall i :: i in s.shared.completed && s.history.outcome[i].External? ==> c.m.steps[i].role !in c.active
  }

  /** Dependency `d` has ended well, or belongs to a role run elsewhere. */
  ghost predicate Released(s: Sys, d: nat) {
    d in s.shared.completed && d in s.history.outcome && !s.history.outcome[d].Failed?
  }

  ghost predicate StartsOk(c: Config, s: Sys)
    requires PlannedModel(c.m)
  {
    forall i :: i in s.history.started ==>
      i < |c.m.steps| && c.m.steps[i].role in c.active && forall d :: d in c.m.deps[i] ==> Released(s, d)
  }

  ghost predicate Inv(c: Config, s: Sys)
    requires PlannedModel(c.m)
  {
    Shape(c, s) && ThreadsOk(c, s) && OutcomesOk(c, s) && StartsOk(c, s)
  }

  // ------------------------------------------------------------------
  // Preservation
  // ------------------------------------------------------------------

  lemma InitialInv(c: Config)
    requires PlannedModel(c.m)
    ensures Inv(c, Start(c))
  {
    var s := Start(c);
    forall r | 0 <= r < |s.threads|
      ensures ThreadOk(c, s.shared, s.history, r, s.threads[r])
    {
      forall k | 0 <= k < |Steps(c, r)|
        ensures Steps(c, r)[k] in s.shared.completed <==> c.m.roles[r] !in c.active
      {
        StepOfRole(c, r, k);
      }
    }
  }

  /** The thread `r` that takes the step, its current step and its new state. */
  lemma StepView(c: Config, s: Sys, r: nat, ch: Choice)
    requires PlannedModel(c.m) && Inv(c, s) && Fires(c, s, r, ch)
    ensures c.m.roles[r] in c.active
    ensures var t := s.threads[r];
            if t.pos == |Steps(c, r)| then t.phase.Top? && Do(c, s, r, ch) == s.(threads := s.threads[r := Leave(t)])
            else
              && t.pos < |Steps(c, r)|
              && Steps(c, r)[t.pos] < |c.m.steps|
              && Do(c, s, r, ch) == DoAt(c, s, r, ch, Steps(c, r)[t.pos])
  {
    assert ThreadOk(c, s.shared, s.history, r, s.threads[r]);
    if s.threads[r].pos < |Steps(c, r)| {
      StepOfRole(c, r, s.threads[r].pos);
    }
  }

  ghost function DoAt(c: Config, s: Sys, r: nat, ch: Choice, i: nat): Sys
    requires r < |s.threads| && i < |c.m.steps|
  {
    var t := s.threads[r];
    var t' := StepThread(c, r, c.m.steps[i], t, s.shared, ch);
    Sys(StepShared(c, r, i, t, s.shared), s.threads[r := t'], StepHistory(i, t, t', s.history))
  }

  /** How far one step can change what other threads see. */
  lemma SharedGrows(c: Config, r: nat, i: nat, t: Thread, t': Thread, sh: Shared, h: History)
    ensures var sh' := StepShared(c, r, i, t, sh); var h' := StepHistory(i, t, t', h);
            && sh.completed <= sh'.completed <= sh.completed + {i}
            && h.started <= h'.started <= h.started + {i}
            && (sh.error.Some? ==> sh'.error == sh.error)
            && sh.counter <= sh'.counter
  {
  }

  lemma OtherThreadKept(c: Config, s: Sys, r: nat, ch: Choice, r': nat)
    requires PlannedModel(c.m) && Inv(c, s) && Fires(c, s, r, ch) && r' < |s.threads| && r' != r
    requires s.threads[r].pos < |Steps(c, r)| && Steps(c, r)[s.threads[r].pos] < |c.m.steps|
    ensures var s' := DoAt(c, s, r, ch, Steps(c, r)[s.threads[r].pos]);
            ThreadOk(c, s'.shared, s'.history, r', s'.threads[r'])
  {
    hide StepThread, StepShared, StepHistory, StartsOk, OutcomesOk, Steps;
    var i := Steps(c, r)[s.threads[r].pos];
    var s' := DoAt(c, s, r, ch, i);
    SharedGrows(c, r, i, s.threads[r], s'.threads[r], s.shared, s.history);
    assert ThreadOk(c, s.shared, s.history, r', s.threads[r']);
    forall k | 0 <= k < |Steps(c, r')|
      ensures Steps(c, r')[k] != i
    {
      RolesAreDisjoint(c, r, r', s.threads[r].pos, k);
    }
  }

  lemma OwnThreadKept(c: Config, s: Sys, r: nat, ch: Choice)
    requires PlannedModel(c.m) && Inv(c, s) && Fires(c, s, r, ch)
    requires s.threads[r].pos < |Steps(c, r)| && Steps(c, r)[s.threads[r].pos] < |c.m.steps|
    requires c.m.roles[r] in c.active
    ensures var s' := DoAt(c, s, r, ch, Steps(c, r)[s.threads[r].pos]);
            ThreadOk(c, s'.shared, s'.history, r, s'.threads[r])
  {
    hide StartsOk, OutcomesOk, Steps, Resends;
    var t := s.threads[r];
    var i := Steps(c, r)[t.pos];
    var s' := DoAt(c, s, r, ch, i);
    assert ThreadOk(c, s.shared, s.history, r, t);
    SharedGrows(c, r, i, t, s'.threads[r], s.shared, s.history);
    forall k | 0 <= k < |Steps(c, r)| && k != t.pos
      ensures Steps(c, r)[k] != i
    {
      if k < t.pos {
        StepsIncrease(c, r, k, t.pos);
      } else {
        StepsIncrease(c, r, t.pos, k);
      }
    }
  }

  lemma ThreadsKept(c: Config, s: Sys, r: nat, ch: Choice)
    requires PlannedModel(c.m) && Inv(c, s) && Fires(c, s, r, ch)
    ensures Shape(c, Do(c, s, r, ch)) && ThreadsOk(c, Do(c, s, r, ch))
  {
    hide ThreadOk, OutcomesOk, StartsOk, CanStep, StepThread, StepShared, StepHistory;
    StepView(c, s, r, ch);
    var s' := Do(c, s, r, ch);
    var t := s.threads[r];
    forall r' | 0 <= r' < |s'.threads|
      ensures ThreadOk(c, s'.shared, s'.history, r', s'.threads[r'])
    {
      if t.pos == |Steps(c, r)| {
        assert ThreadOk(c, s.shared, s.history, r', s.threads[r']);
        if r' == r {
          LeavingKept(c, s.shared, s.history, r, t);
        }
      } else if r' == r {
        OwnThreadKept(c, s, r, ch);
      } else {
        OtherThreadKept(c, s, r, ch, r');
      }
    }
  }

  lemma LeavingKept(c: Config, sh: Shared, h: History, r: nat, t: Thread)
    requires r < |c.m.roles| && ThreadOk(c, sh, h, r, t) && t.pos == |Steps(c, r)| && c.m.roles[r] in c.active
    ensures ThreadOk(c, sh, h, r, Leave(t))
  {
  }

  lemma OutcomesKept(c: Config, s: Sys, r: nat, ch: Choice)
    requires PlannedModel(c.m) && Inv(c, s) && Fires(c, s, r, ch)
    ensures OutcomesOk(c, Do(c, s, r, ch))
  {
    hide StartsOk, PlannedModel, CanStep, StepThread, Steps;
    StepView(c, s, r, ch);
    assert ThreadOk(c, s.shared, s.history, r, s.threads[r]);
  }

  /** When the failure test passes, everything the step depends on is released. */
  lemma StartIsReleased(c: Config, s: Sys, r: nat, d: nat)
    requires PlannedModel(c.m) && Inv(c, s) && r < |s.threads| && c.m.roles[r] in c.active
    requires s.threads[r].phase.Checking? && s.shared.error.None?
    requires s.threads[r].pos < |Steps(c, r)| && Steps(c, r)[s.threads[r].pos] < |c.m.steps|
    requires d in c.m.deps[Steps(c, r)[s.threads[r].pos]]
    ensures Released(s, d)
  {
    hide StartsOk;
    var t := s.threads[r];
    var i := Steps(c, r)[t.pos];
    assert ThreadOk(c, s.shared, s.history, r, t);
    if c.m.steps[d].name !in c.m.steps[i].dependsOn {
      assert PreviousInPlan(c.m, d, i);
      var k := EarlierPosition(c, r, t.pos, d);
    }
    assert d in s.shared.completed;
  }

  /** An earlier step of the same role stands earlier in the role's list. */
  lemma EarlierPosition(c: Config, r: nat, at: nat, d: nat) returns (k: nat)
    requires r < |c.m.roles| && at < |Steps(c, r)| && Steps(c, r)[at] < |c.m.steps| && d < Steps(c, r)[at]
    requires c.m.steps[d].role == c.m.steps[Steps(c, r)[at]].role
    ensures k < at && Steps(c, r)[k] == d
  {
    RoleStepsElements(c.m, c.m.roles[r], |c.m.steps|);
    StepOfRole(c, r, at);
    assert d in Steps(c, r);
    k :| 0 <= k < |Steps(c, r)| && Steps(c, r)[k] == d;
  }

  lemma StartsKept(c: Config, s: Sys, r: nat, ch: Choice)
    requires PlannedModel(c.m) && Inv(c, s) && Fires(c, s, r, ch)
    ensures StartsOk(c, Do(c, s, r, ch))
  {
    assert |c.m.deps| == |c.m.steps| && !s.threads[r].phase.Exited?;
    hide CanStep, StepThread, PlannedModel, Steps;
    StepView(c, s, r, ch);
    var s' := Do(c, s, r, ch);
    var t := s.threads[r];
    assert ThreadOk(c, s.shared, s.history, r, t);
    if t.pos < |Steps(c, r)| {
      var i := Steps(c, r)[t.pos];
      StepOfRole(c, r, t.pos);
      forall d | Released(s, d)
        ensures Released(s', d)
      {
        assert d != i;
      }
      forall j | j in s'.history.started
        ensures j < |c.m.steps| && c.m.steps[j].role in c.active && forall d :: d in c.m.deps[j] ==> Released(s', d)
      {
        if j !in s.history.started {
          StartedNow(c, s, r, ch, i);
          forall d | d in c.m.deps[j]
            ensures Released(s', d)
          {
            StartIsReleased(c, s, r, d);
          }
        }
      }
    }
  }

  lemma StartedNow(c: Config, s: Sys, r: nat, ch: Choice, i: nat)
    requires r < |s.threads| && i < |c.m.steps|
    requires DoAt(c, s, r, ch, i).history.started != s.history.started
    ensures s.threads[r].phase.Checking? && s.shared.error.None?
    ensures DoAt(c, s, r, ch, i).history.started == s.history.started + {i}
  {
  }

  lemma InvStep(c: Config, s: Sys, r: nat, ch: Choice)
    requires PlannedModel(c.m) && Inv(c, s) && Fires(c, s, r, ch)
    ensures Inv(c, Do(c, s, r, ch))
  {
    hide PlannedModel, ThreadsOk, OutcomesOk, StartsOk, Do, CanStep;
    ThreadsKept(c, s, r, ch);
    OutcomesKept(c, s, r, ch);
    StartsKept(c, s, r, ch);
  }

  lemma {:induction false} RunKeepsInv(c: Config, run: seq<Sys>)
    requires PlannedModel(c.m) && IsRun(c, run)
    ensures Inv(c, run[|run| - 1])
    decreases |run|
  {
    hide Inv, Do, PlannedModel, Start, CanStep;
    if |run| == 1 {
      InitialInv(c);
    } else {
      RunPrefix(c, run);
      RunKeepsInv(c, run[..|run| - 1]);
      var r: nat, ch :| Fires(c, run[|run| - 2], r, ch) && run[|run| - 1] == Do(c, run[|run| - 2], r, ch);
      InvStep(c, run[|run| - 2], r, ch);
    }
  }

  // ------------------------------------------------------------------
  // Dependency safety
  // ------------------------------------------------------------------

  /** In every interleaving, a step that has started has every dependency, declared
      or same-role, ended in success or skip, unless it belongs to an inactive
      role; a failed step never releases a dependent. */
  lemma StartedAfterDependencies(c: Config, s: Sys, i: nat, d: nat)
    requires PlannedModel(c.m) && Reached(c, s)
    requires i in s.history.started && i < |c.m.steps| && d in c.m.deps[i]
    ensures d in s.shared.completed && d in s.history.outcome
    ensures s.history.outcome[d].Succeeded? || s.history.outcome[d].Skipped?
            || (d < |c.m.steps| && c.m.steps[d].role !in c.active)
  {
    hide ThreadsOk;
    var run :| IsRun(c, run) && run[|run| - 1] == s;
    RunKeepsInv(c, run);
    assert Released(s, d);
  }

  /** The first failure is never cleared or replaced, and completed steps stay
      completed. */
  lemma FailureIsFinal(c: Config, s: Sys, r: nat, ch: Choice)
    requires Fires(c, s, r, ch)
    ensures s.shared.error.Some? ==> Do(c, s, r, ch).shared.error == s.shared.error
    ensures s.shared.completed <= Do(c, s, r, ch).shared.completed
    ensures s.shared.counter <= Do(c, s, r, ch).shared.counter
    ensures s.shared.trace <= Do(c, s, r, ch).shared.trace
  {
  }
}
