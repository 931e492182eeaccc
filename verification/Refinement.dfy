/** Engine runs refine the model checker's transition system: what a clean
    complete report promises holds of every failure-free run. */
module Refinement {
  import opened Protocols
  import opened Collections
  import opened ModelChecker
  import opened Explorer
  import opened Checker
  import opened Engine
  import opened Scheduler
  import Planner
  import Progress

  // ------------------------------------------------------------------
  // The planner's output is what the engine expects
  // ------------------------------------------------------------------

  lemma OrderWithinRole(steps: seq<Step>, ord: seq<nat>, a: nat, b: nat)
    requires Planner.Topological(steps, ord) && a < |ord| && b < |ord|
    requires steps[ord[a]].role == steps[ord[b]].role
    ensures a < b <==> ord[a] < ord[b]
  {
    if ord[a] < ord[b] {
      Planner.RolesKeepDeclarationOrder(steps, ord, a, b);
    } else if ord[b] < ord[a] {
      Planner.RolesKeepDeclarationOrder(steps, ord, b, a);
    }
  }

  lemma PlanPositionOf(steps: seq<Step>, ord: seq<nat>, j: nat) returns (k: nat)
    requires Planner.Topological(steps, ord) && j < |steps|
    ensures k < |ord| && ord[k] == j
  {
    Pigeonhole(ord, |steps|);
    assert j in ord;
    k :| 0 <= k < |ord| && ord[k] == j;
  }

  lemma PreviousAgrees(m: Model, protocol: Protocol, ord: seq<nat>, d: nat, i: nat)
    requires Represents(m, protocol, ord) && d < |ord| && i < |ord|
    ensures Planner.PreviousInRole(protocol.steps, ord[d], ord[i]) <==> PreviousInPlan(m, d, i)
  {
    var steps := protocol.steps;
    assert Planner.Topological(steps, ord);
    if steps[ord[d]].role == steps[ord[i]].role {
      OrderWithinRole(steps, ord, d, i);
      if Planner.PreviousInRole(steps, ord[d], ord[i]) {
        forall k | d < k < i
          ensures m.steps[k].role != m.steps[i].role
        {
          if steps[ord[k]].role == steps[ord[i]].role {
            OrderWithinRole(steps, ord, d, k);
            OrderWithinRole(steps, ord, k, i);
          }
        }
      }
      if PreviousInPlan(m, d, i) {
        forall j: nat | ord[d] < j < ord[i]
          ensures steps[j].role != steps[ord[i]].role
        {
          var k := PlanPositionOf(steps, ord, j);
          if steps[j].role == steps[ord[i]].role {
            OrderWithinRole(steps, ord, d, k);
            OrderWithinRole(steps, ord, k, i);
          }
        }
      }
    }
  }

  lemma RepresentedIsPlanned(m: Model, protocol: Protocol, ord: seq<nat>)
    requires Represents(m, protocol, ord) && KnownRoles(protocol)
    ensures PlannedModel(m)
  {
    RepresentedIsWellFormed(m, protocol, ord);
    var steps := protocol.steps;
    assert Planner.Topological(steps, ord);
    forall i, d: nat | 0 <= i < |m.steps| && d in m.deps[i]
      ensures d < i
    {
      assert DepsRepresent(m, steps, ord, i);
      assert ord[d] in ord[..i];
      var e :| 0 <= e < i && ord[..i][e] == ord[d];
    }
    forall i, d: nat | 0 <= i < |m.steps| && d < |m.steps|
      ensures d in m.deps[i] <==> PreviousInPlan(m, d, i) || m.steps[d].name in m.steps[i].dependsOn
    {
      assert DepsRepresent(m, steps, ord, i);
      PreviousAgrees(m, protocol, ord, d, i);
    }
  }

  // ------------------------------------------------------------------
  // What a thread's phase says about its step
  // ------------------------------------------------------------------

  predicate ExecutingNext(next: Next) {
    next.ThenResult? || next.ThenResend? || next.ThenResent? || next.ThenRetry?
  }

  predicate Executing(p: Phase) {
    match p
    case Attempt(_) => true
    case LoopCheck(_) => true
    case Emit(_, next) => ExecutingNext(next)
    case Push(_, _, next) => ExecutingNext(next)
    case Overflow(_, next) => ExecutingNext(next)
    case _ => false
  }

  predicate Skipping(p: Phase) {
    match p
    case Emit(_, next) => next.ThenSkip?
    case Push(_, _, next) => next.ThenSkip?
    case Overflow(_, next) => next.ThenSkip?
    case Mark(outcome, _) => outcome.Skipped?
    case _ => false
  }

  function Target(step: Step, state: string): string {
    if step.toState.Some? then step.toState.value else state
  }

  ghost predicate GuardOk(step: Step, t: Thread) {
    && (Executing(t.phase) ==> step.loopCount >= 1 && Allows(step.when, true) && StateAllows(step.fromState, t.state))
    && (Skipping(t.phase) ==> Allows(step.when, false) || step.loopCount == 0)
    && (t.phase.Mark? && t.phase.outcome.Succeeded? ==>
          step.loopCount >= 1 && Allows(step.when, true) && StateAllows(step.fromState, t.phase.before) && t.state == Target(step, t.phase.before))
    && (t.phase.Mark? && !t.phase.outcome.Succeeded? ==> t.state == t.phase.before)
  }

  lemma GuardStep(c: Config, r: nat, step: Step, t: Thread, sh: Shared, ch: Choice)
    requires GuardOk(step, t) && !t.phase.Mark?
    ensures GuardOk(step, StepThread(c, r, step, t, sh, ch))
  {
    hide Resends;
  }

  ghost predicate ThreadGuardOk(c: Config, r: nat, t: Thread)
    requires r < |c.m.roles|
  {
    t.pos < |Steps(c, r)| && Steps(c, r)[t.pos] < |c.m.steps| ==> GuardOk(c.m.steps[Steps(c, r)[t.pos]], t)
  }

  ghost predicate GuardsOk(c: Config, s: Sys)
    requires Shape(c, s)
  {
    forall r :: 0 <= r < |s.threads| ==> ThreadGuardOk(c, r, s.threads[r])
  }

  lemma GuardsStep(c: Config, s: Sys, r: nat, ch: Choice)
    requires PlannedModel(c.m) && Inv(c, s) && GuardsOk(c, s) && Fires(c, s, r, ch)
    ensures Shape(c, Do(c, s, r, ch)) && GuardsOk(c, Do(c, s, r, ch))
  {
    hide PlannedModel, Inv, CanStep, Steps, StepShared, StepHistory, StepThread;
    StepView(c, s, r, ch);
    assert ThreadGuardOk(c, r, s.threads[r]);
    var t := s.threads[r];
    var t' := Do(c, s, r, ch).threads[r];
    if t.pos < |Steps(c, r)| && !t.phase.Mark? {
      GuardStep(c, r, c.m.steps[Steps(c, r)[t.pos]], t, s.shared, ch);
      Progress.PosKept(c, r, c.m.steps[Steps(c, r)[t.pos]], t, s.shared, ch);
    } else if t.pos < |Steps(c, r)| {
      MarkedThread(c, r, c.m.steps[Steps(c, r)[t.pos]], t, s.shared, ch);
    }
    assert ThreadGuardOk(c, r, t');
  }

  lemma MarkedThread(c: Config, r: nat, step: Step, t: Thread, sh: Shared, ch: Choice)
    requires t.phase.Mark?
    ensures var t' := StepThread(c, r, step, t, sh, ch); (t'.phase.Top? || t'.phase.Exited?) && t'.state == t.state
  {
  }

  // ------------------------------------------------------------------
  // Every skip leaves an event
  // ------------------------------------------------------------------

  ghost predicate Logged(s: Sys, i: nat) {
    exists e :: e in s.shared.trace && e.running == i
  }

  /** A thread skipping its step records one event before it marks the step done. */
  ghost predicate ThreadLogOk(c: Config, s: Sys, r: nat)
    requires Shape(c, s) && r < |s.threads|
  {
    var t := s.threads[r];
    t.pos < |Steps(c, r)| && s.shared.error.None? ==>
      match t.phase
      case Emit(left, ThenSkip) => left == 1 || (left == 0 && Logged(s, Steps(c, r)[t.pos]))
      case Push(_, left, ThenSkip) => left == 0
      case Mark(Skipped, _) => Logged(s, Steps(c, r)[t.pos])
      case _ => true
  }

  ghost predicate LogsOk(c: Config, s: Sys)
    requires Shape(c, s)
  {
    forall r :: 0 <= r < |s.threads| ==> ThreadLogOk(c, s, r)
  }

  /** The schedule runs no loop=0 step, and each of its skips left an event. */
  ghost predicate Realized(m: Model, s: Sys, moves: seq<Move>) {
    && (forall mv :: mv in moves && mv.execute ==> mv.step < |m.steps| && m.steps[mv.step].loopCount >= 1)
    && (forall mv :: mv in moves && !mv.execute ==> Logged(s, mv.step))
  }

  lemma LogsStep(c: Config, s: Sys, r: nat, ch: Choice)
    requires PlannedModel(c.m) && Inv(c, s) && LogsOk(c, s) && Fires(c, s, r, ch)
    ensures Shape(c, Do(c, s, r, ch)) && LogsOk(c, Do(c, s, r, ch))
  {
    StepView(c, s, r, ch);
    FailureIsFinal(c, s, r, ch);
    hide PlannedModel, Inv, CanStep, Steps, Do;
    var s' := Do(c, s, r, ch);
    forall q | 0 <= q < |s'.threads|
      ensures ThreadLogOk(c, s', q)
    {
      assert ThreadLogOk(c, s, q);
      if q != r {
        OtherLogKept(c, s, s', q);
      } else {
        OwnLogKept(c, s, r, ch);
      }
    }
  }

  lemma OtherLogKept(c: Config, s: Sys, s': Sys, q: nat)
    requires Shape(c, s) && Shape(c, s') && q < |s.threads| && s'.threads[q] == s.threads[q] && ThreadLogOk(c, s, q)
    requires s.shared.trace <= s'.shared.trace && (s.shared.error.Some? ==> s'.shared.error.Some?)
    ensures ThreadLogOk(c, s', q)
  {
    hide Steps;
    var t := s.threads[q];
    if t.pos < |Steps(c, q)| && Logged(s, Steps(c, q)[t.pos]) {
      LoggedLater(s, s', Steps(c, q)[t.pos]);
    }
  }

  lemma OwnLogKept(c: Config, s: Sys, r: nat, ch: Choice)
    requires PlannedModel(c.m) && Inv(c, s) && Fires(c, s, r, ch) && ThreadLogOk(c, s, r)
    ensures Shape(c, Do(c, s, r, ch)) && ThreadLogOk(c, Do(c, s, r, ch), r)
  {
    StepView(c, s, r, ch);
    FailureIsFinal(c, s, r, ch);
    var t := s.threads[r];
    var s' := Do(c, s, r, ch);
    if t.pos < |Steps(c, r)| {
      var i := Steps(c, r)[t.pos];
      if Logged(s, i) {
        LoggedLater(s, s', i);
      }
      hide PlannedModel, Inv, CanStep, Steps, Resends, Do;
      OwnLogStep(c, s, r, ch, i);
    }
  }

  lemma OwnLogStep(c: Config, s: Sys, r: nat, ch: Choice, i: nat)
    requires Shape(c, s) && r < |s.threads| && i < |c.m.steps| && s.threads[r].pos < |Steps(c, r)|
    requires i == Steps(c, r)[s.threads[r].pos] && ThreadLogOk(c, s, r)
    requires Logged(s, i) ==> Logged(DoAt(c, s, r, ch, i), i)
    ensures ThreadLogOk(c, DoAt(c, s, r, ch, i), r)
  {
    hide Steps, Resends;
    var t := s.threads[r];
    var s' := DoAt(c, s, r, ch, i);
    if t.phase.Push? {
      assert s'.shared.trace[|s.shared.trace|] == Event(t.phase.seqNo, i);
      assert Logged(s', i);
    }
  }

  // ------------------------------------------------------------------
  // Projection
  // ------------------------------------------------------------------

  /** The role state before the `to_state` of a step not yet marked done. */
  function ProjectedState(t: Thread): string {
    if t.phase.Mark? then t.phase.before else t.state
  }

  ghost predicate Projects(c: Config, s: Sys, k: Key) {
    && Shape(c, s) && |k.completed| == |c.m.steps| && |k.roleStates| == |c.m.roles|
    && (forall i: nat :: i < |c.m.steps| ==> (k.completed[i] <==> i in s.shared.completed))
    && forall r :: 0 <= r < |c.m.roles| ==> k.roleStates[r] == ProjectedState(s.threads[r])
  }

  /** Every role has its thread. */
  ghost predicate FullyActive(c: Config) {
    forall r :: 0 <= r < |c.m.roles| ==> c.m.roles[r] in c.active
  }

  /** The engine skips a loop=0 step; the checker can follow if it may be skipped. */
  ghost predicate LoopsSkippable(m: Model) {
    forall i :: 0 <= i < |m.steps| && m.steps[i].loopCount == 0 ==> Allows(m.steps[i].when, false)
  }

  lemma PositionOfRole(m: Model, r: nat)
    requires WellFormed(m) && r < |m.roles|
    ensures Position(m.roles, m.roles[r]) == r
  {
  }

  lemma ProjectionKept(c: Config, r: nat, step: Step, t: Thread, sh: Shared, ch: Choice)
    requires !t.phase.Mark?
    ensures ProjectedState(StepThread(c, r, step, t, sh, ch)) == ProjectedState(t)
    ensures StepShared(c, r, 0, t, sh).completed == sh.completed
  {
    hide Resends;
  }

  lemma StutterKeepsProjection(c: Config, s: Sys, r: nat, ch: Choice, k: Key)
    requires PlannedModel(c.m) && Inv(c, s) && Fires(c, s, r, ch) && Projects(c, s, k)
    requires !s.threads[r].phase.Mark?
    ensures Projects(c, Do(c, s, r, ch), k)
  {
    StepView(c, s, r, ch);
    hide PlannedModel, Inv, CanStep, Steps, StepThread, StepHistory;
    var t := s.threads[r];
    if t.pos < |Steps(c, r)| {
      ProjectionKept(c, r, c.m.steps[Steps(c, r)[t.pos]], t, s.shared, ch);
    }
  }

  /** Marking a step done is a move of the checker. */
  lemma MarkIsMove(c: Config, s: Sys, r: nat, ch: Choice, k: Key) returns (mv: Move)
    requires PlannedModel(c.m) && LoopsSkippable(c.m) && Inv(c, s) && GuardsOk(c, s) && Fires(c, s, r, ch)
    requires s.threads[r].phase.Mark? && s.shared.error.None? && Fits(c.m, k) && Projects(c, s, k)
    ensures s.threads[r].pos < |Steps(c, r)| && mv == Move(Steps(c, r)[s.threads[r].pos], s.threads[r].phase.outcome.Succeeded?)
    ensures mv.execute || s.threads[r].phase.outcome.Skipped?
    ensures mv.step < |c.m.steps| && (mv.execute ==> c.m.steps[mv.step].loopCount >= 1)
    ensures Enabled(c.m, k, mv) && Projects(c, Do(c, s, r, ch), Apply(c.m, k, mv))
  {
    StepView(c, s, r, ch);
    var t := s.threads[r];
    assert ThreadOk(c, s.shared, s.history, r, t) && ThreadGuardOk(c, r, t);
    var i := Steps(c, r)[t.pos];
    StepOfRole(c, r, t.pos);
    PositionOfRole(c.m, r);
    assert i in s.history.started && i !in s.shared.completed;
    DepsDone(c, s, k, i);
    mv := Move(i, t.phase.outcome.Succeeded?);
    hide PlannedModel, Inv, CanStep, Steps;
    assert Enabled(c.m, k, mv);
    MarkProjects(c, s, r, ch, k, i, mv);
  }

  lemma DepsDone(c: Config, s: Sys, k: Key, i: nat)
    requires PlannedModel(c.m) && Inv(c, s) && Projects(c, s, k) && i in s.history.started && i < |c.m.steps|
    ensures forall d :: 0 <= d < |c.m.deps[i]| ==> k.completed[c.m.deps[i][d]]
  {
    hide ThreadsOk;
    forall d | 0 <= d < |c.m.deps[i]|
      ensures k.completed[c.m.deps[i][d]]
    {
      assert c.m.deps[i][d] in c.m.deps[i];
      assert Released(s, c.m.deps[i][d]);
    }
  }

  lemma MarkProjects(c: Config, s: Sys, r: nat, ch: Choice, k: Key, i: nat, mv: Move)
    requires WellFormed(c.m) && Fits(c.m, k) && Projects(c, s, k) && r < |s.threads| && i < |c.m.steps|
    requires s.threads[r].phase.Mark? && !s.threads[r].phase.outcome.Failed? && !s.threads[r].phase.outcome.External?
    requires mv == Move(i, s.threads[r].phase.outcome.Succeeded?) && c.m.steps[i].role == c.m.roles[r]
    requires Position(c.m.roles, c.m.roles[r]) == r && GuardOk(c.m.steps[i], s.threads[r])
    ensures Projects(c, DoAt(c, s, r, ch, i), Apply(c.m, k, mv))
  {
    var t := s.threads[r];
    var s' := DoAt(c, s, r, ch, i);
    var k' := Apply(c.m, k, mv);
    assert s'.threads[r] == t.(pos := t.pos + 1, phase := Top);
    assert s'.shared.completed == s.shared.completed + {i};
    hide Position, StateAllows, Allows, Reach;
    assert k'.completed == k.completed[i := true];
    forall q | 0 <= q < |c.m.roles|
      ensures k'.roleStates[q] == ProjectedState(s'.threads[q])
    {
      if q != r {
        assert s'.threads[q] == s.threads[q];
      }
    }
  }

  // ------------------------------------------------------------------
  // Runs follow schedules
  // ------------------------------------------------------------------

  /** `moves[..at[j]]` is the schedule the first `j` atomic steps amount to. */
  ghost predicate Follows(c: Config, run: seq<Sys>, moves: seq<Move>, at: seq<nat>)
    requires WellFormed(c.m)
  {
    && |at| == |run| > 0 && at[0] == 0
    && (forall j :: 0 <= j < |at| ==> at[j] <= |moves| && FollowsAt(c, run[j], moves[..at[j]]))
    && forall j :: 0 <= j < |at| - 1 ==> at[j + 1] == at[j] || at[j + 1] == at[j] + 1
  }

  ghost predicate FollowsAt(c: Config, s: Sys, moves: seq<Move>)
    requires WellFormed(c.m)
  {
    After(c.m, moves).Some? && Projects(c, s, After(c.m, moves).value)
  }

  lemma StartFollows(c: Config)
    requires PlannedModel(c.m) && FullyActive(c)
    ensures FollowsAt(c, Start(c), []) && Shape(c, Start(c)) && GuardsOk(c, Start(c)) && LogsOk(c, Start(c))
  {
  }

  /** One atomic step without a failure is at most one move. */
  lemma StepFollows(c: Config, s: Sys, r: nat, ch: Choice, moves: seq<Move>) returns (next: seq<Move>)
    requires PlannedModel(c.m) && LoopsSkippable(c.m) && Inv(c, s) && GuardsOk(c, s) && LogsOk(c, s) && Fires(c, s, r, ch)
    requires FollowsAt(c, s, moves) && Realized(c.m, s, moves) && s.shared.error.None?
    ensures |next| <= 1 && FollowsAt(c, Do(c, s, r, ch), moves + next)
    ensures Realized(c.m, Do(c, s, r, ch), moves + next)
  {
    assert WellFormed(c.m);
    var k := After(c.m, moves).value;
    assert Projects(c, s, k);
    hide PlannedModel, LoopsSkippable, WellFormed, Inv, CanStep, Do, Projects, After, Enabled, Apply, GuardsOk, Realized, Logged;
    FailureIsFinal(c, s, r, ch);
    StillRealized(c.m, s, Do(c, s, r, ch), moves);
    if s.threads[r].phase.Mark? {
      var mv := MarkIsMove(c, s, r, ch, k);
      next := [mv];
      AfterStep(c.m, moves, mv);
      assert ThreadLogOk(c, s, r);
      MarkKeepsLog(c, s, r, ch);
      OneMoreRealized(c.m, Do(c, s, r, ch), moves, mv);
    } else {
      next := [];
      assert moves + next == moves;
      StutterKeepsProjection(c, s, r, ch, k);
    }
  }

  lemma StillRealized(m: Model, s: Sys, s': Sys, moves: seq<Move>)
    requires Realized(m, s, moves) && s.shared.trace <= s'.shared.trace
    ensures Realized(m, s', moves)
  {
    forall mv | mv in moves && !mv.execute
      ensures Logged(s', mv.step)
    {
      LoggedLater(s, s', mv.step);
    }
  }

  lemma OneMoreRealized(m: Model, s: Sys, moves: seq<Move>, mv: Move)
    requires Realized(m, s, moves)
    requires if mv.execute then mv.step < |m.steps| && m.steps[mv.step].loopCount >= 1 else Logged(s, mv.step)
    ensures Realized(m, s, moves + [mv])
  {
    hide Logged;
  }

  lemma LoggedLater(s: Sys, s': Sys, i: nat)
    requires Logged(s, i) && s.shared.trace <= s'.shared.trace
    ensures Logged(s', i)
  {
    var e :| e in s.shared.trace && e.running == i;
    assert e in s'.shared.trace;
  }

  lemma MarkKeepsLog(c: Config, s: Sys, r: nat, ch: Choice)
    requires PlannedModel(c.m) && Inv(c, s) && Fires(c, s, r, ch) && s.shared.error.None? && s.threads[r].phase.Mark?
    requires ThreadLogOk(c, s, r)
    ensures var t := s.threads[r];
            t.pos < |Steps(c, r)| && t.phase.outcome.Skipped? ==> Logged(Do(c, s, r, ch), Steps(c, r)[t.pos])
  {
    FailureIsFinal(c, s, r, ch);
    StepView(c, s, r, ch);
    hide PlannedModel, Inv, CanStep, Steps, Do;
    var t := s.threads[r];
    if t.pos < |Steps(c, r)| && t.phase.outcome.Skipped? {
      LoggedLater(s, Do(c, s, r, ch), Steps(c, r)[t.pos]);
    }
  }

  /** Every run up to its first failure follows a schedule of the checker. */
  lemma {:induction false} RunFollowsSchedule(c: Config, run: seq<Sys>) returns (moves: seq<Move>, at: seq<nat>)
    requires PlannedModel(c.m) && FullyActive(c) && LoopsSkippable(c.m)
    requires IsRun(c, run) && run[|run| - 1].shared.error.None?
    ensures Tracked(c, run, moves, at)
    decreases |run|
  {
    assert WellFormed(c.m);
    hide PlannedModel, WellFormed, FullyActive, LoopsSkippable, CanStep, Do, FollowsAt, GuardsOk, LogsOk, Start, Realized;
    if |run| == 1 {
      StartFollows(c);
      moves, at := [], [0];
      assert moves[..0] == [];
      NothingRealized(c.m, run[0]);
    } else {
      RunPrefix(c, run);
      var before := run[..|run| - 1];
      var s := run[|run| - 2];
      assert before[|before| - 1] == s;
      var r: nat, ch :| Fires(c, s, r, ch) && run[|run| - 1] == Do(c, s, r, ch);
      FailureIsFinal(c, s, r, ch);
      moves, at := RunFollowsSchedule(c, before);
      moves, at := OneStepFurther(c, before, r, ch, moves, at);
      assert before + [run[|run| - 1]] == run;
    }
  }

  /** What `moves` says about the run so far. */
  ghost predicate Tracked(c: Config, run: seq<Sys>, moves: seq<Move>, at: seq<nat>)
    requires WellFormed(c.m)
  {
    && Follows(c, run, moves, at) && at[|run| - 1] == |moves|
    && Shape(c, run[|run| - 1]) && GuardsOk(c, run[|run| - 1]) && LogsOk(c, run[|run| - 1])
    && Realized(c.m, run[|run| - 1], moves)
  }

  lemma OneStepFurther(c: Config, run: seq<Sys>, r: nat, ch: Choice, moves0: seq<Move>, at0: seq<nat>)
    returns (moves: seq<Move>, at: seq<nat>)
    requires PlannedModel(c.m) && LoopsSkippable(c.m) && IsRun(c, run) && run[|run| - 1].shared.error.None?
    requires Fires(c, run[|run| - 1], r, ch) && Tracked(c, run, moves0, at0)
    ensures Tracked(c, run + [Do(c, run[|run| - 1], r, ch)], moves, at)
  {
    assert WellFormed(c.m);
    hide PlannedModel, WellFormed, LoopsSkippable, Inv, CanStep, Do, FollowsAt, GuardsOk, LogsOk, Realized;
    var s := run[|run| - 1];
    RunKeepsInv(c, run);
    assert moves0[..|moves0|] == moves0 && FollowsAt(c, s, moves0[..at0[|run| - 1]]);
    GuardsStep(c, s, r, ch);
    LogsStep(c, s, r, ch);
    var next := StepFollows(c, s, r, ch, moves0);
    moves, at := moves0 + next, at0 + [|moves0| + |next|];
    ExtendFollows(c, run, Do(c, s, r, ch), moves0, at0, next);
  }

  lemma NothingRealized(m: Model, s: Sys)
    ensures Realized(m, s, [])
  {
  }

  lemma ExtendFollows(c: Config, run: seq<Sys>, s: Sys, moves: seq<Move>, at: seq<nat>, next: seq<Move>)
    requires WellFormed(c.m) && Follows(c, run, moves, at) && at[|run| - 1] == |moves| && |next| <= 1
    requires FollowsAt(c, s, moves + next)
    ensures Follows(c, run + [s], moves + next, at + [|moves| + |next|])
  {
    hide FollowsAt;
    var run', moves', at' := run + [s], moves + next, at + [|moves| + |next|];
    forall j | 0 <= j < |at'|
      ensures at'[j] <= |moves'| && FollowsAt(c, run'[j], moves'[..at'[j]])
    {
      if j < |at| {
        assert moves'[..at'[j]] == moves[..at[j]];
        assert FollowsAt(c, run[j], moves[..at[j]]);
      } else {
        assert moves'[..at'[j]] == moves';
      }
    }
  }

  /** A run passes through every prefix of the schedule it follows. */
  lemma {:induction false} ReachesMark(c: Config, run: seq<Sys>, moves: seq<Move>, at: seq<nat>, p: nat, n: nat) returns (j: nat)
    requires WellFormed(c.m) && Follows(c, run, moves, at) && n < |run| && p <= at[n]
    ensures j <= n && at[j] == p
  {
    hide FollowsAt;
    if n == 0 || p == at[n] {
      j := n;
    } else {
      assert at[n] == at[n - 1] || at[n] == at[n - 1] + 1;
      j := ReachesMark(c, run, moves, at, p, n - 1);
    }
  }

  // ------------------------------------------------------------------
  // Steps of one role
  // ------------------------------------------------------------------

  ghost predicate DepsClosed(m: Model, k: Key)
    requires WellFormed(m) && Fits(m, k)
  {
    forall i, d :: 0 <= i < |m.steps| && k.completed[i] && 0 <= d < |m.deps[i]| ==> k.completed[m.deps[i][d]]
  }

  lemma {:induction false} SchedulesAreClosed(m: Model, moves: seq<Move>)
    requires WellFormed(m) && After(m, moves).Some?
    ensures DepsClosed(m, After(m, moves).value)
    decreases |moves|
  {
    if moves != [] {
      SchedulesAreClosed(m, moves[..|moves| - 1]);
    }
  }

  lemma {:induction false} PreviousOf(m: Model, i: nat, j: nat, at: nat) returns (p: nat)
    requires j < |m.steps| && i <= at < j && m.steps[i].role == m.steps[j].role
    requires forall k :: at < k < j ==> m.steps[k].role != m.steps[j].role
    ensures i <= p < j && PreviousInPlan(m, p, j)
    decreases at
  {
    if m.steps[at].role == m.steps[j].role {
      p := at;
    } else {
      p := PreviousOf(m, i, j, at - 1);
    }
  }

  /** A role's steps complete in plan order. */
  lemma {:induction false} RoleCompletesInOrder(m: Model, k: Key, i: nat, j: nat)
    requires PlannedModel(m) && Fits(m, k) && DepsClosed(m, k)
    requires i < j < |m.steps| && m.steps[i].role == m.steps[j].role
    requires k.completed[j] || forall d :: 0 <= d < |m.deps[j]| ==> k.completed[m.deps[j][d]]
    ensures k.completed[i]
    decreases j
  {
    var p := PreviousOf(m, i, j, j - 1);
    assert p in m.deps[j];
    var d :| 0 <= d < |m.deps[j]| && m.deps[j][d] == p;
    assert k.completed[p];
    if i < p {
      RoleCompletesInOrder(m, k, i, p);
    }
  }
}
