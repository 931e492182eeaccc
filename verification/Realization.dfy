/** The converse of refinement: the schedules that engine runs follow are exactly
    those that run no loop=0 step and skip no more often than the trace has room. */
module Realization {
  import opened Protocols
  import opened Collections
  import opened ModelChecker
  import opened Checker
  import opened Engine
  import opened Scheduler
  import opened Refinement
  import Tracing

  ghost function Skips(moves: seq<Move>): nat
    decreases |moves|
  {
    if moves == [] then 0 else Skips(moves[..|moves| - 1]) + if moves[|moves| - 1].execute then 0 else 1
  }

  ghost predicate Realizable(c: Config, moves: seq<Move>)
    requires WellFormed(c.m)
  {
    && After(c.m, moves).Some?
    && (forall mv :: mv in moves && mv.execute ==> mv.step < |c.m.steps| && c.m.steps[mv.step].loopCount >= 1)
    && Skips(moves) <= c.maxTrace
  }

  // ------------------------------------------------------------------
  // Runs follow realizable schedules
  // ------------------------------------------------------------------

  lemma {:induction false} CompletedAreMoves(m: Model, moves: seq<Move>)
    requires WellFormed(m) && After(m, moves).Some?
    ensures forall mv :: mv in moves ==> mv.step < |m.steps| && After(m, moves).value.completed[mv.step]
    decreases |moves|
  {
    if moves != [] {
      CompletedAreMoves(m, moves[..|moves| - 1]);
    }
  }

  ghost function SkipSet(moves: seq<Move>): set<nat> {
    set mv | mv in moves && !mv.execute :: mv.step
  }

  lemma {:induction false} SkipsAreCounted(m: Model, moves: seq<Move>)
    requires WellFormed(m) && After(m, moves).Some?
    ensures |SkipSet(moves)| == Skips(moves)
    decreases |moves|
  {
    if moves != [] {
      var front, last := moves[..|moves| - 1], moves[|moves| - 1];
      assert Enabled(m, After(m, front).value, last);
      hide WellFormed, Apply, SkipSet;
      SkipsAreCounted(m, front);
      CompletedAreMoves(m, front);
      assert forall mv :: mv in front ==> mv.step != last.step;
      hide After, Enabled;
      OneMoreSkip(front, last);
      assert moves == front + [last];
    } else {
      assert SkipSet(moves) == {};
    }
  }

  lemma OneMoreSkip(front: seq<Move>, last: Move)
    requires forall mv :: mv in front ==> mv.step != last.step
    ensures |SkipSet(front + [last])| == |SkipSet(front)| + if last.execute then 0 else 1
  {
    assert last.step !in SkipSet(front);
    var all := SkipSet(front + [last]);
    assert forall mv :: mv in front ==> mv in front + [last];
    if last.execute {
      assert all == SkipSet(front);
    } else {
      assert last in front + [last];
      assert all == SkipSet(front) + {last.step};
    }
  }

  ghost function RunningOf(trace: seq<Event>): set<nat> {
    set e | e in trace :: e.running
  }

  lemma {:induction false} RunningSize(trace: seq<Event>)
    ensures |RunningOf(trace)| <= |trace|
  {
    if trace == [] {
      assert RunningOf(trace) == {};
    } else {
      var front := trace[..|trace| - 1];
      RunningSize(front);
      assert RunningOf(trace) == RunningOf(front) + {trace[|trace| - 1].running};
    }
  }

  lemma TraceFits(c: Config, s: Sys)
    requires PlannedModel(c.m) && Tracing.TraceOk(c, s)
    ensures |s.shared.trace| <= c.maxTrace
  {
    hide PlannedModel, Tracing.OrderOk;
    var numbers := seq(|s.shared.trace|, i requires 0 <= i < |s.shared.trace| => s.shared.trace[i].seqNo);
    forall k | 0 <= k < |numbers|
      ensures numbers[k] < c.maxTrace
    {
      assert Tracing.Stamped(c, s, s.shared.trace[k]);
    }
    Pigeonhole(numbers, c.maxTrace);
  }

  /** Every run up to its first failure follows a realizable schedule. */
  lemma RunIsRealizable(c: Config, run: seq<Sys>) returns (moves: seq<Move>, at: seq<nat>)
    requires PlannedModel(c.m) && FullyActive(c) && LoopsSkippable(c.m)
    requires IsRun(c, run) && run[|run| - 1].shared.error.None?
    ensures Follows(c, run, moves, at) && at[|run| - 1] == |moves| && Realizable(c, moves)
  {
    moves, at := RunFollowsSchedule(c, run);
    var s := run[|run| - 1];
    assert moves[..|moves|] == moves && FollowsAt(c, s, moves[..at[|run| - 1]]);
    hide Follows, FollowsAt, IsRun, LoopsSkippable, Tracing.TraceOk;
    Tracing.RunKeepsTrace(c, run);
    TraceFits(c, s);
    RunningSize(s.shared.trace);
    SkipsAreCounted(c.m, moves);
    forall i | i in SkipSet(moves)
      ensures i in RunningOf(s.shared.trace)
    {
      assert Logged(s, i);
    }
    SubsetSize(SkipSet(moves), RunningOf(s.shared.trace));
  }

  // ------------------------------------------------------------------
  // One thread at a time
  // ------------------------------------------------------------------

  /** Between steps: no thread has begun its next one, and nothing failed. */
  ghost predicate Quiet(s: Sys) {
    s.shared.error.None? && forall r :: 0 <= r < |s.threads| ==> s.threads[r].phase.Top?
  }

  /** A run that follows `moves` and ends in a state given by thread `r` and the
      shared state, the other threads being those of `rest`. */
  ghost predicate Ends(c: Config, run: seq<Sys>, moves: seq<Move>, at: seq<nat>, rest: seq<Thread>, r: nat, t: Thread, sh: Shared)
    requires WellFormed(c.m)
  {
    && IsRun(c, run) && Follows(c, run, moves, at) && at[|run| - 1] == |moves|
    && r < |rest| == |c.m.roles|
    && run[|run| - 1].threads == rest[r := t] && run[|run| - 1].shared == sh
    && sh.error.None? && t.pos < |Steps(c, r)| && Steps(c, r)[t.pos] < |c.m.steps|
  }

  /** The thread takes one atomic step inside its planned step. */
  lemma Advance(c: Config, run: seq<Sys>, moves: seq<Move>, at: seq<nat>, rest: seq<Thread>, r: nat, t: Thread, sh: Shared,
                ch: Choice)
    returns (run': seq<Sys>, at': seq<nat>)
    requires PlannedModel(c.m) && Ends(c, run, moves, at, rest, r, t, sh)
    requires !t.phase.Mark? && !t.phase.Exited? && ch.events == 0 && !ch.late
    requires t.phase.Waiting? ==> ch.sawReady && DeclaredDone(c.m, Steps(c, r)[t.pos], sh.completed)
    requires var i := Steps(c, r)[t.pos]; StepShared(c, r, i, t, sh).error.None?
    requires StepThread(c, r, c.m.steps[Steps(c, r)[t.pos]], t, sh, ch).pos == t.pos
    ensures var i := Steps(c, r)[t.pos];
            Ends(c, run', moves, at', rest, r, StepThread(c, r, c.m.steps[i], t, sh, ch), StepShared(c, r, i, t, sh))
  {
    var s := run[|run| - 1];
    var i := Steps(c, r)[t.pos];
    RunKeepsInv(c, run);
    assert s.threads[r] == t;
    assert Fires(c, s, r, ch);
    StepView(c, s, r, ch);
    ExtendRun(c, run, r, ch);
    run', at' := run + [Do(c, s, r, ch)], at + [|moves|];
    assert moves[..|moves|] == moves && FollowsAt(c, s, moves[..at[|run| - 1]]);
    hide PlannedModel, Inv, Do, CanStep, StepThread, StepShared, StepHistory, Steps, Projects;
    StutterKeepsProjection(c, s, r, ch, After(c.m, moves).value);
    assert moves + [] == moves;
    ExtendFollows(c, run, Do(c, s, r, ch), moves, at, []);
    assert s.threads[r := StepThread(c, r, c.m.steps[i], t, sh, ch)] == rest[r := StepThread(c, r, c.m.steps[i], t, sh, ch)];
  }

  /** The choices of an attempt that succeeds at once and records nothing. */
  function Go(execute: bool): Choice {
    Choice(false, true, Some(execute), 0, Done, false, false, false)
  }

  lemma ToDeciding(c: Config, run: seq<Sys>, moves: seq<Move>, at: seq<nat>, rest: seq<Thread>, r: nat, t: Thread, sh: Shared,
                   execute: bool)
    returns (run': seq<Sys>, at': seq<nat>)
    requires PlannedModel(c.m) && Ends(c, run, moves, at, rest, r, t, sh) && t.phase.Top?
    requires DeclaredDone(c.m, Steps(c, r)[t.pos], sh.completed)
    ensures Ends(c, run', moves, at', rest, r, t.(phase := Deciding), sh)
  {
    hide PlannedModel, DeclaredDone, Steps, IsRun, Follows;
    run', at' := Advance(c, run, moves, at, rest, r, t, sh, Go(execute));
    run', at' := Advance(c, run', moves, at', rest, r, t.(phase := Waiting), sh, Go(execute));
    run', at' := Advance(c, run', moves, at', rest, r, t.(phase := Checking), sh, Go(execute));
  }

  lemma ToSkipped(c: Config, run: seq<Sys>, moves: seq<Move>, at: seq<nat>, rest: seq<Thread>, r: nat, t: Thread, sh: Shared)
    returns (run': seq<Sys>, at': seq<nat>, sh': Shared)
    requires PlannedModel(c.m) && Ends(c, run, moves, at, rest, r, t, sh) && t.phase.Deciding?
    requires Allows(c.m.steps[Steps(c, r)[t.pos]].when, false) && sh.counter < c.maxTrace
    ensures Ends(c, run', moves, at', rest, r, t.(phase := Mark(Skipped, t.state)), sh')
    ensures sh'.counter == sh.counter + 1 && sh'.completed == sh.completed
  {
    hide PlannedModel, Steps, IsRun, Follows;
    var i := Steps(c, r)[t.pos];
    var go := Go(false);
    var sh1 := sh.(counter := sh.counter + 1);
    sh' := sh1.(trace := sh1.trace + [Event(sh.counter, i)]);
    run', at' := Advance(c, run, moves, at, rest, r, t, sh, go);
    run', at' := Advance(c, run', moves, at', rest, r, t.(phase := Emit(1, ThenSkip)), sh, go);
    run', at' := Advance(c, run', moves, at', rest, r, t.(phase := Push(sh.counter, 0, ThenSkip)), sh1, go);
    run', at' := Advance(c, run', moves, at', rest, r, t.(phase := Emit(0, ThenSkip)), sh', go);
  }

  lemma {:induction false} ToSucceeded(c: Config, run: seq<Sys>, moves: seq<Move>, at: seq<nat>, rest: seq<Thread>, r: nat, t: Thread,
                                       sh: Shared, loops: nat)
    returns (run': seq<Sys>, at': seq<nat>, t': Thread)
    requires PlannedModel(c.m) && Ends(c, run, moves, at, rest, r, t, sh) && t.phase == Attempt(Counters(loops, 0, 0))
    requires loops < c.m.steps[Steps(c, r)[t.pos]].loopCount
    ensures Ends(c, run', moves, at', rest, r, t', sh) && t'.pos == t.pos && t'.phase.Mark? && t'.phase.outcome.Succeeded?
    decreases c.m.steps[Steps(c, r)[t.pos]].loopCount - loops
  {
    hide PlannedModel, Steps, IsRun, Follows, Resends;
    var step := c.m.steps[Steps(c, r)[t.pos]];
    var cn := Counters(loops, 0, 0);
    run', at' := Advance(c, run, moves, at, rest, r, t, sh, Go(true));
    run', at' := Advance(c, run', moves, at', rest, r, t.(phase := Emit(0, ThenResult(cn, Done))), sh, Go(true));
    run', at' := Advance(c, run', moves, at', rest, r, t.(phase := LoopCheck(cn)), sh, Go(true));
    t' := AfterLoop(step, t.(phase := LoopCheck(cn)), cn, false);
    if loops + 1 < step.loopCount {
      run', at', t' := ToSucceeded(c, run', moves, at', rest, r, t', sh, loops + 1);
    }
  }

  /** Marking the step done is the next move. */
  lemma ToNext(c: Config, run: seq<Sys>, moves: seq<Move>, at: seq<nat>, rest: seq<Thread>, r: nat, t: Thread, sh: Shared)
    returns (run': seq<Sys>, at': seq<nat>)
    requires PlannedModel(c.m) && FullyActive(c) && LoopsSkippable(c.m) && Ends(c, run, moves, at, rest, r, t, sh)
    requires t.phase.Mark? && !t.phase.outcome.Failed?
    ensures var i := Steps(c, r)[t.pos];
            var moves' := moves + [Move(i, t.phase.outcome.Succeeded?)];
            && IsRun(c, run') && Follows(c, run', moves', at') && at'[|run'| - 1] == |moves'|
            && run'[|run'| - 1].threads == rest[r := t.(pos := t.pos + 1, phase := Top)]
            && run'[|run'| - 1].shared == sh.(completed := sh.completed + {i})
  {
    assert |at| == |run|;
    hide PlannedModel, FullyActive, LoopsSkippable, Inv, Do, CanStep, Steps, Follows;
    var s := run[|run| - 1];
    var go := Go(true);
    assert s.threads[r] == t;
    RunKeepsInv(c, run);
    MarkLeads(c, s, rest, r, t, go);
    ExtendRun(c, run, r, go);
    run', at' := run + [Do(c, s, r, go)], at + [|moves| + 1];
    MarkFollows(c, run, moves, at, r, go);
  }

  lemma MarkFollows(c: Config, run: seq<Sys>, moves: seq<Move>, at: seq<nat>, r: nat, ch: Choice)
    requires PlannedModel(c.m) && FullyActive(c) && LoopsSkippable(c.m)
    requires IsRun(c, run) && Follows(c, run, moves, at) && at[|run| - 1] == |moves|
    requires run[|run| - 1].shared.error.None? && Fires(c, run[|run| - 1], r, ch)
    requires var t := run[|run| - 1].threads[r]; t.phase.Mark? && t.pos < |Steps(c, r)|
    ensures var s := run[|run| - 1];
            var mv := Move(Steps(c, r)[s.threads[r].pos], s.threads[r].phase.outcome.Succeeded?);
            Follows(c, run + [Do(c, s, r, ch)], moves + [mv], at + [|moves| + 1])
  {
    assert WellFormed(c.m);
    var s := run[|run| - 1];
    assert moves[..|moves|] == moves && FollowsAt(c, s, moves[..at[|run| - 1]]);
    var k := After(c.m, moves).value;
    assert Projects(c, s, k);
    hide PlannedModel, WellFormed, FullyActive, LoopsSkippable, Inv, Do, CanStep, Steps, Projects, GuardsOk, LogsOk, Realized,
      Follows, IsRun, After, Enabled, Apply;
    RunKeepsInv(c, run);
    var m0, a0 := RunFollowsSchedule(c, run);
    var mv := MarkIsMove(c, s, r, ch, k);
    AfterStep(c.m, moves, mv);
    ExtendFollows(c, run, Do(c, s, r, ch), moves, at, [mv]);
  }

  lemma MarkLeads(c: Config, s: Sys, rest: seq<Thread>, r: nat, t: Thread, ch: Choice)
    requires PlannedModel(c.m) && Inv(c, s) && r < |rest| == |c.m.roles| && s.threads == rest[r := t] && ch.events == 0
    requires t.phase.Mark? && !t.phase.outcome.Failed? && t.pos < |Steps(c, r)|
    ensures Fires(c, s, r, ch)
    ensures Do(c, s, r, ch).threads == rest[r := t.(pos := t.pos + 1, phase := Top)]
    ensures Do(c, s, r, ch).shared == s.shared.(completed := s.shared.completed + {Steps(c, r)[t.pos]})
  {
    assert s.threads[r] == t && Fires(c, s, r, ch);
    StepView(c, s, r, ch);
    hide PlannedModel, Inv, CanStep, Steps, Do;
  }

  // ------------------------------------------------------------------
  // A whole schedule
  // ------------------------------------------------------------------

  /** At rest, the thread of an enabled move's role stands at that step. */
  lemma StandsAt(c: Config, s: Sys, k: Key, i: nat) returns (r: nat)
    requires PlannedModel(c.m) && FullyActive(c) && Inv(c, s) && Quiet(s) && Fits(c.m, k) && Projects(c, s, k)
    requires DepsClosed(c.m, k) && i < |c.m.steps| && !k.completed[i]
    requires forall d :: 0 <= d < |c.m.deps[i]| ==> k.completed[c.m.deps[i][d]]
    ensures r < |s.threads| && s.threads[r].pos < |Steps(c, r)| && Steps(c, r)[s.threads[r].pos] == i
  {
    assert c.m.steps[i].role in c.m.roles;
    r :| 0 <= r < |c.m.roles| && c.m.roles[r] == c.m.steps[i].role;
    RoleStepsElements(c.m, c.m.roles[r], |c.m.steps|);
    assert i in Steps(c, r);
    var q :| 0 <= q < |Steps(c, r)| && Steps(c, r)[q] == i;
    var t := s.threads[r];
    assert ThreadOk(c, s.shared, s.history, r, t);
    assert q >= t.pos;
    if q > t.pos {
      var j := Steps(c, r)[t.pos];
      StepOfRole(c, r, t.pos);
      StepsIncrease(c, r, t.pos, q);
      RoleCompletesInOrder(c.m, k, j, i);
      assert false;
    }
  }

  lemma DeclaredAreDone(c: Config, s: Sys, k: Key, i: nat)
    requires PlannedModel(c.m) && Projects(c, s, k) && i < |c.m.steps|
    requires forall d :: 0 <= d < |c.m.deps[i]| ==> k.completed[c.m.deps[i][d]]
    ensures DeclaredDone(c.m, i, s.shared.completed)
  {
    forall d: nat | d < |c.m.steps| && c.m.steps[d].name in c.m.steps[i].dependsOn
      ensures d in s.shared.completed
    {
      assert d in c.m.deps[i];
      var e :| 0 <= e < |c.m.deps[i]| && c.m.deps[i][e] == d;
    }
  }

  /** One enabled move as a stretch of a run. */
  lemma MoveIsRun(c: Config, run: seq<Sys>, moves: seq<Move>, at: seq<nat>, mv: Move)
    returns (run': seq<Sys>, at': seq<nat>)
    requires PlannedModel(c.m) && FullyActive(c) && LoopsSkippable(c.m)
    requires IsRun(c, run) && Follows(c, run, moves, at) && at[|run| - 1] == |moves| && Quiet(run[|run| - 1])
    requires After(c.m, moves).Some? && Enabled(c.m, After(c.m, moves).value, mv)
    requires mv.execute ==> c.m.steps[mv.step].loopCount >= 1
    requires !mv.execute ==> run[|run| - 1].shared.counter < c.maxTrace
    ensures IsRun(c, run') && Follows(c, run', moves + [mv], at') && at'[|run'| - 1] == |moves| + 1 && Quiet(run'[|run'| - 1])
    ensures run'[|run'| - 1].shared.counter == run[|run| - 1].shared.counter + if mv.execute then 0 else 1
  {
    var s := run[|run| - 1];
    var k := After(c.m, moves).value;
    assert moves[..|moves|] == moves && FollowsAt(c, s, moves[..at[|run| - 1]]);
    RunKeepsInv(c, run);
    SchedulesAreClosed(c.m, moves);
    var r := StandsAt(c, s, k, mv.step);
    DeclaredAreDone(c, s, k, mv.step);
    PositionOfRole(c.m, r);
    StepOfRole(c, r, s.threads[r].pos);
    assert k.roleStates[r] == s.threads[r].state;
    assert s.threads[r := s.threads[r]] == s.threads;
    hide PlannedModel, FullyActive, LoopsSkippable, Inv, IsRun, Follows, DeclaredDone, After, DepsClosed, Projects, Steps;
    assert Ends(c, run, moves, at, s.threads, r, s.threads[r], s.shared);
    if mv.execute {
      run', at' := Executes(c, run, moves, at, s.threads, r, s.threads[r], s.shared);
    } else {
      run', at' := Passes(c, run, moves, at, s.threads, r, s.threads[r], s.shared);
    }
  }

  lemma Executes(c: Config, run: seq<Sys>, moves: seq<Move>, at: seq<nat>, rest: seq<Thread>, r: nat, t: Thread, sh: Shared)
    returns (run': seq<Sys>, at': seq<nat>)
    requires PlannedModel(c.m) && FullyActive(c) && LoopsSkippable(c.m) && Ends(c, run, moves, at, rest, r, t, sh)
    requires t.phase.Top? && DeclaredDone(c.m, Steps(c, r)[t.pos], sh.completed)
    requires var step := c.m.steps[Steps(c, r)[t.pos]];
             step.loopCount >= 1 && Allows(step.when, true) && StateAllows(step.fromState, t.state)
    requires forall q :: 0 <= q < |rest| ==> rest[q].phase.Top?
    ensures var moves' := moves + [Move(Steps(c, r)[t.pos], true)];
            IsRun(c, run') && Follows(c, run', moves', at') && at'[|run'| - 1] == |moves'| && Quiet(run'[|run'| - 1])
    ensures run'[|run'| - 1].shared.counter == sh.counter
  {
    hide PlannedModel, FullyActive, LoopsSkippable, DeclaredDone, IsRun, Follows, Steps;
    run', at' := ToDeciding(c, run, moves, at, rest, r, t, sh, true);
    run', at' := Advance(c, run', moves, at', rest, r, t.(phase := Deciding), sh, Go(true));
    var t';
    run', at', t' := ToSucceeded(c, run', moves, at', rest, r, t.(phase := Attempt(Counters(0, 0, 0))), sh, 0);
    run', at' := ToNext(c, run', moves, at', rest, r, t', sh);
  }

  lemma Passes(c: Config, run: seq<Sys>, moves: seq<Move>, at: seq<nat>, rest: seq<Thread>, r: nat, t: Thread, sh: Shared)
    returns (run': seq<Sys>, at': seq<nat>)
    requires PlannedModel(c.m) && FullyActive(c) && LoopsSkippable(c.m) && Ends(c, run, moves, at, rest, r, t, sh)
    requires t.phase.Top? && DeclaredDone(c.m, Steps(c, r)[t.pos], sh.completed)
    requires Allows(c.m.steps[Steps(c, r)[t.pos]].when, false) && sh.counter < c.maxTrace
    requires forall q :: 0 <= q < |rest| ==> rest[q].phase.Top?
    ensures var moves' := moves + [Move(Steps(c, r)[t.pos], false)];
            IsRun(c, run') && Follows(c, run', moves', at') && at'[|run'| - 1] == |moves'| && Quiet(run'[|run'| - 1])
    ensures run'[|run'| - 1].shared.counter == sh.counter + 1
  {
    hide PlannedModel, FullyActive, LoopsSkippable, DeclaredDone, IsRun, Follows, Steps;
    run', at' := ToDeciding(c, run, moves, at, rest, r, t, sh, false);
    var sh';
    run', at', sh' := ToSkipped(c, run', moves, at', rest, r, t.(phase := Deciding), sh);
    run', at' := ToNext(c, run', moves, at', rest, r, t.(phase := Mark(Skipped, t.state)), sh');
  }

  lemma FrontIsRealizable(c: Config, moves: seq<Move>)
    requires WellFormed(c.m) && Realizable(c, moves) && moves != []
    ensures var front, mv := moves[..|moves| - 1], moves[|moves| - 1];
            && Realizable(c, front) && After(c.m, front).Some? && Enabled(c.m, After(c.m, front).value, mv)
            && (mv.execute ==> mv.step < |c.m.steps| && c.m.steps[mv.step].loopCount >= 1)
            && Skips(moves) == Skips(front) + (if mv.execute then 0 else 1) <= c.maxTrace
  {
    hide WellFormed, Enabled, Apply;
    var front, mv := moves[..|moves| - 1], moves[|moves| - 1];
    assert mv in moves && forall x :: x in front ==> x in moves;
  }

  lemma StartIsFollowed(c: Config)
    requires PlannedModel(c.m) && FullyActive(c)
    ensures IsRun(c, [Start(c)]) && Follows(c, [Start(c)], [], [0]) && Quiet(Start(c)) && Start(c).shared.counter == 0 == Skips([])
  {
    StartFollows(c);
    hide FollowsAt, PlannedModel;
    var none: seq<Move> := [];
    assert none[..0] == none;
  }

  /** Every realizable schedule is what some run follows, move by move. */
  lemma {:induction false} ScheduleIsRun(c: Config, moves: seq<Move>) returns (run: seq<Sys>, at: seq<nat>)
    requires PlannedModel(c.m) && FullyActive(c) && LoopsSkippable(c.m) && Realizable(c, moves)
    ensures IsRun(c, run) && Follows(c, run, moves, at) && at[|run| - 1] == |moves| && Quiet(run[|run| - 1])
    ensures run[|run| - 1].shared.counter == Skips(moves)
    decreases |moves|
  {
    assert WellFormed(c.m);
    hide PlannedModel, FullyActive, LoopsSkippable, IsRun, Follows, After, Enabled, Apply, WellFormed, Skips, Realizable, Start;
    if moves == [] {
      run, at := [Start(c)], [0];
      StartIsFollowed(c);
    } else {
      var front, mv := moves[..|moves| - 1], moves[|moves| - 1];
      FrontIsRealizable(c, moves);
      run, at := ScheduleIsRun(c, front);
      run, at := MoveIsRun(c, run, front, at, mv);
      assert front + [mv] == moves;
    }
  }
}
