/** Where the checker and the engine part ways, by example: a dynamic `when`
    lets the checker look past a `from_state` the engine will reject, and the
    engine skips a loop=0 step without applying its `to_state`. */
module CheckerGaps {
  import opened Protocols
  import opened ModelChecker
  import opened Explorer
  import opened Checker
  import opened Engine
  import opened Scheduler
  import opened Refinement

  /** A one-role, one-step protocol. */
  function OneStep(when: Condition, from: Option<string>, to: Option<string>, loops: nat): (m: Model) {
    Model([Step("s", "a", [], when, from, to, loops, 0, 0, 0, false)], [[]], ["a"], [])
  }

  function OneConfig(m: Model): Config {
    Config(m, {"a"}, 8, 0)
  }

  const Quiet := Choice(false, true, Some(true), 0, Done, false, false, false)

  lemma OneStepIsPlanned(when: Condition, from: Option<string>, to: Option<string>, loops: nat)
    ensures var m := OneStep(when, from, to, loops);
            PlannedModel(m) && Position(m.roles, "a") == 0 && Steps(OneConfig(m), 0) == [0]
  {
    var m := OneStep(when, from, to, loops);
    assert m.roles[0] == "a";
    assert RoleSteps(m, "a", 0) == [];
    assert RoleSteps(m, "a", 1) == [0];
  }

  lemma ReachOne(c: Config, s: Sys, r: nat, ch: Choice)
    requires Reached(c, s) && Fires(c, s, r, ch)
    ensures Reached(c, Do(c, s, r, ch))
  {
    var run :| IsRun(c, run) && run[|run| - 1] == s;
    ExtendRun(c, run, r, ch);
  }

  lemma StartIsReached(c: Config)
    ensures Reached(c, Start(c))
  {
    assert IsRun(c, [Start(c)]);
  }

  /** One thread, so a state is its thread, the shared state and the history. */
  ghost predicate At(s: Sys, t: Thread) {
    |s.threads| == 1 && s.threads[0] == t
  }

  lemma StepOne(c: Config, s: Sys, t: Thread) returns (s': Sys)
    requires |c.m.roles| == 1 && |c.m.steps| == 1 && Steps(c, 0) == [0] && c.m.steps[0].dependsOn == []
    requires Reached(c, s) && At(s, t) && t.pos == 0 && !t.phase.Exited?
    ensures Reached(c, s') && At(s', StepThread(c, 0, c.m.steps[0], t, s.shared, Quiet))
    ensures s'.shared == StepShared(c, 0, 0, t, s.shared)
  {
    hide StepThread, StepShared, StepHistory, Steps;
    assert Fires(c, s, 0, Quiet);
    ReachOne(c, s, 0, Quiet);
    s' := Do(c, s, 0, Quiet);
  }

  lemma ReachDeciding(c: Config) returns (s: Sys)
    requires |c.m.roles| == 1 && |c.m.steps| == 1 && Steps(c, 0) == [0] && c.m.steps[0].dependsOn == []
    requires c.m.roles[0] in c.active && c.m.steps[0].role in c.active
    ensures Reached(c, s) && At(s, Thread(0, INITIAL_STATE, Deciding))
    ensures s.shared == Shared({}, None, 0, [])
  {
    hide Steps;
    StartIsReached(c);
    var s0 := Start(c);
    assert At(s0, Thread(0, INITIAL_STATE, Top));
    assert s0.shared == Shared({}, None, 0, []);
    var s1 := StepOne(c, s0, Thread(0, INITIAL_STATE, Top));
    var s2 := StepOne(c, s1, Thread(0, INITIAL_STATE, Waiting));
    s := StepOne(c, s2, Thread(0, INITIAL_STATE, Checking));
  }

  /** No complete report of this protocol has a violation, yet the engine can end
      in a state rejection. */
  lemma DynamicGuardEscapes() returns (m: Model, s: Sys)
    ensures PlannedModel(m) && FullyActive(OneConfig(m))
    ensures forall maxStates: nat, report :: ReportOk(m, maxStates, report) && report.complete ==> report.violations == []
    ensures Reached(OneConfig(m), s) && s.shared.error == Some(Failure(0, StateRejected))
  {
    m := OneStep(Dynamic, Some("up"), None, 1);
    OneStepIsPlanned(Dynamic, Some("up"), None, 1);
    forall maxStates: nat, report | ReportOk(m, maxStates, report) && report.complete
      ensures report.violations == []
    {
      NothingReported(m, maxStates, report);
    }
    s := ReachRejection(m);
  }

  lemma NothingReported(m: Model, maxStates: nat, report: Report)
    requires m == OneStep(Dynamic, Some("up"), None, 1) && WellFormed(m) && ReportOk(m, maxStates, report)
    ensures report.violations == []
  {
    hide BoundOk, UnreachableOk, TransitionsOk;
    if report.violations != [] {
      var v := report.violations[0];
      assert Justified(m, v);
      var moves :| ShortestWitness(m, moves, v.key);
      NothingToExhibit(m, After(m, moves).value, v.key);
      assert false;
    }
  }

  lemma NothingToExhibit(m: Model, k: Key, x: ViolationKey)
    requires m == OneStep(Dynamic, Some("up"), None, 1) && WellFormed(m) && Fits(m, k)
    ensures !Exhibits(m, k, x)
  {
    assert !Finished(k) ==> Enabled(m, k, Move(0, false));
  }

  lemma ReachRejection(m: Model) returns (s: Sys)
    requires m == OneStep(Dynamic, Some("up"), None, 1) && Steps(OneConfig(m), 0) == [0]
    ensures Reached(OneConfig(m), s) && s.shared.error == Some(Failure(0, StateRejected))
  {
    var c := OneConfig(m);
    hide Steps, Reached;
    var s3 := ReachDeciding(c);
    var s4 := StepOne(c, s3, Thread(0, INITIAL_STATE, Deciding));
    assert At(s4, Thread(0, INITIAL_STATE, Emit(1, ThenFail(StateRejected))));
    var s5 := StepOne(c, s4, Thread(0, INITIAL_STATE, Emit(1, ThenFail(StateRejected))));
    var s6 := StepOne(c, s5, Thread(0, INITIAL_STATE, Push(0, 0, ThenFail(StateRejected))));
    var s7 := StepOne(c, s6, Thread(0, INITIAL_STATE, Emit(0, ThenFail(StateRejected))));
    s := StepOne(c, s7, Thread(0, INITIAL_STATE, Fail(StateRejected)));
  }

  /** A loop=0 step is completed without its `to_state`; no schedule of the checker
      leads there. */
  lemma LoopZeroEscapes() returns (m: Model, s: Sys)
    ensures PlannedModel(m) && Reached(OneConfig(m), s) && s.shared.error.None?
    ensures forall moves :: !FollowsAt(OneConfig(m), s, moves)
  {
    m := OneStep(Always, None, Some("up"), 0);
    OneStepIsPlanned(Always, None, Some("up"), 0);
    s := ReachSkipped(m);
    forall moves
      ensures !FollowsAt(OneConfig(m), s, moves)
    {
      CompletedMeansUp(m, moves);
    }
  }

  lemma ReachSkipped(m: Model) returns (s: Sys)
    requires m == OneStep(Always, None, Some("up"), 0) && Steps(OneConfig(m), 0) == [0]
    ensures Reached(OneConfig(m), s) && At(s, Thread(1, INITIAL_STATE, Top))
    ensures s.shared.completed == {0} && s.shared.error.None?
  {
    var c := OneConfig(m);
    hide Steps, Reached;
    var s3 := ReachDeciding(c);
    var s4 := StepOne(c, s3, Thread(0, INITIAL_STATE, Deciding));
    var s5 := StepOne(c, s4, Thread(0, INITIAL_STATE, Emit(1, ThenSkip)));
    var s6 := StepOne(c, s5, Thread(0, INITIAL_STATE, Push(0, 0, ThenSkip)));
    var s7 := StepOne(c, s6, Thread(0, INITIAL_STATE, Emit(0, ThenSkip)));
    s := StepOne(c, s7, Thread(0, INITIAL_STATE, Mark(Skipped, INITIAL_STATE)));
  }

  lemma {:induction false} CompletedMeansUp(m: Model, moves: seq<Move>)
    requires m == OneStep(Always, None, Some("up"), 0) && WellFormed(m) && Position(m.roles, "a") == 0
    ensures After(m, moves).Some? && After(m, moves).value.completed[0] ==> After(m, moves).value.roleStates[0] == "up"
    decreases |moves|
  {
    if moves != [] {
      CompletedMeansUp(m, moves[..|moves| - 1]);
    }
  }
}
