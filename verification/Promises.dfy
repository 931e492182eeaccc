/** What the checker's report and the engine's runs say about each other. */
module Promises {
  import opened Protocols
  import opened Collections
  import opened ModelChecker
  import opened Explorer
  import opened Checker
  import opened Engine
  import opened Scheduler
  import opened Refinement
  import opened Realization
  import opened LoopZero
  import Progress

  // ------------------------------------------------------------------
  // What a clean report promises about the engine
  // ------------------------------------------------------------------

  ghost predicate StateFails(m: Model, states: string -> string, v: Invariant) {
    match v
    case NeverState(_, role, state) => states(role) == state
    case StateImplies(_, role, state, other, otherState) => states(role) == state && states(other) != otherState
    case EventuallyState(_, _, _) => false
  }

  /** The projected state of the thread that runs `role`. */
  ghost function EngineState(c: Config, s: Sys, role: string): string
    requires Shape(c, s)
  {
    if role in c.m.roles then ProjectedState(s.threads[Position(c.m.roles, role)]) else ""
  }

  /** With a clean complete report, no safety invariant is false in any state of
      any failure-free run. */
  lemma EngineIsSafe(c: Config, maxStates: nat, report: Report, run: seq<Sys>, j: nat, v: Invariant)
    requires PlannedModel(c.m) && FullyActive(c) && WellFormed(EffectiveModel(c.m)) && NoLoopGap(c) && Clean(c.m, maxStates, report)
    requires FailureFree(c, run) && j < |run| && v in c.m.invariants
    ensures Shape(c, run[j]) && !StateFails(c.m, role => EngineState(c, run[j], role), v)
  {
    var moves, at := FollowsUnlessGap(c, run);
    assert FollowsAt(c, run[j], moves[..at[j]]);
    hide Clean, IsRun, FullyActive, Follows, NoLoopGap, EffectiveModel;
    CleanMeansSafe(c.m, maxStates, report, moves[..at[j]], v);
  }

  /** With a clean complete report, a run that ends without a failure has
      completed every step and has visited every `eventually_state`. */
  lemma EngineIsLive(c: Config, maxStates: nat, report: Report, run: seq<Sys>, v: Invariant) returns (j: nat)
    requires PlannedModel(c.m) && FullyActive(c) && WellFormed(EffectiveModel(c.m)) && NoLoopGap(c) && Clean(c.m, maxStates, report)
    requires FailureFree(c, run)
    requires AllExited(run[|run| - 1])
    requires v in c.m.invariants && v.EventuallyState?
    ensures j < |run| && Shape(c, run[j]) && EngineState(c, run[j], v.role) == v.state
  {
    var last := run[|run| - 1];
    var moves, at := FollowsUnlessGap(c, run);
    RunKeepsInv(c, run);
    assert FollowsAt(c, last, moves[..at[|run| - 1]]) && moves[..|moves|] == moves;
    var k := After(c.m, moves).value;
    forall i: nat | i < |c.m.steps|
      ensures k.completed[i]
    {
      Progress.QuietEndIsComplete(c, last, i);
    }
    assert v.role in c.m.roles;
    hide Clean, IsRun, FullyActive, PlannedModel, Inv, NoLoopGap, EffectiveModel;
    StuckIffNoMoves(c.m, k);
    CleanMeansLive(c.m, maxStates, report, moves);
    var p :| 0 <= p <= |moves| && InStateAt(c.m, moves, p, v);
    j := ReachesMark(c, run, moves, at, p, |run| - 1);
    assert FollowsAt(c, run[j], moves[..at[j]]);
  }

  // ------------------------------------------------------------------
  // The engine's `from_state` test
  // ------------------------------------------------------------------

  /** A step that can only run finds its role's state unchanged until it runs. */
  lemma {:induction false} StateFrozenUntilRun(m: Model, moves: seq<Move>, rest: seq<Move>, i: nat)
    requires PlannedModel(m) && After(m, moves).Some? && After(m, moves + rest).Some?
    requires i < |m.steps| && !Allows(m.steps[i].when, false) && !After(m, moves).value.completed[i]
    requires forall j :: 0 <= j < i && m.steps[j].role == m.steps[i].role ==> After(m, moves).value.completed[j]
    requires Finished(After(m, moves + rest).value)
    ensures StateAllows(m.steps[i].fromState, After(m, moves).value.roleStates[Position(m.roles, m.steps[i].role)])
    decreases |rest|
  {
    var k := After(m, moves).value;
    assert rest == [] ==> moves + rest == moves;
    hide PlannedModel, After, StateAllows;
    if rest == [] {
      assert false;
    } else {
      NextMove(m, moves, rest);
      var mv := rest[0];
      if mv.step != i {
        SchedulesAreClosed(m, moves);
        OtherRoleMoves(m, k, mv, i);
        StateFrozenUntilRun(m, moves + [mv], rest[1..], i);
      }
    }
  }

  lemma NextMove(m: Model, moves: seq<Move>, rest: seq<Move>)
    requires WellFormed(m) && After(m, moves).Some? && After(m, moves + rest).Some? && rest != []
    ensures Enabled(m, After(m, moves).value, rest[0])
    ensures After(m, moves + [rest[0]]) == Some(Apply(m, After(m, moves).value, rest[0]))
    ensures moves + rest == moves + [rest[0]] + rest[1..]
  {
    hide WellFormed, Enabled, Apply;
    var mv := rest[0];
    var more := moves + [mv];
    assert (moves + rest)[..|moves| + 1] == more;
    PrefixIsRun(m, moves + rest, |moves| + 1);
    assert more[..|more| - 1] == moves && more[|more| - 1] == mv;
    assert rest == [mv] + rest[1..];
  }

  lemma OtherRoleMoves(m: Model, k: Key, mv: Move, i: nat)
    requires PlannedModel(m) && Fits(m, k) && DepsClosed(m, k) && Enabled(m, k, mv) && mv.step != i && i < |m.steps|
    requires !k.completed[i]
    requires forall j :: 0 <= j < i && m.steps[j].role == m.steps[i].role ==> k.completed[j]
    ensures m.steps[mv.step].role != m.steps[i].role
    ensures var at := Position(m.roles, m.steps[i].role); Apply(m, k, mv).roleStates[at] == k.roleStates[at]
  {
    if m.steps[mv.step].role == m.steps[i].role && i < mv.step {
      RoleCompletesInOrder(m, k, i, mv.step);
    }
  }

  /** What the checker's state says about a step that is being decided on. */
  lemma DecidingView(c: Config, s: Sys, r: nat, k: Key)
    requires PlannedModel(c.m) && Inv(c, s) && Fits(c.m, k) && Projects(c, s, k)
    requires r < |c.m.roles| && r < |s.threads| && s.threads[r].phase.Deciding?
    requires s.threads[r].pos < |Steps(c, r)| && Steps(c, r)[s.threads[r].pos] < |c.m.steps|
    ensures var i := Steps(c, r)[s.threads[r].pos];
            && !k.completed[i] && c.m.steps[i].role in c.m.roles
            && k.roleStates[Position(c.m.roles, c.m.steps[i].role)] == s.threads[r].state
            && forall j :: 0 <= j < i && c.m.steps[j].role == c.m.steps[i].role ==> k.completed[j]
  {
    var t := s.threads[r];
    var i := Steps(c, r)[t.pos];
    assert ThreadOk(c, s.shared, s.history, r, t);
    StepOfRole(c, r, t.pos);
    PositionOfRole(c.m, r);
    forall j | 0 <= j < i && c.m.steps[j].role == c.m.steps[i].role
      ensures k.completed[j]
    {
      var q := EarlierPosition(c, r, t.pos, j);
    }
  }

  /** With a clean complete report, a step whose `when` is not dynamic never fails
      the engine's `from_state` test in a failure-free state. */
  lemma NeverRejected(c: Config, maxStates: nat, report: Report, run: seq<Sys>, r: nat, ch: Choice)
    requires PlannedModel(c.m) && FullyActive(c) && WellFormed(EffectiveModel(c.m)) && NoLoopGap(c) && Clean(c.m, maxStates, report)
    requires FailureFree(c, run)
    requires Shape(c, run[|run| - 1]) && r < |c.m.roles| && run[|run| - 1].threads[r].phase.Deciding?
    requires run[|run| - 1].threads[r].pos < |Steps(c, r)| && Steps(c, r)[run[|run| - 1].threads[r].pos] < |c.m.steps|
    requires !c.m.steps[Steps(c, r)[run[|run| - 1].threads[r].pos]].when.Dynamic?
    ensures var t := run[|run| - 1].threads[r];
            Decide(c.m.steps[Steps(c, r)[t.pos]], t.state, ch) != Emit(1, ThenFail(StateRejected))
  {
    var s := run[|run| - 1];
    var t := s.threads[r];
    var i := Steps(c, r)[t.pos];
    hide *;
    var moves, k := LastView(c, run);
    DecidingView(c, s, r, k);
    NotRejected(c.m.steps[i], t.state, ch);
    if Allows(c.m.steps[i].when, true) {
      MustRun(c.m.steps[i].when);
      var rest := CleanMeansFinishable(c.m, maxStates, report, moves);
      StateFrozenUntilRun(c.m, moves, rest, i);
    }
  }

  lemma NotRejected(step: Step, state: string, ch: Choice)
    ensures !step.when.Dynamic? && (Allows(step.when, true) ==> StateAllows(step.fromState, state)) ==>
              Decide(step, state, ch) != Emit(1, ThenFail(StateRejected))
  {
  }

  lemma MustRun(when: Condition)
    ensures !when.Dynamic? && Allows(when, true) ==> !Allows(when, false)
  {
  }

  /** The schedule a failure-free run follows, and where it ends. */
  lemma LastView(c: Config, run: seq<Sys>) returns (moves: seq<Move>, k: Key)
    requires PlannedModel(c.m) && FullyActive(c) && WellFormed(EffectiveModel(c.m)) && NoLoopGap(c) && FailureFree(c, run)
    ensures |run| > 0 && After(c.m, moves) == Some(k) && Fits(c.m, k)
    ensures Inv(c, run[|run| - 1]) && Projects(c, run[|run| - 1], k)
  {
    var at;
    moves, at := FollowsUnlessGap(c, run);
    RunKeepsInv(c, run);
    assert FollowsAt(c, run[|run| - 1], moves[..at[|run| - 1]]) && moves[..|moves|] == moves;
    k := After(c.m, moves).value;
  }

  // ------------------------------------------------------------------
  // When the engine rejects a step
  // ------------------------------------------------------------------

  /** Thread `r` is about to decide on step `i` and the `from_state` test fails. */
  ghost predicate Rejects(c: Config, s: Sys, r: nat, i: nat) {
    && Shape(c, s) && r < |s.threads| && s.shared.error.None? && s.threads[r].phase.Deciding?
    && s.threads[r].pos < |Steps(c, r)| && Steps(c, r)[s.threads[r].pos] == i && i < |c.m.steps|
    && exists ch :: Decide(c.m.steps[i], s.threads[r].state, ch) == Emit(1, ThenFail(StateRejected))
  }

  /** The step is due and may run, but its role is in the wrong state. */
  ghost predicate DueInWrongState(m: Model, k: Key, i: nat)
    requires WellFormed(m)
  {
    && i < |m.steps| && |k.completed| == |m.steps| && |k.roleStates| == |m.roles|
    && !k.completed[i] && (forall d :: 0 <= d < |m.deps[i]| ==> k.completed[m.deps[i][d]])
    && m.steps[i].loopCount >= 1 && Allows(m.steps[i].when, true)
    && !StateAllows(m.steps[i].fromState, StateOf(m, k, i))
  }

  /** An engine schedule that makes step `i` due in the wrong state. */
  ghost predicate MakesDue(c: Config, moves: seq<Move>, i: nat)
    requires WellFormed(c.m) && WellFormed(EffectiveModel(c.m))
  {
    EngineSchedule(c, moves) && DueInWrongState(c.m, After(EffectiveModel(c.m), moves).value, i)
  }

  lemma RejectingDecision(step: Step, state: string)
    ensures (exists ch :: Decide(step, state, ch) == Emit(1, ThenFail(StateRejected)))
       <==> step.loopCount >= 1 && Allows(step.when, true) && !StateAllows(step.fromState, state)
  {
    if step.loopCount >= 1 && Allows(step.when, true) && !StateAllows(step.fromState, state) {
      assert Decide(step, state, Go(true)) == Emit(1, ThenFail(StateRejected));
    }
  }

  lemma RejectedIsDue(c: Config, s: Sys, r: nat, i: nat) returns (moves: seq<Move>)
    requires PlannedModel(c.m) && FullyActive(c) && WellFormed(EffectiveModel(c.m)) && Reached(c, s) && Rejects(c, s, r, i)
    ensures MakesDue(c, moves, i)
  {
    var run :| IsRun(c, run) && run[|run| - 1] == s;
    var at;
    moves, at := RunIsSchedule(c, run);
    assert moves[..|moves|] == moves && FollowsAt(EffectiveConfig(c), s, moves[..at[|run| - 1]]);
    var k := After(EffectiveModel(c.m), moves).value;
    RunKeepsInv(c, run);
    hide IsRun, Follows, EffectiveModel, Realizable, After, FollowsAt;
    ProjectsRenamed(c, s, k, k);
    DecidingIsDue(c, s, r, i, k);
    RejectingDecision(c.m.steps[i], s.threads[r].state);
  }

  /** A thread that decides on a step finds it open, with its dependencies done. */
  lemma DecidingIsDue(c: Config, s: Sys, r: nat, i: nat, k: Key)
    requires PlannedModel(c.m) && FullyActive(c) && Inv(c, s) && Projects(c, s, k) && r < |s.threads|
    requires s.threads[r].phase.Deciding? && s.threads[r].pos < |Steps(c, r)| && Steps(c, r)[s.threads[r].pos] == i
    ensures i < |c.m.steps| && !k.completed[i] && forall d :: 0 <= d < |c.m.deps[i]| ==> k.completed[c.m.deps[i][d]]
    ensures StateOf(c.m, k, i) == s.threads[r].state
  {
    assert ThreadOk(c, s.shared, s.history, r, s.threads[r]);
    StepOfRole(c, r, s.threads[r].pos);
    PositionOfRole(c.m, r);
    DepsDone(c, s, k, i);
  }

  lemma DueIsRejected(c: Config, moves: seq<Move>, i: nat) returns (s: Sys, r: nat)
    requires PlannedModel(c.m) && FullyActive(c) && WellFormed(EffectiveModel(c.m)) && MakesDue(c, moves, i)
    ensures Reached(c, s) && Rejects(c, s, r, i)
  {
    var e := EffectiveConfig(c);
    EffectiveIsPlanned(c.m);
    SameRoleCount(c.m);
    SameDeps(c.m);
    var run, at := ScheduleIsRun(e, moves);
    assert FullyActive(e);
    var t;
    run, at, r, t := ReachDue(e, run, moves, at, i);
    SameRuns(c, run);
    SameRoleSteps(c.m, c.m.roles[r], |c.m.steps|);
    s := run[|run| - 1];
    hide PlannedModel, Follows, EffectiveModel, After, Steps, Realizable, WellFormed, Decide;
    RejectingDecision(c.m.steps[i], t.state);
  }

  lemma SameDeps(m: Model)
    ensures EffectiveModel(m).deps == m.deps && forall i :: 0 <= i < |m.steps| ==> EffectiveModel(m).steps[i].role == m.steps[i].role
  {
  }

  /** From rest, the thread of a due step goes on to decide on it. */
  lemma ReachDue(c: Config, run: seq<Sys>, moves: seq<Move>, at: seq<nat>, i: nat)
    returns (run': seq<Sys>, at': seq<nat>, r: nat, t: Thread)
    requires PlannedModel(c.m) && FullyActive(c) && After(c.m, moves).Some? && i < |c.m.steps|
    requires IsRun(c, run) && Follows(c, run, moves, at) && at[|run| - 1] == |moves| && Quiet(run[|run| - 1])
    requires var k := After(c.m, moves).value;
             !k.completed[i] && forall d :: 0 <= d < |c.m.deps[i]| ==> k.completed[c.m.deps[i][d]]
    ensures r < |c.m.roles| && IsRun(c, run') && Shape(c, run'[|run'| - 1]) && run'[|run'| - 1].threads[r] == t && t.phase.Deciding?
    ensures t.pos < |Steps(c, r)| && Steps(c, r)[t.pos] == i && run'[|run'| - 1].shared.error.None?
    ensures t.state == StateOf(c.m, After(c.m, moves).value, i)
  {
    var q := run[|run| - 1];
    var k := After(c.m, moves).value;
    assert moves[..|moves|] == moves && FollowsAt(c, q, moves[..at[|run| - 1]]);
    RunKeepsInv(c, run);
    SchedulesAreClosed(c.m, moves);
    r := StandsAt(c, q, k, i);
    DeclaredAreDone(c, q, k, i);
    StepOfRole(c, r, q.threads[r].pos);
    PositionOfRole(c.m, r);
    assert k.roleStates[r] == q.threads[r].state;
    assert q.threads[r := q.threads[r]] == q.threads;
    hide PlannedModel, Inv, Follows, After, DepsClosed, DeclaredDone, Projects, Steps, WellFormed;
    run', at' := ToDeciding(c, run, moves, at, q.threads, r, q.threads[r], q.shared, true);
    t := q.threads[r].(phase := Deciding);
  }

  /** Some run is rejected at step `i` iff some engine schedule makes it due while
      its role is in the wrong state. */
  lemma RejectedIff(c: Config, i: nat)
    requires PlannedModel(c.m) && FullyActive(c) && WellFormed(EffectiveModel(c.m))
    ensures (exists s, r :: Reached(c, s) && Rejects(c, s, r, i))
       <==> exists moves :: MakesDue(c, moves, i)
  {
    assert WellFormed(c.m);
    hide Reached, Rejects, MakesDue, PlannedModel, WellFormed, EffectiveModel;
    if s, r :| Reached(c, s) && Rejects(c, s, r, i) {
      var moves := RejectedIsDue(c, s, r, i);
    }
    if moves :| MakesDue(c, moves, i) {
      var s, r := DueIsRejected(c, moves, i);
    }
  }

  // ------------------------------------------------------------------
  // Reported violations happen
  // ------------------------------------------------------------------

  /** What a violation looks like in a run that follows its counterexample. */
  ghost predicate Happens(c: Config, run: seq<Sys>, k: Key, key: ViolationKey)
    requires WellFormed(c.m)
  {
    && |run| > 0 && (forall j :: 0 <= j < |run| ==> Shape(c, run[j]))
    && match key
       case Broken(name) => exists v :: v in c.m.invariants && v.name == name && BrokenIn(c, run[|run| - 1], v)
       case NeverReached(name) =>
         && AllDone(c, run[|run| - 1])
         && exists v :: v in c.m.invariants && v.EventuallyState? && v.name == name && MissedBy(c, run, v)
       case Deadlock => exists i :: DueInWrongState(c.m, k, i)
  }

  ghost predicate AllDone(c: Config, s: Sys) {
    forall i: nat :: i < |c.m.steps| ==> i in s.shared.completed
  }

  ghost predicate BrokenIn(c: Config, s: Sys, v: Invariant)
    requires Shape(c, s)
  {
    StateFails(c.m, role => EngineState(c, s, role), v)
  }

  ghost predicate MissedBy(c: Config, run: seq<Sys>, v: Invariant)
    requires forall j :: 0 <= j < |run| ==> Shape(c, run[j])
  {
    forall j :: 0 <= j < |run| ==> EngineState(c, run[j], v.role) != v.state
  }

  lemma {:induction false} SkipsAtMost(moves: seq<Move>)
    ensures Skips(moves) <= |moves|
    decreases |moves|
  {
    if moves != [] {
      SkipsAtMost(moves[..|moves| - 1]);
    }
  }

  /** With no loop=0 step and room for an event per step, every schedule is
      realizable. */
  lemma AllRealizable(c: Config, moves: seq<Move>)
    requires WellFormed(c.m) && (forall i :: 0 <= i < |c.m.steps| ==> c.m.steps[i].loopCount >= 1)
    requires |c.m.steps| <= c.maxTrace && After(c.m, moves).Some?
    ensures Realizable(c, moves)
  {
    CompletedAreMoves(c.m, moves);
    SkipsAtMost(moves);
    DoneAreCounted(c.m, moves);
    var k := After(c.m, moves).value;
    SubsetSize(DoneSet(k), Below(|c.m.steps|));
  }

  lemma BrokenHappens(c: Config, s: Sys, k: Key, name: string)
    requires WellFormed(c.m) && Fits(c.m, k) && Projects(c, s, k) && BreaksInvariant(c.m, k, name)
    ensures exists v :: v in c.m.invariants && v.name == name && BrokenIn(c, s, v)
  {
    var v :| v in c.m.invariants && v.name == name && Fails(c.m, k, v);
    hide Projects, WellFormed, Fits;
    StatesProject(c, s, k, v.role);
    if v.StateImplies? {
      StatesProject(c, s, k, v.impliesRole);
    }
    assert BrokenIn(c, s, v);
  }

  lemma StatesProject(c: Config, s: Sys, k: Key, role: string)
    requires WellFormed(c.m) && Projects(c, s, k)
    ensures Shape(c, s) && (role in c.m.roles ==> EngineState(c, s, role) == k.roleStates[Position(c.m.roles, role)])
  {
  }

  lemma MissedHappens(c: Config, run: seq<Sys>, moves: seq<Move>, at: seq<nat>, l: nat)
    requires WellFormed(c.m) && Follows(c, run, moves, at) && at[|run| - 1] == |moves| && After(c.m, moves).Some?
    requires l < |Eventualities(c.m.invariants)| && !After(c.m, moves).value.reached[l]
    ensures forall j :: 0 <= j < |run| ==> Shape(c, run[j])
    ensures MissedBy(c, run, Eventualities(c.m.invariants)[l])
  {
    var v := Eventualities(c.m.invariants)[l];
    EventualityRole(c.m, l);
    HistoryIsExact(c.m, moves, l);
    forall j | 0 <= j < |run|
      ensures Shape(c, run[j]) && EngineState(c, run[j], v.role) != v.state
    {
      assert FollowsAt(c, run[j], moves[..at[j]]);
      StatesProject(c, run[j], After(c.m, moves[..at[j]]).value, v.role);
      assert !InStateAt(c.m, moves, at[j], v);
    }
  }

  /** A stuck, unfinished schedule has a due step in the wrong state. */
  lemma StuckIsDue(m: Model, k: Key) returns (i: nat)
    requires PlannedModel(m) && LoopsSkippable(m) && Fits(m, k) && Stuck(m, k) && !Finished(k)
    ensures DueInWrongState(m, k, i)
  {
    var x: nat :| x < |k.completed| && !k.completed[x];
    assert x !in DoneSet(k);
    i := Progress.LeastMissing(|m.steps|, DoneSet(k));
    forall d | 0 <= d < |m.deps[i]|
      ensures k.completed[m.deps[i][d]]
    {
      assert m.deps[i][d] in m.deps[i];
      assert m.deps[i][d] in DoneSet(k);
    }
    assert !Enabled(m, k, Move(i, false)) && !Enabled(m, k, Move(i, true));
  }

  /** A realizable schedule that ends in a violation is followed by a run that
      shows it.  A deadlock shows as a step due in the wrong state. */
  lemma WitnessIsRun(c: Config, moves: seq<Move>, key: ViolationKey) returns (run: seq<Sys>, at: seq<nat>)
    requires PlannedModel(c.m) && FullyActive(c) && LoopsSkippable(c.m) && Realizable(c, moves) && Witnesses(c.m, moves, key)
    ensures IsRun(c, run) && Quiet(run[|run| - 1]) && Follows(c, run, moves, at) && at[|run| - 1] == |moves|
    ensures Happens(c, run, After(c.m, moves).value, key)
  {
    run, at := ScheduleIsRun(c, moves);
    WitnessHappens(c, run, moves, at, key);
  }

  /** Every reported violation happens: some run follows the counterexample and
      shows it, given room for one event per step and no `loop = 0`. */
  lemma CounterexampleIsRun(c: Config, v: Violation) returns (run: seq<Sys>, moves: seq<Move>, at: seq<nat>)
    requires PlannedModel(c.m) && FullyActive(c) && (forall i :: 0 <= i < |c.m.steps| ==> c.m.steps[i].loopCount >= 1)
    requires |c.m.steps| <= c.maxTrace && Justified(c.m, v)
    ensures IsRun(c, run) && Quiet(run[|run| - 1]) && Follows(c, run, moves, at) && at[|run| - 1] == |moves|
    ensures v.counterexample == StepNames(c.m, StepsOf(moves)) && After(c.m, moves).Some?
    ensures Happens(c, run, After(c.m, moves).value, v.key)
  {
    moves :| ShortestWitness(c.m, moves, v.key) && v.counterexample == StepNames(c.m, StepsOf(moves))
             && v.roleStates == RoleMap(c.m, After(c.m, moves).value);
    AllRealizable(c, moves);
    assert LoopsSkippable(c.m);
    hide PlannedModel, WellFormed, Happens, Follows, IsRun, Realizable;
    run, at := WitnessIsRun(c, moves, v.key);
  }

  lemma WitnessHappens(c: Config, run: seq<Sys>, moves: seq<Move>, at: seq<nat>, key: ViolationKey)
    requires PlannedModel(c.m) && LoopsSkippable(c.m)
    requires Follows(c, run, moves, at) && at[|run| - 1] == |moves| && Witnesses(c.m, moves, key)
    ensures Happens(c, run, After(c.m, moves).value, key)
  {
    assert WellFormed(c.m);
    var k, last := After(c.m, moves).value, run[|run| - 1];
    assert moves[..|moves|] == moves && FollowsAt(c, last, moves[..at[|run| - 1]]);
    assert forall j :: 0 <= j < |run| ==> FollowsAt(c, run[j], moves[..at[j]]) && Shape(c, run[j]);
    assert Fits(c.m, k) && Projects(c, last, k);
    hide PlannedModel, WellFormed, Follows, After, Fits, Projects, FollowsAt, MissesState, BrokenIn, MissedBy;
    match key
    case Broken(name) =>
      BrokenHappens(c, last, k, name);
    case NeverReached(name) =>
      MissingHappens(c, run, moves, at, name);
      FinishedHappens(c, last, k);
    case Deadlock =>
      var i := StuckIsDue(c.m, k);
  }

  lemma MissingHappens(c: Config, run: seq<Sys>, moves: seq<Move>, at: seq<nat>, name: string)
    requires WellFormed(c.m) && Follows(c, run, moves, at) && at[|run| - 1] == |moves| && After(c.m, moves).Some?
    requires MissesState(c.m, After(c.m, moves).value, name)
    ensures forall j :: 0 <= j < |run| ==> Shape(c, run[j])
    ensures exists v :: v in c.m.invariants && v.EventuallyState? && v.name == name && MissedBy(c, run, v)
  {
    var ev := Eventualities(c.m.invariants);
    var l :| 0 <= l < |ev| && ev[l].name == name && !After(c.m, moves).value.reached[l];
    hide WellFormed, Follows, After, Eventualities;
    EventualitiesElements(c.m.invariants);
    MissedHappens(c, run, moves, at, l);
    assert ev[l] in ev;
  }

  lemma FinishedHappens(c: Config, s: Sys, k: Key)
    requires Projects(c, s, k) && Fits(c.m, k) && Finished(k)
    ensures AllDone(c, s)
  {
  }

  /** A realizable schedule that ends in a deadlock leads to a run in which the
      engine rejects a step. */
  lemma DeadlockIsRejected(c: Config, moves: seq<Move>) returns (s: Sys, r: nat, i: nat)
    requires PlannedModel(c.m) && FullyActive(c) && LoopsSkippable(c.m) && Realizable(c, moves) && Witnesses(c.m, moves, Deadlock)
    ensures Reached(c, s) && Rejects(c, s, r, i)
  {
    assert EffectiveModel(c.m).steps == c.m.steps;
    assert EffectiveConfig(c) == c;
    i := StuckIsDue(c.m, After(c.m, moves).value);
    assert MakesDue(c, moves, i);
    hide PlannedModel, MakesDue, EffectiveModel;
    s, r := DueIsRejected(c, moves, i);
  }
}
