/** Steps with `loop = 0`: the engine passes over them whatever their `when` says.
    To the checker they are steps that are always skipped, and that is the exact
    account of the engine's runs. */
module LoopZero {
  import opened Protocols
  import opened Collections
  import opened ModelChecker
  import opened Checker
  import opened Engine
  import opened Scheduler
  import opened Refinement
  import opened Realization

  /** A step the engine passes over although the checker must run it. */
  predicate PassedOver(step: Step) {
    step.loopCount == 0 && !Allows(step.when, false)
  }

  function Effective(step: Step): Step {
    if PassedOver(step) then step.(when := Literal(false)) else step
  }

  /** The protocol as the engine runs it. */
  function EffectiveModel(m: Model): Model {
    m.(steps := seq(|m.steps|, i requires 0 <= i < |m.steps| => Effective(m.steps[i])))
  }

  function EffectiveConfig(c: Config): Config {
    c.(m := EffectiveModel(c.m))
  }

  // ------------------------------------------------------------------
  // The engine cannot tell the two apart
  // ------------------------------------------------------------------

  lemma EffectiveIsPlanned(m: Model)
    requires PlannedModel(m)
    ensures PlannedModel(EffectiveModel(m)) && LoopsSkippable(EffectiveModel(m))
  {
    var e := EffectiveModel(m);
    forall i, d: nat | 0 <= i < |e.steps| && d < |e.steps|
      ensures d in e.deps[i] <==> PreviousInPlan(e, d, i) || e.steps[d].name in e.steps[i].dependsOn
    {
      assert PreviousInPlan(e, d, i) <==> PreviousInPlan(m, d, i);
    }
  }

  lemma {:induction false} SameRoleSteps(m: Model, role: string, n: nat)
    requires n <= |m.steps|
    ensures RoleSteps(EffectiveModel(m), role, n) == RoleSteps(m, role, n)
  {
    if n > 0 {
      SameRoleSteps(m, role, n - 1);
    }
  }

  lemma SameThreadStep(c: Config, r: nat, step: Step, t: Thread, sh: Shared, ch: Choice)
    ensures StepThread(EffectiveConfig(c), r, Effective(step), t, sh, ch) == StepThread(c, r, step, t, sh, ch)
  {
  }

  lemma SameDo(c: Config, s: Sys, r: nat, ch: Choice)
    requires r < |s.threads| && r < |c.m.roles|
    ensures Do(EffectiveConfig(c), s, r, ch) == Do(c, s, r, ch)
  {
    SameRoleSteps(c.m, c.m.roles[r], |c.m.steps|);
    var t := s.threads[r];
    hide StepThread, Effective, RoleSteps, StepHistory;
    if t.pos < |Steps(c, r)| && Steps(c, r)[t.pos] < |c.m.steps| {
      SameThreadStep(c, r, c.m.steps[Steps(c, r)[t.pos]], t, s.shared, ch);
    }
  }

  lemma SameCanStep(c: Config, s: Sys, r: nat, ch: Choice)
    requires r < |s.threads| && r < |c.m.roles|
    ensures CanStep(EffectiveConfig(c), s, r, ch) <==> CanStep(c, s, r, ch)
  {
    SameRoleSteps(c.m, c.m.roles[r], |c.m.steps|);
    hide RoleSteps;
    forall i: nat | i < |c.m.steps|
      ensures DeclaredDone(EffectiveModel(c.m), i, s.shared.completed) <==> DeclaredDone(c.m, i, s.shared.completed)
    {
    }
  }

  lemma SameStart(c: Config)
    ensures Start(EffectiveConfig(c)) == Start(c)
  {
    var e := EffectiveConfig(c);
    var a := set i: nat | i < |c.m.steps| && c.m.steps[i].role !in c.active;
    var b := set i: nat | i < |e.m.steps| && e.m.steps[i].role !in e.active;
    assert forall i: nat :: i < |c.m.steps| ==> e.m.steps[i].role == c.m.steps[i].role;
    assert a == b;
    assert Start(e).threads == Start(c).threads;
  }

  lemma SameStepsTo(c: Config, s: Sys, s': Sys)
    ensures StepsTo(EffectiveConfig(c), s, s') <==> StepsTo(c, s, s')
  {
    hide Do, CanStep, EffectiveModel;
    var e := EffectiveConfig(c);
    assert Shape(e, s) <==> Shape(c, s) by {
      SameRoleCount(c.m);
    }
    SameRoleCount(c.m);
    if StepsTo(e, s, s') {
      var r: nat, ch :| Fires(e, s, r, ch) && s' == Do(e, s, r, ch);
      SameDo(c, s, r, ch);
      SameCanStep(c, s, r, ch);
      assert Fires(c, s, r, ch);
    }
    if StepsTo(c, s, s') {
      var r: nat, ch :| Fires(c, s, r, ch) && s' == Do(c, s, r, ch);
      SameDo(c, s, r, ch);
      SameCanStep(c, s, r, ch);
      assert Fires(e, s, r, ch);
    }
  }

  lemma SameRoleCount(m: Model)
    ensures EffectiveModel(m).roles == m.roles && |EffectiveModel(m).steps| == |m.steps|
  {
  }

  lemma SameRuns(c: Config, run: seq<Sys>)
    ensures IsRun(EffectiveConfig(c), run) <==> IsRun(c, run)
  {
    SameStart(c);
    hide StepsTo, Start;
    forall i | 0 <= i < |run| - 1
      ensures StepsTo(EffectiveConfig(c), run[i], run[i + 1]) <==> StepsTo(c, run[i], run[i + 1])
    {
      SameStepsTo(c, run[i], run[i + 1]);
    }
  }

  // ------------------------------------------------------------------
  // Runs and schedules, exactly
  // ------------------------------------------------------------------

  /** A schedule some run of the engine follows. */
  ghost predicate EngineSchedule(c: Config, moves: seq<Move>)
    requires WellFormed(EffectiveModel(c.m))
  {
    Realizable(EffectiveConfig(c), moves)
  }

  /** Every run up to its first failure follows an engine schedule of the
      effective protocol, whatever the loop counts. */
  lemma RunIsSchedule(c: Config, run: seq<Sys>) returns (moves: seq<Move>, at: seq<nat>)
    requires PlannedModel(c.m) && FullyActive(c) && IsRun(c, run) && run[|run| - 1].shared.error.None?
    ensures PlannedModel(EffectiveModel(c.m))
    ensures Follows(EffectiveConfig(c), run, moves, at) && at[|run| - 1] == |moves| && EngineSchedule(c, moves)
  {
    EffectiveIsPlanned(c.m);
    SameRuns(c, run);
    hide PlannedModel, IsRun, Follows, LoopsSkippable, EffectiveModel;
    SameRoleCount(c.m);
    moves, at := RunIsRealizable(EffectiveConfig(c), run);
  }

  /** And every engine schedule is what some run follows. */
  lemma EngineScheduleIsRun(c: Config, moves: seq<Move>) returns (run: seq<Sys>, at: seq<nat>)
    requires PlannedModel(c.m) && FullyActive(c) && WellFormed(EffectiveModel(c.m)) && EngineSchedule(c, moves)
    ensures IsRun(c, run) && Follows(EffectiveConfig(c), run, moves, at) && at[|run| - 1] == |moves| && Quiet(run[|run| - 1])
  {
    EffectiveIsPlanned(c.m);
    hide PlannedModel, IsRun, Follows, LoopsSkippable, EffectiveModel;
    SameRoleCount(c.m);
    run, at := ScheduleIsRun(EffectiveConfig(c), moves);
    SameRuns(c, run);
  }

  // ------------------------------------------------------------------
  // When runs follow the checker's own schedules
  // ------------------------------------------------------------------

  ghost function StateOf(m: Model, k: Key, i: nat): string
    requires WellFormed(m) && |k.roleStates| == |m.roles| && i < |m.steps|
  {
    k.roleStates[Position(m.roles, m.steps[i].role)]
  }

  /** The engine passes over a step whose `from_state` does not hold or whose
      `to_state` would have changed the role's state. */
  ghost predicate LoopGap(c: Config, moves: seq<Move>)
    requires WellFormed(c.m) && WellFormed(EffectiveModel(c.m))
  {
    && moves != [] && EngineSchedule(c, moves)
    && var i := moves[|moves| - 1].step;
       var before := After(EffectiveModel(c.m), moves[..|moves| - 1]);
       && i < |c.m.steps| && PassedOver(c.m.steps[i]) && before.Some?
       && var state := StateOf(c.m, before.value, i);
          !(StateAllows(c.m.steps[i].fromState, state) && Target(c.m.steps[i], state) == state)
  }

  ghost predicate NoLoopGap(c: Config)
    requires WellFormed(c.m) && WellFormed(EffectiveModel(c.m))
  {
    forall moves :: !LoopGap(c, moves)
  }

  /** The checker's name for an engine move: what is passed over counts as run. */
  function Renamed(m: Model, mv: Move): Move {
    if mv.step < |m.steps| && PassedOver(m.steps[mv.step]) then Move(mv.step, true) else mv
  }

  function RenamedAll(m: Model, moves: seq<Move>): (r: seq<Move>)
    ensures |r| == |moves|
  {
    seq(|moves|, j requires 0 <= j < |moves| => Renamed(m, moves[j]))
  }

  ghost predicate SameView(a: Option<Key>, b: Option<Key>) {
    a.Some? && b.Some? && a.value.completed == b.value.completed && a.value.roleStates == b.value.roleStates
  }

  /** Without a gap, one move does the same under both names. */
  lemma RenamedMove(m: Model, k: Key, e: Key, mv: Move)
    requires WellFormed(m) && WellFormed(EffectiveModel(m)) && Fits(m, k) && Fits(EffectiveModel(m), e)
    requires k.completed == e.completed && k.roleStates == e.roleStates && Enabled(EffectiveModel(m), e, mv)
    requires PassedOver(m.steps[mv.step]) ==>
               var state := StateOf(m, e, mv.step);
               StateAllows(m.steps[mv.step].fromState, state) && Target(m.steps[mv.step], state) == state
    ensures Enabled(m, k, Renamed(m, mv))
    ensures Apply(m, k, Renamed(m, mv)).completed == Apply(EffectiveModel(m), e, mv).completed
    ensures Apply(m, k, Renamed(m, mv)).roleStates == Apply(EffectiveModel(m), e, mv).roleStates
  {
    var i := mv.step;
    assert EffectiveModel(m).steps[i] == Effective(m.steps[i]);
    var at := Position(m.roles, m.steps[i].role);
    if PassedOver(m.steps[i]) {
      assert !mv.execute;
      assert k.roleStates[at := Target(m.steps[i], k.roleStates[at])] == k.roleStates;
    }
  }

  lemma {:induction false} RenamedSchedule(c: Config, moves: seq<Move>)
    requires WellFormed(c.m) && WellFormed(EffectiveModel(c.m)) && NoLoopGap(c) && EngineSchedule(c, moves)
    ensures SameView(After(c.m, RenamedAll(c.m, moves)), After(EffectiveModel(c.m), moves))
    decreases |moves|
  {
    if moves != [] {
      var front, mv := moves[..|moves| - 1], moves[|moves| - 1];
      FrontIsRealizable(EffectiveConfig(c), moves);
      RenamedSchedule(c, front);
      var renamed := RenamedAll(c.m, moves);
      assert renamed[..|moves| - 1] == RenamedAll(c.m, front);
      assert !LoopGap(c, moves);
      hide WellFormed, Enabled, Apply, Effective, EffectiveModel, Realizable;
      SameRoleCount(c.m);
      RenamedMove(c.m, After(c.m, RenamedAll(c.m, front)).value, After(EffectiveModel(c.m), front).value, mv);
    }
  }

  lemma {:induction false} PrefixIsRealizable(c: Config, moves: seq<Move>, p: nat)
    requires WellFormed(c.m) && Realizable(c, moves) && p <= |moves|
    ensures Realizable(c, moves[..p])
    decreases |moves|
  {
    hide Realizable;
    if p == |moves| {
      assert moves[..p] == moves;
    } else {
      FrontIsRealizable(c, moves);
      PrefixIsRealizable(c, moves[..|moves| - 1], p);
      assert moves[..|moves| - 1][..p] == moves[..p];
    }
  }

  /** Without a gap every run follows a schedule of the checker itself. */
  lemma FollowsUnlessGap(c: Config, run: seq<Sys>) returns (moves: seq<Move>, at: seq<nat>)
    requires PlannedModel(c.m) && FullyActive(c) && WellFormed(EffectiveModel(c.m)) && NoLoopGap(c)
    requires IsRun(c, run) && run[|run| - 1].shared.error.None?
    ensures Follows(c, run, moves, at) && at[|run| - 1] == |moves|
  {
    var engine;
    engine, at := RunIsSchedule(c, run);
    moves := RenamedAll(c.m, engine);
    var e := EffectiveConfig(c);
    hide PlannedModel, NoLoopGap, WellFormed, Realizable, IsRun;
    forall j | 0 <= j < |at|
      ensures at[j] <= |moves| && FollowsAt(c, run[j], moves[..at[j]])
    {
      assert FollowsAt(e, run[j], engine[..at[j]]);
      PrefixIsRealizable(e, engine, at[j]);
      RenamedSchedule(c, engine[..at[j]]);
      assert moves[..at[j]] == RenamedAll(c.m, engine[..at[j]]);
      ProjectsRenamed(c, run[j], After(e.m, engine[..at[j]]).value, After(c.m, moves[..at[j]]).value);
    }
  }

  lemma ProjectsRenamed(c: Config, s: Sys, e: Key, k: Key)
    requires Projects(EffectiveConfig(c), s, e) && k.completed == e.completed && k.roleStates == e.roleStates
    ensures Projects(c, s, k)
  {
    SameRoleCount(c.m);
  }

  ghost function DoneSet(k: Key): set<nat> {
    set i: nat | i < |k.completed| && k.completed[i]
  }

  lemma {:induction false} DoneAreCounted(m: Model, moves: seq<Move>)
    requires WellFormed(m) && After(m, moves).Some?
    ensures |DoneSet(After(m, moves).value)| == |moves|
    decreases |moves|
  {
    if moves == [] {
      assert DoneSet(After(m, moves).value) == {};
    } else {
      var front, mv := moves[..|moves| - 1], moves[|moves| - 1];
      DoneAreCounted(m, front);
      var k := After(m, front).value;
      hide WellFormed;
      assert DoneSet(Apply(m, k, mv)) == DoneSet(k) + {mv.step};
    }
  }

  /** What the checker would have to do where the engine passes over a step. */
  lemma NoMoveAcrossGap(m: Model, k: Key, e: Key, i: nat, mv: Move)
    requires WellFormed(m) && WellFormed(EffectiveModel(m)) && Fits(m, k) && Fits(EffectiveModel(m), e) && i < |m.steps|
    requires k.completed == e.completed && k.roleStates == e.roleStates && PassedOver(m.steps[i]) && !e.completed[i]
    requires Enabled(m, k, mv) && Apply(m, k, mv).completed == e.completed[i := true]
    requires Apply(m, k, mv).roleStates == e.roleStates
    ensures StateAllows(m.steps[i].fromState, StateOf(m, e, i)) && Target(m.steps[i], StateOf(m, e, i)) == StateOf(m, e, i)
  {
    assert k.completed[mv.step := true][i];
    assert mv.step == i;
    assert mv.execute;
    var at := Position(m.roles, m.steps[i].role);
    assert Apply(m, k, mv).roleStates[at] == Target(m.steps[i], k.roleStates[at]);
  }

  /** Two projections of one state agree. */
  lemma SameProjection(c: Config, s: Sys, k: Key, e: Key)
    requires Projects(c, s, k) && Projects(EffectiveConfig(c), s, e)
    ensures k.completed == e.completed && k.roleStates == e.roleStates
  {
    SameRoleCount(c.m);
  }

  /** The run that realizes a gap follows no schedule of the checker. */
  lemma GapEscapes(c: Config, gap: seq<Move>, run: seq<Sys>, at: seq<nat>, moves: seq<Move>, at': seq<nat>)
    requires PlannedModel(c.m) && PlannedModel(EffectiveModel(c.m)) && LoopGap(c, gap)
    requires Follows(EffectiveConfig(c), run, gap, at) && at[|run| - 1] == |gap|
    ensures !Follows(c, run, moves, at')
  {
    var e := EffectiveConfig(c);
    if Follows(c, run, moves, at') {
      var n := |run| - 1;
      var front := gap[..|gap| - 1];
      var j := ReachesMark(e, run, gap, at, |gap| - 1, n);
      assert gap[..|gap|] == gap;
      assert FollowsAt(e, run[n], gap[..at[n]]) && FollowsAt(e, run[j], gap[..at[j]]);
      assert FollowsAt(c, run[n], moves[..at'[n]]) && FollowsAt(c, run[j], moves[..at'[j]]);
      hide PlannedModel, Follows, EffectiveModel, Realizable;
      assert WellFormed(c.m) && WellFormed(e.m);
      CrossedIsNoGap(c, gap, run[j], run[n], moves, at'[j], at'[n]);
    }
  }

  /** Where the checker keeps step with the engine there is no gap. */
  lemma CrossedIsNoGap(c: Config, gap: seq<Move>, s: Sys, s': Sys, moves: seq<Move>, a: nat, b: nat)
    requires WellFormed(c.m) && WellFormed(EffectiveModel(c.m)) && gap != []
    requires FollowsAt(EffectiveConfig(c), s, gap[..|gap| - 1]) && FollowsAt(EffectiveConfig(c), s', gap)
    requires gap[|gap| - 1].step < |c.m.steps| && PassedOver(c.m.steps[gap[|gap| - 1].step])
    requires a <= |moves| && b <= |moves| && FollowsAt(c, s, moves[..a]) && FollowsAt(c, s', moves[..b])
    ensures !LoopGap(c, gap)
  {
    var p, q := moves[..a], moves[..b];
    var e := EffectiveModel(c.m);
    var front, mv := gap[..|gap| - 1], gap[|gap| - 1];
    var k, k' := After(c.m, p).value, After(c.m, q).value;
    var x, x' := After(e, front).value, After(e, gap).value;
    assert Enabled(e, x, mv) && x' == Apply(e, x, mv);
    SameProjection(c, s, k, x);
    SameProjection(c, s', k', x');
    DoneAreCounted(c.m, p);
    DoneAreCounted(c.m, q);
    DoneAreCounted(e, front);
    DoneAreCounted(e, gap);
    assert a == |gap| - 1 && b == |gap|;
    assert q[..a] == p;
    assert Enabled(c.m, k, q[a]) && k' == Apply(c.m, k, q[a]);
    assert !mv.execute && x'.completed == x.completed[mv.step := true] && x'.roleStates == x.roleStates;
    hide WellFormed, Enabled, Apply, After, EffectiveModel;
    NoMoveAcrossGap(c.m, k, x, mv.step, q[a]);
  }

  ghost predicate FailureFree(c: Config, run: seq<Sys>) {
    IsRun(c, run) && run[|run| - 1].shared.error.None?
  }

  /** All failure-free runs follow schedules of the checker iff no engine schedule
      ends in a gap. */
  lemma FollowsIffNoGap(c: Config)
    requires PlannedModel(c.m) && FullyActive(c) && WellFormed(EffectiveModel(c.m))
    ensures NoLoopGap(c) <==>
            forall run :: FailureFree(c, run) ==> exists moves, at :: Follows(c, run, moves, at)
  {
    hide IsRun, Follows;
    if NoLoopGap(c) {
      forall run | FailureFree(c, run)
        ensures exists moves, at :: Follows(c, run, moves, at)
      {
        var moves, at := FollowsUnlessGap(c, run);
      }
    } else {
      var gap :| LoopGap(c, gap);
      EffectiveIsPlanned(c.m);
      var run, at := EngineScheduleIsRun(c, gap);
      assert FailureFree(c, run);
      forall moves, at'
        ensures !Follows(c, run, moves, at')
      {
        GapEscapes(c, gap, run, at, moves, at');
      }
    }
  }

  /** It is enough that every loop=0 step may be skipped or touches no state. */
  lemma HarmlessLoops(c: Config)
    requires WellFormed(c.m) && WellFormed(EffectiveModel(c.m))
    requires forall i :: 0 <= i < |c.m.steps| && PassedOver(c.m.steps[i]) ==>
               c.m.steps[i].toState.None? && (c.m.steps[i].fromState.None? || c.m.steps[i].fromState == Some("*"))
    ensures NoLoopGap(c)
  {
  }
}
