/** When a step runs, in the protocol's own words: the conditions of the checker and
    of the engine written out on schedules and on engine states. */
module Guards {
  import opened Protocols
  import opened Collections
  import opened ModelChecker
  import opened Explorer
  import opened Checker
  import opened Engine
  import opened Scheduler
  import opened Refinement
  import opened Promises

  // ------------------------------------------------------------------
  // Schedules, written out
  // ------------------------------------------------------------------

  /** The last `to_state` among the steps of the role that ran, or else "initial". */
  ghost function LastState(m: Model, moves: seq<Move>, role: string): string
    decreases |moves|
  {
    if moves == [] then "initial"
    else
      var mv := moves[|moves| - 1];
      if mv.execute && mv.step < |m.steps| && m.steps[mv.step].role == role && m.steps[mv.step].toState.Some?
      then m.steps[mv.step].toState.value
      else LastState(m, moves[..|moves| - 1], role)
  }

  ghost predicate DoneIn(moves: seq<Move>, i: nat) {
    exists q :: 0 <= q < |moves| && moves[q].step == i
  }

  /** The step is due, its `when` allows the move, and if it runs its `from_state` is
      absent, "*" or the role's state. */
  ghost predicate Legal(m: Model, before: seq<Move>, mv: Move) {
    && mv.step < |m.steps| && mv.step < |m.deps| && !DoneIn(before, mv.step)
    && (forall d :: d in m.deps[mv.step] ==> DoneIn(before, d))
    && var step := m.steps[mv.step];
       && (step.when == Always ==> mv.execute)
       && (step.when == Literal(true) ==> mv.execute)
       && (step.when == Literal(false) ==> !mv.execute)
       && (mv.execute && step.fromState.Some? && step.fromState.value != "*" ==>
             step.fromState.value == LastState(m, before, step.role))
  }

  ghost predicate LegalSchedule(m: Model, moves: seq<Move>) {
    forall p :: 0 <= p < |moves| ==> Legal(m, moves[..p], moves[p])
  }

  lemma {:induction false} StatesAre(m: Model, moves: seq<Move>)
    requires WellFormed(m) && After(m, moves).Some?
    ensures forall i: nat :: i < |m.steps| ==> (After(m, moves).value.completed[i] <==> DoneIn(moves, i))
    ensures forall r: nat :: r < |m.roles| ==> After(m, moves).value.roleStates[r] == LastState(m, moves, m.roles[r])
    decreases |moves|
  {
    if moves != [] {
      var front, mv := moves[..|moves| - 1], moves[|moves| - 1];
      StatesAre(m, front);
      var k := After(m, front).value;
      assert moves == front + [mv];
      hide WellFormed, Enabled;
      forall i: nat | i < |m.steps|
        ensures Apply(m, k, mv).completed[i] <==> DoneIn(moves, i)
      {
        DoneGrows(front, mv, i);
      }
      forall r: nat | r < |m.roles|
        ensures Apply(m, k, mv).roleStates[r] == LastState(m, moves, m.roles[r])
      {
        RolePosition(m, mv.step, r);
      }
    }
  }

  lemma DoneGrows(front: seq<Move>, mv: Move, i: nat)
    ensures DoneIn(front + [mv], i) <==> mv.step == i || DoneIn(front, i)
  {
    var all := front + [mv];
    assert all[|front|] == mv;
    if DoneIn(front, i) {
      var q :| 0 <= q < |front| && front[q].step == i;
      assert all[q].step == i;
    }
  }

  lemma RolePosition(m: Model, i: nat, r: nat)
    requires WellFormed(m) && i < |m.steps| && r < |m.roles|
    ensures Position(m.roles, m.steps[i].role) == r <==> m.steps[i].role == m.roles[r]
  {
  }

  lemma EnabledIffLegal(m: Model, moves: seq<Move>, mv: Move)
    requires WellFormed(m) && After(m, moves).Some?
    ensures Enabled(m, After(m, moves).value, mv) <==> Legal(m, moves, mv)
  {
    StatesAre(m, moves);
    hide After, LastState, DoneIn;
    if mv.step < |m.steps| {
      var at := Position(m.roles, m.steps[mv.step].role);
      forall d | d in m.deps[mv.step]
        ensures d < |m.steps|
      {
        var e :| 0 <= e < |m.deps[mv.step]| && m.deps[mv.step][e] == d;
      }
    }
  }

  /** The checker's schedules are exactly the legal ones. */
  lemma {:induction false} ScheduleIffLegal(m: Model, moves: seq<Move>)
    requires WellFormed(m)
    ensures After(m, moves).Some? <==> LegalSchedule(m, moves)
    decreases |moves|
  {
    if moves != [] {
      var n := |moves| - 1;
      ScheduleIffLegal(m, moves[..n]);
      if After(m, moves[..n]).Some? {
        EnabledIffLegal(m, moves[..n], moves[n]);
      }
      hide WellFormed, Legal, LegalSchedule, Enabled, Apply;
      LegalStep(m, moves);
    } else {
      assert LegalSchedule(m, moves);
    }
  }

  lemma LegalStep(m: Model, moves: seq<Move>)
    requires moves != []
    ensures var n := |moves| - 1; LegalSchedule(m, moves) <==> LegalSchedule(m, moves[..n]) && Legal(m, moves[..n], moves[n])
  {
    hide Legal;
    var n := |moves| - 1;
    assert forall p :: 0 <= p < n ==> moves[..n][..p] == moves[..p];
    if LegalSchedule(m, moves) {
      forall p | 0 <= p < n
        ensures Legal(m, moves[..n][..p], moves[..n][p])
      {
        assert Legal(m, moves[..p], moves[p]);
      }
    }
    if LegalSchedule(m, moves[..n]) && Legal(m, moves[..n], moves[n]) {
      forall p | 0 <= p < |moves|
        ensures Legal(m, moves[..p], moves[p])
      {
        if p < n {
          assert Legal(m, moves[..n][..p], moves[..n][p]);
        }
      }
    }
  }

  // ------------------------------------------------------------------
  // A chain of states never deadlocks
  // ------------------------------------------------------------------

  /** The state the first `n` steps lead to when all of them run. */
  ghost function ChainState(steps: seq<Step>, n: nat): string
    requires n <= |steps|
  {
    if n == 0 then "initial"
    else if steps[n - 1].toState.Some? then steps[n - 1].toState.value
    else ChainState(steps, n - 1)
  }

  /** One role whose steps always run, each from the state the ones before it lead to. */
  ghost predicate Chained(m: Model) {
    && PlannedModel(m) && |m.roles| == 1
    && forall i :: 0 <= i < |m.steps| ==>
         m.steps[i].when == Always
         && (m.steps[i].fromState.Some? ==> m.steps[i].fromState.value in {"*", ChainState(m.steps, i)})
  }

  /** The steps run one after the other. */
  lemma {:induction false} ChainInOrder(m: Model, moves: seq<Move>)
    requires Chained(m) && LegalSchedule(m, moves)
    ensures |moves| <= |m.steps| && LastState(m, moves, m.roles[0]) == ChainState(m.steps, |moves|)
    ensures forall q :: 0 <= q < |moves| ==> moves[q] == Move(q, true)
    decreases |moves|
  {
    if moves != [] {
      var n := |moves| - 1;
      var front, mv := moves[..n], moves[n];
      LegalStep(m, moves);
      ChainInOrder(m, front);
      assert forall q :: 0 <= q < n ==> moves[q] == front[q];
      NextInChain(m, front, mv);
      OnlyRole(m, n);
    }
  }

  lemma NextInChain(m: Model, front: seq<Move>, mv: Move)
    requires Chained(m) && Legal(m, front, mv) && forall q :: 0 <= q < |front| ==> front[q] == Move(q, true)
    ensures mv == Move(|front|, true)
  {
    DoneBelow(front);
    if mv.step > 0 {
      OnlyRole(m, mv.step - 1);
      OnlyRole(m, mv.step);
      assert PreviousInPlan(m, mv.step - 1, mv.step);
      assert mv.step - 1 in m.deps[mv.step];
      var q :| 0 <= q < |front| && front[q].step == mv.step - 1;
    }
  }

  lemma DoneBelow(front: seq<Move>)
    requires forall q :: 0 <= q < |front| ==> front[q] == Move(q, true)
    ensures forall i: nat :: i < |front| ==> DoneIn(front, i)
  {
    forall i: nat | i < |front|
      ensures DoneIn(front, i)
    {
      assert front[i].step == i;
    }
  }

  lemma OnlyRole(m: Model, i: nat)
    requires WellFormed(m) && |m.roles| == 1 && i < |m.steps|
    ensures m.steps[i].role == m.roles[0]
  {
  }

  lemma ChainNeverDeadlocks(m: Model, moves: seq<Move>)
    requires Chained(m)
    ensures !Witnesses(m, moves, Deadlock)
  {
    if After(m, moves).Some? {
      ScheduleIffLegal(m, moves);
      ChainInOrder(m, moves);
      StatesAre(m, moves);
      DoneBelow(moves);
      var n := |moves|;
      if n < |m.steps| {
        OnlyRole(m, n);
        assert Legal(m, moves, Move(n, true));
        EnabledIffLegal(m, moves, Move(n, true));
      }
    }
  }

  // ------------------------------------------------------------------
  // The engine's decision, written out
  // ------------------------------------------------------------------

  /** `when` as the engine reads it: a literal, or what its expression yields. */
  ghost function Answer(step: Step, ch: Choice): Option<bool> {
    if step.when == Always || step.when == Literal(true) then Some(true)
    else if step.when == Literal(false) then Some(false)
    else ch.run
  }

  predicate StateFits(step: Step, state: string) {
    step.fromState == None || step.fromState == Some("*") || step.fromState == Some(state)
  }

  /** The step is attempted iff `when` says so, the loop count is not zero, and
      `from_state` is absent, "*" or the role's state.  Otherwise it fails for a `when`
      that is no truth value, is skipped, or is rejected, in this order. */
  ghost predicate DecidedBy(step: Step, state: string, answer: Option<bool>, phase: Phase) {
    && (phase == Emit(1, ThenFail(WhenNotBool)) <==> answer == None)
    && (phase == Emit(1, ThenSkip) <==> answer == Some(false) || (answer == Some(true) && step.loopCount == 0))
    && (phase == Attempt(Counters(0, 0, 0)) <==> answer == Some(true) && step.loopCount > 0 && StateFits(step, state))
    && (phase == Emit(1, ThenFail(StateRejected)) <==> answer == Some(true) && step.loopCount > 0 && !StateFits(step, state))
  }

  lemma DecideInWords(step: Step, state: string, ch: Choice)
    ensures DecidedBy(step, state, Answer(step, ch), Decide(step, state, ch))
  {
    var phase := Decide(step, state, ch);
    assert StateFits(step, state) <==> StateAllows(step.fromState, state);
    match Answer(step, ch)
    case None => assert phase == Emit(1, ThenFail(WhenNotBool));
    case Some(run) =>
      if !run || step.loopCount == 0 {
        assert phase == Emit(1, ThenSkip);
      } else if StateFits(step, state) {
        assert phase == Attempt(Counters(0, 0, 0));
      } else {
        assert phase == Emit(1, ThenFail(StateRejected));
      }
  }

  lemma DecisionIs(c: Config, s: Sys, r: nat, ch: Choice, i: nat)
    requires PlannedModel(c.m) && Inv(c, s) && Fires(c, s, r, ch) && s.threads[r].phase.Deciding?
    requires s.threads[r].pos < |Steps(c, r)| && Steps(c, r)[s.threads[r].pos] == i
    ensures i < |c.m.steps|
    ensures var step := c.m.steps[i];
            DecidedBy(step, EngineState(c, s, step.role), Answer(step, ch), Do(c, s, r, ch).threads[r].phase)
  {
    StepView(c, s, r, ch);
    StepOfRole(c, r, s.threads[r].pos);
    PositionOfRole(c.m, r);
    hide PlannedModel, Inv, CanStep, Steps, Do, Decide, DecidedBy, Answer;
    DecideInWords(c.m.steps[i], s.threads[r].state, ch);
  }

  /** Every role starts in "initial". */
  lemma StartsInitial(c: Config, role: string)
    requires WellFormed(c.m) && role in c.m.roles
    ensures Shape(c, Start(c)) && EngineState(c, Start(c), role) == "initial"
  {
  }

  // ------------------------------------------------------------------
  // Violations, written out
  // ------------------------------------------------------------------

  ghost predicate Breaks(m: Model, moves: seq<Move>, v: Invariant) {
    match v
    case NeverState(_, role, state) => LastState(m, moves, role) == state
    case StateImplies(_, role, state, other, otherState) =>
      LastState(m, moves, role) == state && LastState(m, moves, other) != otherState
    case EventuallyState(_, _, _) => false
  }

  ghost predicate Visits(m: Model, moves: seq<Move>, v: Invariant) {
    exists p :: 0 <= p <= |moves| && LastState(m, moves[..p], v.role) == v.state
  }

  /** A broken invariant; a finished schedule that never was in the state to be reached;
      or an unfinished one with no legal move left. */
  ghost predicate ShowsInWords(m: Model, moves: seq<Move>, key: ViolationKey) {
    match key
    case Broken(name) => exists v :: v in m.invariants && v.name == name && Breaks(m, moves, v)
    case NeverReached(name) =>
      && (forall i: nat :: i < |m.steps| ==> DoneIn(moves, i))
      && exists v :: v in m.invariants && v.EventuallyState? && v.name == name && !Visits(m, moves, v)
    case Deadlock =>
      && (exists i: nat :: i < |m.steps| && !DoneIn(moves, i))
      && forall mv :: !Legal(m, moves, mv)
  }

  lemma RoleStateIs(m: Model, moves: seq<Move>, role: string)
    requires WellFormed(m) && After(m, moves).Some? && role in m.roles
    ensures After(m, moves).value.roleStates[Position(m.roles, role)] == LastState(m, moves, role)
  {
    StatesAre(m, moves);
    hide After, LastState;
  }

  lemma VisitsIff(m: Model, moves: seq<Move>, v: Invariant)
    requires WellFormed(m) && After(m, moves).Some? && v.role in m.roles
    ensures VisitsState(m, moves, v) <==> Visits(m, moves, v)
  {
    forall p | 0 <= p <= |moves|
      ensures InStateAt(m, moves, p, v) <==> LastState(m, moves[..p], v.role) == v.state
    {
      PrefixIsRun(m, moves, p);
      RoleStateIs(m, moves[..p], v.role);
    }
  }

  lemma BreaksIff(m: Model, moves: seq<Move>, v: Invariant)
    requires WellFormed(m) && After(m, moves).Some? && v in m.invariants
    ensures Fails(m, After(m, moves).value, v) <==> Breaks(m, moves, v)
  {
    hide After, LastState;
    RoleStateIs(m, moves, v.role);
    if v.StateImplies? {
      RoleStateIs(m, moves, v.impliesRole);
    }
  }

  lemma MissesIff(m: Model, moves: seq<Move>, name: string)
    requires WellFormed(m) && After(m, moves).Some?
    ensures MissesState(m, After(m, moves).value, name) <==>
            exists v :: v in m.invariants && v.EventuallyState? && v.name == name && !Visits(m, moves, v)
  {
    var ev := Eventualities(m.invariants);
    EventualitiesElements(m.invariants);
    hide After, LastState, Visits, VisitsState, Eventualities;
    forall l: nat | l < |ev|
      ensures ev[l] in m.invariants && ev[l].EventuallyState? && (After(m, moves).value.reached[l] <==> Visits(m, moves, ev[l]))
    {
      assert ev[l] in ev;
      HistoryIsExact(m, moves, l);
      VisitsIff(m, moves, ev[l]);
    }
    if v :| v in m.invariants && v.EventuallyState? && v.name == name && !Visits(m, moves, v) {
      assert v in ev;
      var l: nat :| l < |ev| && ev[l] == v;
    }
  }

  /** A schedule witnesses a violation of the report iff it shows it in these words. */
  lemma WitnessInWords(m: Model, moves: seq<Move>, key: ViolationKey)
    requires WellFormed(m)
    ensures Witnesses(m, moves, key) <==> LegalSchedule(m, moves) && ShowsInWords(m, moves, key)
  {
    ScheduleIffLegal(m, moves);
    hide After, LegalSchedule, Legal, LastState;
    if After(m, moves).Some? {
      StatesAre(m, moves);
      match key
      case Broken(name) =>
        forall v | v in m.invariants
          ensures Fails(m, After(m, moves).value, v) <==> Breaks(m, moves, v)
        {
          BreaksIff(m, moves, v);
        }
      case NeverReached(name) => MissesIff(m, moves, name);
      case Deadlock =>
        forall mv
          ensures Enabled(m, After(m, moves).value, mv) <==> Legal(m, moves, mv)
        {
          EnabledIffLegal(m, moves, mv);
        }
    }
  }

  /** What a report says: every entry is shown by a legal schedule, and a complete report
      has an entry for everything any legal schedule shows. */
  lemma ReportInWords(m: Model, maxStates: nat, report: Report, key: ViolationKey)
    requires WellFormed(m) && ReportOk(m, maxStates, report)
    ensures Has(report.violations, key) ==> exists moves :: LegalSchedule(m, moves) && ShowsInWords(m, moves, key)
    ensures report.complete && (exists moves :: LegalSchedule(m, moves) && ShowsInWords(m, moves, key)) ==> Has(report.violations, key)
  {
    forall moves
      ensures Witnesses(m, moves, key) <==> LegalSchedule(m, moves) && ShowsInWords(m, moves, key)
    {
      WitnessInWords(m, moves, key);
    }
    hide Witnesses, LegalSchedule, ShowsInWords, BoundOk, UnreachableOk, TransitionsOk;
    if Has(report.violations, key) {
      var i :| 0 <= i < |report.violations| && report.violations[i].key == key;
      assert Justified(m, report.violations[i]);
    }
  }

  // ------------------------------------------------------------------
  // What a clean report says, invariant by invariant
  // ------------------------------------------------------------------

  /** After every step of every schedule: a forbidden state is not taken, and an
      implied one is. */
  lemma CleanInWords(m: Model, maxStates: nat, report: Report, moves: seq<Move>, v: Invariant)
    requires WellFormed(m) && Clean(m, maxStates, report) && LegalSchedule(m, moves) && v in m.invariants
    ensures v.NeverState? ==> LastState(m, moves, v.role) != v.state
    ensures v.StateImplies? && LastState(m, moves, v.role) == v.state ==> LastState(m, moves, v.impliesRole) == v.impliesState
  {
    ScheduleIffLegal(m, moves);
    StatesAre(m, moves);
    CleanMeansSafe(m, maxStates, report, moves, v);
    hide Clean, LegalSchedule, After, LastState;
    assert v.role in m.roles && (v.StateImplies? ==> v.impliesRole in m.roles);
  }
}
