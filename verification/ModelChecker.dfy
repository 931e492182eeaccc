/** `model_check::check`: breadth-first exploration of every schedule of a plan,
    bounded by a number of states, with safety, liveness and deadlock reports. */
module ModelChecker {
  import opened Protocols
  import opened Collections
  import Planner

  /** The explored system: planned steps, dependencies by plan index, the role
      list and the declared invariants. */
  datatype Model = Model(steps: seq<Step>, deps: seq<seq<nat>>, roles: seq<string>, invariants: seq<Invariant>)

  /** The deduplication key of an explored state. */
  datatype Key = Key(completed: seq<bool>, roleStates: seq<string>, reached: seq<bool>)

  /** One transition: plan index of the step, and whether it runs or is skipped. */
  datatype Move = Move(step: nat, execute: bool)

  ghost predicate WellFormed(m: Model) {
    && |m.deps| == |m.steps|
    && (forall i, d :: 0 <= i < |m.steps| && 0 <= d < |m.deps[i]| ==> m.deps[i][d] < |m.steps|)
    && (forall i :: 0 <= i < |m.steps| ==> m.steps[i].role in m.roles)
    && (forall v :: v in m.invariants ==> v.role in m.roles && (v.StateImplies? ==> v.impliesRole in m.roles))
    && Distinct(m.roles)
  }

  ghost predicate Fits(m: Model, k: Key) {
    && |k.completed| == |m.steps|
    && |k.roleStates| == |m.roles|
    && |k.reached| == |Eventualities(m.invariants)|
  }

  /** The `eventually_state` invariants, in declaration order. */
  function Eventualities(invariants: seq<Invariant>): (r: seq<Invariant>) {
    if invariants == [] then []
    else (if invariants[0].EventuallyState? then [invariants[0]] else []) + Eventualities(invariants[1..])
  }

  lemma {:induction false} EventualitiesElements(invariants: seq<Invariant>)
    ensures forall v :: v in Eventualities(invariants) <==> v in invariants && v.EventuallyState?
  {
    if invariants != [] {
      EventualitiesElements(invariants[1..]);
    }
  }

  function Position(roles: seq<string>, role: string): (r: nat)
    requires role in roles
    ensures r < |roles| && roles[r] == role
  {
    if roles[0] == role then 0 else 1 + Position(roles[1..], role)
  }

  // ------------------------------------------------------------------
  // The transition system
  // ------------------------------------------------------------------

  function Initial(m: Model): (k: Key) {
    var ev := Eventualities(m.invariants);
    Key(seq(|m.steps|, _ => false), seq(|m.roles|, _ => INITIAL_STATE),
        seq(|ev|, i requires 0 <= i < |ev| => ev[i].state == INITIAL_STATE))
  }

  /** Whether the step may run or be skipped as far as `when` is concerned. */
  predicate Allows(when: Condition, execute: bool) {
    match when
    case Always => execute
    case Literal(enabled) => execute == enabled
    case Dynamic => true
  }

  predicate Enabled(m: Model, k: Key, mv: Move)
    requires WellFormed(m) && Fits(m, k)
  {
    && mv.step < |m.steps|
    && !k.completed[mv.step]
    && (forall d :: 0 <= d < |m.deps[mv.step]| ==> k.completed[m.deps[mv.step][d]])
    && Allows(m.steps[mv.step].when, mv.execute)
    && (mv.execute ==> StateAllows(m.steps[mv.step].fromState, k.roleStates[Position(m.roles, m.steps[mv.step].role)]))
  }

  predicate StateAllows(fromState: Option<string>, state: string) {
    fromState.None? || fromState.value == "*" || fromState.value == state
  }

  function Apply(m: Model, k: Key, mv: Move): (k': Key)
    requires WellFormed(m) && Fits(m, k) && mv.step < |m.steps|
    ensures Fits(m, k')
  {
    var step := m.steps[mv.step];
    Key(k.completed[mv.step := true],
        if mv.execute && step.toState.Some? then k.roleStates[Position(m.roles, step.role) := step.toState.value]
        else k.roleStates,
        Reach(Eventualities(m.invariants), k.reached, step, mv.execute))
  }

  function Reach(ev: seq<Invariant>, reached: seq<bool>, step: Step, execute: bool): (r: seq<bool>)
    requires |ev| == |reached|
    ensures |r| == |ev|
  {
    seq(|ev|, i requires 0 <= i < |ev| => reached[i] || Arrives(step, execute, ev[i]))
  }

  /** Running the step puts the invariant's role into the invariant's state. */
  predicate Arrives(step: Step, execute: bool, v: Invariant) {
    execute && step.role == v.role && step.toState == Some(v.state)
  }

  /** The state a schedule leads to, if every one of its moves is enabled. */
  ghost function After(m: Model, moves: seq<Move>): (r: Option<Key>)
    requires WellFormed(m)
    ensures r.Some? ==> Fits(m, r.value)
    decreases |moves|
  {
    if moves == [] then Some(Initial(m))
    else
      var before := After(m, moves[..|moves| - 1]);
      var mv := moves[|moves| - 1];
      if before.Some? && Enabled(m, before.value, mv) then Some(Apply(m, before.value, mv)) else None
  }

  ghost predicate Reachable(m: Model, k: Key)
    requires WellFormed(m)
  {
    exists moves :: After(m, moves) == Some(k)
  }

  ghost function StepsOf(moves: seq<Move>): (r: seq<nat>) {
    seq(|moves|, i requires 0 <= i < |moves| => moves[i].step)
  }

  ghost predicate Stuck(m: Model, k: Key)
    requires WellFormed(m) && Fits(m, k)
  {
    forall mv :: !Enabled(m, k, mv)
  }

  predicate Finished(k: Key) {
    forall i :: 0 <= i < |k.completed| ==> k.completed[i]
  }

  // ------------------------------------------------------------------
  // Violations
  // ------------------------------------------------------------------

  datatype ViolationKey = Broken(name: string) | NeverReached(name: string) | Deadlock

  datatype Violation = Violation(key: ViolationKey, counterexample: seq<string>, roleStates: map<string, string>)

  predicate Fails(m: Model, k: Key, v: Invariant)
    requires WellFormed(m) && Fits(m, k) && v in m.invariants
  {
    match v
    case NeverState(_, role, state) => k.roleStates[Position(m.roles, role)] == state
    case StateImplies(_, role, state, other, otherState) =>
      k.roleStates[Position(m.roles, role)] == state && k.roleStates[Position(m.roles, other)] != otherState
    case EventuallyState(_, _, _) => false
  }

  ghost predicate BreaksInvariant(m: Model, k: Key, name: string)
    requires WellFormed(m) && Fits(m, k)
  {
    exists v :: v in m.invariants && v.name == name && Fails(m, k, v)
  }

  ghost predicate MissesState(m: Model, k: Key, name: string)
    requires Fits(m, k)
  {
    var ev := Eventualities(m.invariants);
    exists i :: 0 <= i < |ev| && ev[i].name == name && !k.reached[i]
  }

  /** The state itself shows the violation. */
  ghost predicate Exhibits(m: Model, k: Key, key: ViolationKey)
    requires WellFormed(m) && Fits(m, k)
  {
    match key
    case Broken(name) => BreaksInvariant(m, k, name)
    case NeverReached(name) => Finished(k) && MissesState(m, k, name)
    case Deadlock => Stuck(m, k) && !Finished(k)
  }

  /** The schedule ends in a state that shows the violation. */
  ghost predicate Witnesses(m: Model, moves: seq<Move>, key: ViolationKey)
    requires WellFormed(m)
  {
    After(m, moves).Some? && Exhibits(m, After(m, moves).value, key)
  }

  ghost predicate ShortestWitness(m: Model, moves: seq<Move>, key: ViolationKey)
    requires WellFormed(m)
  {
    Witnesses(m, moves, key) && forall other :: Witnesses(m, other, key) ==> |moves| <= |other|
  }

  ghost function StepNames(m: Model, path: seq<nat>): (r: seq<string>) {
    seq(|path|, i requires 0 <= i < |path| => if path[i] < |m.steps| then m.steps[path[i]].name else "")
  }

  ghost function RoleMap(m: Model, k: Key): (r: map<string, string>)
    requires Fits(m, k)
  {
    map role | role in m.roles :: k.roleStates[Position(m.roles, role)]
  }

  /** The counterexample replays to a state showing the violation, no schedule
      does so in fewer steps, and the reported role states are that state's. */
  ghost predicate Justified(m: Model, v: Violation)
    requires WellFormed(m)
  {
    exists moves :: ShortestWitness(m, moves, v.key)
                    && v.counterexample == StepNames(m, StepsOf(moves))
                    && v.roleStates == RoleMap(m, After(m, moves).value)
  }

  // ------------------------------------------------------------------
  // Breadth-first search
  // ------------------------------------------------------------------

  datatype State = State(key: Key, path: seq<nat>)

  /** Some choice of run/skip along `path` leads to `k`. */
  ghost predicate Replays(m: Model, path: seq<nat>, k: Key)
    requires WellFormed(m)
  {
    exists moves :: After(m, moves) == Some(k) && StepsOf(moves) == path
  }

  ghost predicate QueueOk(m: Model, queue: seq<State>)
    requires WellFormed(m)
  {
    && (forall q :: 0 <= q < |queue| ==> Replays(m, queue[q].path, queue[q].key))
    && forall a, b :: 0 <= a <= b < |queue| ==> |queue[a].path| <= |queue[b].path| <= |queue[a].path| + 1
  }

  /** `k` was expanded at depth at most `d`, or waits in the queue at such a depth. */
  ghost predicate Known(depth: map<Key, nat>, queue: seq<State>, k: Key, d: nat) {
    || (k in depth && depth[k] <= d)
    || exists q :: 0 <= q < |queue| && queue[q].key == k && |queue[q].path| <= d
  }

  ghost predicate DepthsOk(m: Model, depth: map<Key, nat>, queue: seq<State>)
    requires WellFormed(m)
  {
    forall k {:trigger depth[k]} :: k in depth ==>
      && Fits(m, k)
      && (exists path :: Replays(m, path, k) && |path| == depth[k])
      && (queue != [] ==> depth[k] <= |queue[0].path|)
  }

  ghost predicate Closed(m: Model, depth: map<Key, nat>, queue: seq<State>)
    requires WellFormed(m)
  {
    && Known(depth, queue, Initial(m), 0)
    && forall k, mv {:trigger Enabled(m, k, mv)} :: k in depth && Fits(m, k) && Enabled(m, k, mv) ==>
         Known(depth, queue, Apply(m, k, mv), depth[k] + 1)
  }

  ghost predicate Search(m: Model, depth: map<Key, nat>, queue: seq<State>)
    requires WellFormed(m)
  {
    QueueOk(m, queue) && DepthsOk(m, depth, queue) && Closed(m, depth, queue)
  }

  lemma AfterStep(m: Model, moves: seq<Move>, mv: Move)
    requires WellFormed(m) && After(m, moves).Some? && Enabled(m, After(m, moves).value, mv)
    ensures After(m, moves + [mv]) == Some(Apply(m, After(m, moves).value, mv))
    ensures StepsOf(moves + [mv]) == StepsOf(moves) + [mv.step]
  {
    assert (moves + [mv])[..|moves|] == moves;
  }

  /** A schedule either ends in an expanded state or crosses the queue. */
  lemma {:induction false} SearchCut(m: Model, depth: map<Key, nat>, queue: seq<State>, moves: seq<Move>)
    requires WellFormed(m) && Search(m, depth, queue) && After(m, moves).Some?
    ensures || (After(m, moves).value in depth && depth[After(m, moves).value] <= |moves|)
            || exists q :: 0 <= q < |queue| && |queue[q].path| <= |moves|
    decreases |moves|
  {
    if moves != [] {
      var prefix := moves[..|moves| - 1];
      SearchCut(m, depth, queue, prefix);
      var k := After(m, prefix).value;
      if k in depth && depth[k] <= |prefix| {
        assert Known(depth, queue, Apply(m, k, moves[|moves| - 1]), depth[k] + 1);
      }
    } else {
      assert Known(depth, queue, Initial(m), 0);
    }
  }

  /** Everything closer to the start than the queue's head has been expanded. */
  lemma CloserIsExpanded(m: Model, depth: map<Key, nat>, queue: seq<State>, moves: seq<Move>)
    requires WellFormed(m) && Search(m, depth, queue) && After(m, moves).Some?
    requires queue != [] ==> |moves| < |queue[0].path|
    ensures After(m, moves).value in depth
  {
    SearchCut(m, depth, queue, moves);
    if q :| 0 <= q < |queue| && |queue[q].path| <= |moves| {
      assert false;
    }
  }

  lemma InitialSearch(m: Model)
    requires WellFormed(m)
    ensures Search(m, map[], [State(Initial(m), [])])
  {
    var queue := [State(Initial(m), [])];
    assert After(m, []) == Some(Initial(m)) && StepsOf([]) == [];
    assert queue[0].key == Initial(m);
  }

  lemma DropVisited(m: Model, depth: map<Key, nat>, queue: seq<State>)
    requires WellFormed(m) && Search(m, depth, queue) && queue != [] && queue[0].key in depth
    ensures Search(m, depth, queue[1..])
  {
    forall k, d | Known(depth, queue, k, d)
      ensures Known(depth, queue[1..], k, d)
    {
      KnownAfterPop(m, depth, queue, k, d);
    }
  }

  lemma KnownAfterPop(m: Model, depth: map<Key, nat>, queue: seq<State>, k: Key, d: nat)
    requires WellFormed(m) && DepthsOk(m, depth, queue) && queue != [] && Known(depth, queue, k, d)
    ensures queue[0].key in depth ==> Known(depth, queue[1..], k, d)
    ensures queue[0].key !in depth ==> Known(depth[queue[0].key := |queue[0].path|], queue[1..], k, d)
  {
    if !(k in depth && depth[k] <= d) {
      var q :| 0 <= q < |queue| && queue[q].key == k && |queue[q].path| <= d;
      if q > 0 {
        assert queue[1..][q - 1] == queue[q];
      }
    }
  }

  // ------------------------------------------------------------------
  // Expanding one state
  // ------------------------------------------------------------------

  function MovesOf(m: Model, k: Key, i: nat): (r: seq<Move>)
    requires WellFormed(m) && Fits(m, k)
  {
    (if Enabled(m, k, Move(i, false)) then [Move(i, false)] else [])
    + (if Enabled(m, k, Move(i, true)) then [Move(i, true)] else [])
  }

  /** The enabled moves of the first `n` plan entries, skip before run. */
  function EnabledMoves(m: Model, k: Key, n: nat): (r: seq<Move>)
    requires WellFormed(m) && Fits(m, k) && n <= |m.steps|
  {
    if n == 0 then [] else EnabledMoves(m, k, n - 1) + MovesOf(m, k, n - 1)
  }

  lemma MovesOfExact(m: Model, k: Key, i: nat, mv: Move)
    requires WellFormed(m) && Fits(m, k)
    ensures mv in MovesOf(m, k, i) <==> mv.step == i && Enabled(m, k, mv)
  {
    assert mv.step == i ==> mv == Move(i, false) || mv == Move(i, true);
  }

  lemma {:induction false} EnabledMoveListed(m: Model, k: Key, n: nat, mv: Move)
    requires WellFormed(m) && Fits(m, k) && n <= |m.steps|
    ensures mv in EnabledMoves(m, k, n) <==> mv.step < n && Enabled(m, k, mv)
  {
    hide WellFormed, Fits, MovesOf, Enabled;
    if n > 0 {
      EnabledMoveListed(m, k, n - 1, mv);
      MovesOfExact(m, k, n - 1, mv);
      assert EnabledMoves(m, k, n) == EnabledMoves(m, k, n - 1) + MovesOf(m, k, n - 1);
    }
  }

  lemma MovesOfDistinct(m: Model, k: Key, i: nat)
    requires WellFormed(m) && Fits(m, k)
    ensures Distinct(MovesOf(m, k, i)) && forall a :: 0 <= a < |MovesOf(m, k, i)| ==> MovesOf(m, k, i)[a].step == i
  {
    hide WellFormed, Fits, Enabled;
  }

  lemma {:induction false} EnabledMovesDistinct(m: Model, k: Key, n: nat)
    requires WellFormed(m) && Fits(m, k) && n <= |m.steps|
    ensures Distinct(EnabledMoves(m, k, n))
  {
    hide WellFormed, Fits, MovesOf, Enabled;
    if n > 0 {
      EnabledMovesDistinct(m, k, n - 1);
      var before := EnabledMoves(m, k, n - 1);
      forall a | 0 <= a < |before|
        ensures before[a].step < n - 1
      {
        EnabledMoveListed(m, k, n - 1, before[a]);
      }
      MovesOfDistinct(m, k, n - 1);
      assert EnabledMoves(m, k, n) == before + MovesOf(m, k, n - 1);
    }
  }

  /** The outcomes that survive the `from_state` test. */
  function Kept(i: nat, outcomes: seq<bool>, stateOk: bool): (r: seq<Move>) {
    if outcomes == [] then []
    else (if !outcomes[0] || stateOk then [Move(i, outcomes[0])] else []) + Kept(i, outcomes[1..], stateOk)
  }

  method KeepOutcomes(i: nat, outcomes: seq<bool>, fromState: Option<string>, state: string) returns (moves: seq<Move>)
    ensures moves == Kept(i, outcomes, StateAllows(fromState, state))
  {
    moves := [];
    for o := 0 to |outcomes|
      invariant moves + Kept(i, outcomes[o..], StateAllows(fromState, state)) == Kept(i, outcomes, StateAllows(fromState, state))
    {
      assert outcomes[o..][1..] == outcomes[o + 1..];
      if !outcomes[o] || StateAllows(fromState, state) {
        moves := moves + [Move(i, outcomes[o])];
      }
    }
  }

  lemma KeptIsMovesOf(m: Model, k: Key, i: nat, outcomes: seq<bool>)
    requires WellFormed(m) && Fits(m, k) && i < |m.steps|
    requires !k.completed[i] && forall d :: 0 <= d < |m.deps[i]| ==> k.completed[m.deps[i][d]]
    requires outcomes == match m.steps[i].when
                         case Literal(enabled) => [enabled]
                         case Always => [true]
                         case Dynamic => [false, true]
    ensures Kept(i, outcomes, StateAllows(m.steps[i].fromState, k.roleStates[Position(m.roles, m.steps[i].role)]))
            == MovesOf(m, k, i)
  {
    var stateOk := StateAllows(m.steps[i].fromState, k.roleStates[Position(m.roles, m.steps[i].role)]);
    assert Enabled(m, k, Move(i, false)) <==> Allows(m.steps[i].when, false);
    assert Enabled(m, k, Move(i, true)) <==> Allows(m.steps[i].when, true) && stateOk;
    if |outcomes| == 2 {
      assert outcomes[1..] == [true];
    }
    assert Kept(i, [], stateOk) == [];
    assert Kept(i, [true], stateOk) == if stateOk then [Move(i, true)] else [];
  }

  method MovesFor(m: Model, k: Key, i: nat) returns (moves: seq<Move>)
    requires WellFormed(m) && Fits(m, k) && i < |m.steps|
    ensures moves == MovesOf(m, k, i)
  {
    var ready := !k.completed[i];
    for d := 0 to |m.deps[i]|
      invariant ready <==> !k.completed[i] && forall x :: 0 <= x < d ==> k.completed[m.deps[i][x]]
    {
      ready := ready && k.completed[m.deps[i][d]];
    }
    if !ready {
      return [];
    }
    var outcomes := match m.steps[i].when
      case Literal(enabled) => [enabled]
      case Always => [true]
      case Dynamic => [false, true];
    KeptIsMovesOf(m, k, i, outcomes);
    moves := KeepOutcomes(i, outcomes, m.steps[i].fromState, k.roleStates[Position(m.roles, m.steps[i].role)]);
  }

  method CollectEnabled(m: Model, k: Key) returns (enabled: seq<Move>)
    requires WellFormed(m) && Fits(m, k)
    ensures enabled == EnabledMoves(m, k, |m.steps|)
  {
    enabled := [];
    for i := 0 to |m.steps|
      invariant enabled == EnabledMoves(m, k, i)
    {
      var moves := MovesFor(m, k, i);
      enabled := enabled + moves;
    }
  }

  lemma EventualitiesNext(invariants: seq<Invariant>, i: nat, ev: seq<Invariant>, l: nat)
    requires i < |invariants| && l <= |ev| && ev[l..] == Eventualities(invariants[i..])
    ensures if invariants[i].EventuallyState? then
              l < |ev| && ev[l] == invariants[i] && ev[l + 1..] == Eventualities(invariants[i + 1..])
            else ev[l..] == Eventualities(invariants[i + 1..])
  {
    assert invariants[i..][1..] == invariants[i + 1..];
    if invariants[i].EventuallyState? {
      var rest := Eventualities(invariants[i + 1..]);
      assert ev[l..] == [invariants[i]] + rest;
      assert ev[l + 1..] == ev[l..][1..];
    }
  }

  method MarkReached(invariants: seq<Invariant>, reached0: seq<bool>, step: Step, execute: bool) returns (reached: seq<bool>)
    requires |reached0| == |Eventualities(invariants)|
    ensures reached == Reach(Eventualities(invariants), reached0, step, execute)
  {
    reached := reached0;
    var liveness := 0;
    ghost var ev := Eventualities(invariants);
    for i := 0 to |invariants|
      invariant |reached| == |ev| && 0 <= liveness <= |ev|
      invariant ev[liveness..] == Eventualities(invariants[i..])
      invariant forall l :: 0 <= l < liveness ==> reached[l] == (reached0[l] || Arrives(step, execute, ev[l]))
      invariant forall l :: liveness <= l < |ev| ==> reached[l] == reached0[l]
    {
      EventualitiesNext(invariants, i, ev, liveness);
      if invariants[i].EventuallyState? {
        if Arrives(step, execute, invariants[i]) {
          reached := reached[liveness := true];
        }
        liveness := liveness + 1;
      }
    }
  }

  /** The bookkeeping of one transition. */
  method Successor(m: Model, s: State, mv: Move) returns (next: State)
    requires WellFormed(m) && Fits(m, s.key) && mv.step < |m.steps|
    ensures next == State(Apply(m, s.key, mv), s.path + [mv.step])
  {
    var step := m.steps[mv.step];
    var completed := s.key.completed[mv.step := true];
    var roleStates := s.key.roleStates;
    if mv.execute && step.toState.Some? {
      roleStates := roleStates[Position(m.roles, step.role) := step.toState.value];
    }
    var reached := MarkReached(m.invariants, s.key.reached, step, mv.execute);
    next := State(Key(completed, roleStates, reached), s.path + [mv.step]);
  }
}
