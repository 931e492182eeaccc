/** The concurrent engine: `run_role` on one thread per active role over the
    shared `Sim`, as an interleaving of atomic steps.  One atomic step is one
    access to shared state (`enforce_runtime`, `wait_deps`, `failed`,
    `set_failure`, `mark_done`, and the two halves of `record`) or one local
    decision.  `execute_step` and `retransmit_snapshot` are opaque: each records
    some number of events, bounded by `burst`, and yields a result. */
module Engine {
  import opened Protocols
  import opened Collections
  import opened ModelChecker

  /** `m` is the planned protocol; threads exist for the `active` roles only. */
  datatype Config = Config(m: Model, active: set<string>, maxTrace: nat, burst: nat)

  datatype FailureKind = WhenNotBool | StateRejected | StepFailed | RetransmitFailed | TraceLimit | RuntimeLimit

  datatype Failure = Failure(role: nat, kind: FailureKind)

  /** `running` is the plan index of the step the recording thread is executing. */
  datatype Event = Event(seqNo: nat, running: nat)

  datatype Shared = Shared(completed: set<nat>, error: Option<Failure>, counter: nat, trace: seq<Event>)

  /** Finished loop iterations, and retransmissions and retries of this one. */
  datatype Counters = Counters(loops: nat, resends: nat, retries: nat)

  datatype Result = Done | TimedOut | Broke

  /** What a thread does once its pending events are recorded. */
  datatype Next =
    | ThenSkip
    | ThenFail(kind: FailureKind)
    | ThenResult(c: Counters, result: Result)
    | ThenResend(c: Counters)
    | ThenResent(c: Counters, sent: bool)
    | ThenRetry(c: Counters)

  datatype Outcome = Succeeded | Skipped | Failed | External

  datatype Phase =
    | Top
    | Waiting
    | Checking
    | Deciding
    | Attempt(c: Counters)
    | Emit(left: nat, next: Next)
    | Push(seqNo: nat, left: nat, next: Next)
    | Overflow(left: nat, next: Next)
    | Fail(kind: FailureKind)
    | LoopCheck(c: Counters)
    | Stop(mark: bool)
    | Mark(outcome: Outcome, before: string)
    | Exited

  /** `pos` counts the role's steps that are behind the thread. */
  datatype Thread = Thread(pos: nat, state: string, phase: Phase)

  /** What happened so far; the engine never reads it. */
  datatype History = History(started: set<nat>, outcome: map<nat, Outcome>, attempts: map<nat, nat>)

  datatype Sys = Sys(shared: Shared, threads: seq<Thread>, history: History)

  /** The choices left open by the environment of one atomic step. */
  datatype Choice = Choice(late: bool, sawReady: bool, run: Option<bool>, events: nat, result: Result,
                           canResend: bool, selected: bool, sent: bool)

  // ------------------------------------------------------------------
  // The plan as the engine sees it
  // ------------------------------------------------------------------

  /** Plan indices below `n` that belong to `role`, in plan order. */
  function RoleSteps(m: Model, role: string, n: nat): (r: seq<nat>)
    requires n <= |m.steps|
  {
    if n == 0 then []
    else RoleSteps(m, role, n - 1) + if m.steps[n - 1].role == role then [n - 1] else []
  }

  ghost predicate PreviousInPlan(m: Model, d: int, i: int) {
    && 0 <= d < i < |m.steps|
    && m.steps[d].role == m.steps[i].role
    && forall k :: d < k < i ==> m.steps[k].role != m.steps[i].role
  }

  /** What the planner guarantees: dependencies come first in the plan, and they
      are exactly the declared ones plus the role's previous step. */
  ghost predicate PlannedModel(m: Model) {
    && WellFormed(m)
    && (forall i, d: nat :: 0 <= i < |m.steps| && d in m.deps[i] ==> d < i)
    && (forall i, d: nat :: 0 <= i < |m.steps| && d < |m.steps| ==>
          (d in m.deps[i] <==> PreviousInPlan(m, d, i) || m.steps[d].name in m.steps[i].dependsOn))
  }

  function Steps(c: Config, r: nat): (l: seq<nat>)
    requires r < |c.m.roles|
  {
    RoleSteps(c.m, c.m.roles[r], |c.m.steps|)
  }

  /** All declared dependencies of step `i` are complete. */
  ghost predicate DeclaredDone(m: Model, i: nat, completed: set<nat>)
    requires i < |m.steps|
  {
    forall d: nat :: d < |m.steps| && m.steps[d].name in m.steps[i].dependsOn ==> d in completed
  }

  function Resends(step: Step): nat {
    if step.retransmit >= step.timerRetransmit then step.retransmit else step.timerRetransmit
  }

  // ------------------------------------------------------------------
  // Shared state operations
  // ------------------------------------------------------------------

  function SetFailure(sh: Shared, f: Failure): (sh': Shared) {
    if sh.error.None? then sh.(error := Some(f)) else sh
  }

  function MarkDone(sh: Shared, i: nat): (sh': Shared) {
    sh.(completed := sh.completed + {i})
  }

  // ------------------------------------------------------------------
  // One atomic step of one thread
  // ------------------------------------------------------------------

  /** Only a thread waiting for its dependencies can be blocked. */
  ghost predicate CanStep(c: Config, s: Sys, r: nat, ch: Choice)
    requires r < |s.threads| && r < |c.m.roles|
  {
    var t := s.threads[r];
    && !t.phase.Exited?
    && ch.events <= c.burst
    && (t.phase.Waiting? && t.pos < |Steps(c, r)| && Steps(c, r)[t.pos] < |c.m.steps| ==>
          if ch.sawReady then DeclaredDone(c.m, Steps(c, r)[t.pos], s.shared.completed)
          else s.shared.error.Some? || ch.late)
  }

  function Leave(t: Thread): Thread {
    t.(phase := Exited)
  }

  /** Where the thread goes once its events are recorded. */
  function Continue(step: Step, state: string, next: Next, ch: Choice): (p: Phase) {
    match next
    case ThenSkip => Mark(Skipped, state)
    case ThenFail(kind) => Fail(kind)
    case ThenResult(c, Done) => LoopCheck(c)
    case ThenResult(c, result) =>
      if c.resends < Resends(step) && step.receives && result.TimedOut? && ch.canResend then Emit(1, ThenResend(c))
      else if c.retries < step.retry && ch.selected then Emit(1, ThenRetry(c))
      else Emit(1, ThenFail(StepFailed))
    case ThenResend(c) => Emit(ch.events, ThenResent(c, ch.sent))
    case ThenResent(c, sent) =>
      if sent then Attempt(c.(resends := c.resends + 1)) else Emit(1, ThenFail(RetransmitFailed))
    case ThenRetry(c) => Attempt(c.(retries := c.retries + 1))
  }

  /** `step_enabled`, the loop=0 test and the `from_state` test. */
  function Decide(step: Step, state: string, ch: Choice): (p: Phase) {
    var enabled := match step.when
      case Always => Some(true)
      case Literal(b) => Some(b)
      case Dynamic => ch.run;
    if enabled.None? then Emit(1, ThenFail(WhenNotBool))
    else if !enabled.value || step.loopCount == 0 then Emit(1, ThenSkip)
    else if !StateAllows(step.fromState, state) then Emit(1, ThenFail(StateRejected))
    else Attempt(Counters(0, 0, 0))
  }

  function AfterLoop(step: Step, t: Thread, c: Counters, late: bool): (t': Thread) {
    if late then t.(phase := Stop(true))
    else if c.loops + 1 < step.loopCount then t.(phase := Attempt(Counters(c.loops + 1, 0, 0)))
    else t.(state := if step.toState.Some? then step.toState.value else t.state, phase := Mark(Succeeded, t.state))
  }

  /** The new thread state; `sh` is the shared state the step sees. */
  function StepThread(c: Config, r: nat, step: Step, t: Thread, sh: Shared, ch: Choice): (t': Thread) {
    match t.phase
    case Top => if ch.late then t.(phase := Stop(false)) else t.(phase := Waiting)
    case Waiting =>
      if ch.sawReady then t.(phase := Checking)
      else if sh.error.Some? then Leave(t)
      else t.(phase := Stop(false))
    case Checking => if sh.error.Some? then Leave(t) else t.(phase := Deciding)
    case Deciding => t.(phase := Decide(step, t.state, ch))
    case Attempt(cn) => t.(phase := Emit(ch.events, ThenResult(cn, ch.result)))
    case Emit(left, next) =>
      if left == 0 then t.(phase := Continue(step, t.state, next, ch))
      else if sh.counter < c.maxTrace then t.(phase := Push(sh.counter, left - 1, next))
      else t.(phase := Overflow(left - 1, next))
    case Push(_, left, next) => t.(phase := Emit(left, next))
    case Overflow(left, next) => t.(phase := Emit(left, next))
    case Fail(_) => t.(phase := Mark(Failed, t.state))
    case LoopCheck(cn) => AfterLoop(step, t, cn, ch.late)
    case Stop(mark) => if mark then t.(phase := Mark(Failed, t.state)) else Leave(t)
    case Mark(outcome, _) => if outcome.Failed? then Leave(t) else t.(pos := t.pos + 1, phase := Top)
    case Exited => t
  }

  function StepShared(c: Config, r: nat, i: nat, t: Thread, sh: Shared): (sh': Shared) {
    match t.phase
    case Emit(left, _) => if left == 0 then sh else sh.(counter := sh.counter + 1)
    case Push(seqNo, _, _) => sh.(trace := sh.trace + [Event(seqNo, i)])
    case Overflow(_, _) => SetFailure(sh, Failure(r, TraceLimit))
    case Fail(kind) => SetFailure(sh, Failure(r, kind))
    case Stop(_) => SetFailure(sh, Failure(r, RuntimeLimit))
    case Mark(_, _) => MarkDone(sh, i)
    case _ => sh
  }

  function StepHistory(i: nat, t: Thread, t': Thread, h: History): (h': History) {
    match t.phase
    case Checking => if t'.phase.Deciding? then h.(started := h.started + {i}) else h
    case Attempt(_) => h.(attempts := h.attempts[i := 1 + if i in h.attempts then h.attempts[i] else 0])
    case Mark(outcome, _) => h.(outcome := h.outcome[i := outcome])
    case _ => h
  }

  function Do(c: Config, s: Sys, r: nat, ch: Choice): (s': Sys)
    requires r < |s.threads| && r < |c.m.roles|
    ensures |s'.threads| == |s.threads|
  {
    var t := s.threads[r];
    var steps := Steps(c, r);
    if t.pos >= |steps| || steps[t.pos] >= |c.m.steps| then s.(threads := s.threads[r := Leave(t)])
    else
      var i := steps[t.pos];
      var t' := StepThread(c, r, c.m.steps[i], t, s.shared, ch);
      Sys(StepShared(c, r, i, t, s.shared), s.threads[r := t'], StepHistory(i, t, t', s.history))
  }

  function Start(c: Config): (s: Sys) {
    var external := set i: nat | i < |c.m.steps| && c.m.steps[i].role !in c.active;
    Sys(Shared(external, None, 0, []),
        seq(|c.m.roles|, r requires 0 <= r < |c.m.roles| =>
          Thread(0, INITIAL_STATE, if c.m.roles[r] in c.active then Top else Exited)),
        History({}, map i | i in external :: External, map[]))
  }
}
