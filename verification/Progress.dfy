/** The engine never deadlocks, every run is finite, and the number of attempts
    at a step is bounded by its loop, retransmit and retry settings. */
module Progress {
  import opened Protocols
  import opened Collections
  import opened ModelChecker
  import opened Engine
  import opened Scheduler

  // ------------------------------------------------------------------
  // Deadlock freedom
  // ------------------------------------------------------------------

  lemma {:induction false} LeastMissing(n: nat, have: set<nat>) returns (i: nat)
    requires exists x: nat :: x < n && x !in have
    ensures i < n && i !in have && forall j: nat :: j < i ==> j in have
  {
    var x: nat :| x < n && x !in have;
    i := 0;
    while i in have
      invariant i <= x && forall j: nat :: j < i ==> j in have
      decreases x - i
    {
      i := i + 1;
    }
  }

  lemma HolderOf(c: Config, i: nat) returns (r: nat, k: nat)
    requires PlannedModel(c.m) && i < |c.m.steps|
    ensures r < |c.m.roles| && c.m.roles[r] == c.m.steps[i].role && k < |Steps(c, r)| && Steps(c, r)[k] == i
  {
    assert c.m.steps[i].role in c.m.roles;
    r :| 0 <= r < |c.m.roles| && c.m.roles[r] == c.m.steps[i].role;
    RoleStepsElements(c.m, c.m.roles[r], |c.m.steps|);
    assert i in Steps(c, r);
    k :| 0 <= k < |Steps(c, r)| && Steps(c, r)[k] == i;
  }

  /** While nothing has failed and some step is open, some thread is at a step
      whose dependencies are all complete. */
  lemma SomeoneIsReady(c: Config, s: Sys) returns (r: nat)
    requires PlannedModel(c.m) && Inv(c, s) && s.shared.error.None?
    requires exists i: nat :: i < |c.m.steps| && i !in s.shared.completed
    ensures r < |s.threads| && !s.threads[r].phase.Exited? && s.threads[r].pos < |Steps(c, r)|
    ensures Steps(c, r)[s.threads[r].pos] < |c.m.steps|
    ensures forall d :: d in c.m.deps[Steps(c, r)[s.threads[r].pos]] ==> d in s.shared.completed
    ensures DeclaredDone(c.m, Steps(c, r)[s.threads[r].pos], s.shared.completed)
  {
    hide StartsOk, OutcomesOk;
    var i := LeastMissing(|c.m.steps|, s.shared.completed);
    var k;
    r, k := HolderOf(c, i);
    var t := s.threads[r];
    assert ThreadOk(c, s.shared, s.history, r, t);
    assert c.m.roles[r] in c.active;
    if t.pos < k {
      StepsIncrease(c, r, t.pos, k);
      StepOfRole(c, r, t.pos);
    }
    assert t.pos == k;
    forall d | d in c.m.deps[i]
      ensures d in s.shared.completed
    {
      assert d < i;
    }
    forall d: nat | d < |c.m.steps| && c.m.steps[d].name in c.m.steps[i].dependsOn
      ensures d in s.shared.completed
    {
      assert d in c.m.deps[i];
    }
  }

  /** After a failure a waiting thread can leave at once. */
  lemma WaiterLeaves(c: Config, s: Sys, r: nat, ch: Choice)
    requires PlannedModel(c.m) && Inv(c, s) && r < |s.threads| && s.threads[r].phase.Waiting?
    requires s.shared.error.Some? && !ch.sawReady && ch.events <= c.burst
    ensures Fires(c, s, r, ch) && Do(c, s, r, ch).threads[r].phase.Exited?
  {
    assert ThreadOk(c, s.shared, s.history, r, s.threads[r]);
    StepView(c, s, r, ch);
  }

  /** As long as some thread is alive, some thread can move. */
  lemma NeverStuck(c: Config, s: Sys)
    requires PlannedModel(c.m) && Inv(c, s)
    requires exists r :: 0 <= r < |s.threads| && !s.threads[r].phase.Exited?
    ensures exists r: nat, ch :: Fires(c, s, r, ch)
  {
    hide Steps, PlannedModel, StartsOk, OutcomesOk;
    var r :| 0 <= r < |s.threads| && !s.threads[r].phase.Exited?;
    var ch := Choice(false, false, None, 0, Done, false, false, false);
    if s.threads[r].phase.Waiting? && s.shared.error.None? {
      assert ThreadOk(c, s.shared, s.history, r, s.threads[r]);
      StepOfRole(c, r, s.threads[r].pos);
      assert Steps(c, r)[s.threads[r].pos] !in s.shared.completed;
      var r' := SomeoneIsReady(c, s);
      assert Fires(c, s, r', ch.(sawReady := true));
    } else {
      assert Fires(c, s, r, ch);
    }
  }

  /** When all threads have left without a failure, every step is complete. */
  lemma QuietEndIsComplete(c: Config, s: Sys, i: nat)
    requires PlannedModel(c.m) && Inv(c, s) && s.shared.error.None?
    requires AllExited(s) && i < |c.m.steps|
    ensures i in s.shared.completed
  {
    var r, k := HolderOf(c, i);
    assert ThreadOk(c, s.shared, s.history, r, s.threads[r]);
  }

  // ------------------------------------------------------------------
  // Attempt counters
  // ------------------------------------------------------------------

  /** Attempts one loop iteration can make. */
  function PerLoop(step: Step): nat {
    1 + Resends(step) + step.retry
  }

  function Budget(step: Step): nat {
    step.loopCount * PerLoop(step)
  }

  ghost predicate CountersOk(step: Step, cn: Counters) {
    cn.loops < step.loopCount && cn.resends <= Resends(step) && cn.retries <= step.retry
  }

  /** Attempts made before the one the counters describe. */
  function Spent(step: Step, cn: Counters): nat {
    cn.loops * PerLoop(step) + cn.resends + cn.retries
  }

  lemma SpentBelowBudget(step: Step, cn: Counters)
    requires CountersOk(step, cn)
    ensures Spent(step, cn) < Budget(step)
    ensures Spent(step, cn) + 1 <= (cn.loops + 1) * PerLoop(step) <= Budget(step)
  {
    var p := PerLoop(step);
    assert (cn.loops + 1) * p == cn.loops * p + p;
    MulMono(cn.loops + 1, step.loopCount, p);
  }

  lemma MulMono(a: nat, b: nat, p: nat)
    requires a <= b
    ensures a * p <= b * p
  {
  }

  ghost predicate NextOk(step: Step, next: Next) {
    match next
    case ThenSkip => true
    case ThenFail(_) => true
    case ThenResult(c, _) => CountersOk(step, c)
    case ThenResend(c) => CountersOk(step, c) && c.resends < Resends(step)
    case ThenResent(c, _) => CountersOk(step, c) && c.resends < Resends(step)
    case ThenRetry(c) => CountersOk(step, c) && c.retries < step.retry
  }

  ghost predicate PhaseCountersOk(step: Step, p: Phase) {
    match p
    case Attempt(c) => CountersOk(step, c)
    case LoopCheck(c) => CountersOk(step, c)
    case Emit(_, next) => NextOk(step, next)
    case Push(_, _, next) => NextOk(step, next)
    case Overflow(_, next) => NextOk(step, next)
    case _ => true
  }

  lemma CountersStep(c: Config, r: nat, step: Step, t: Thread, sh: Shared, ch: Choice)
    requires PhaseCountersOk(step, t.phase) && !t.phase.Mark?
    ensures PhaseCountersOk(step, StepThread(c, r, step, t, sh, ch).phase)
  {
  }

  // ------------------------------------------------------------------
  // A rank that every atomic step lowers
  // ------------------------------------------------------------------

  function Weight(c: Config): nat {
    4 * c.burst + 6
  }

  ghost function NextRank(c: Config, step: Step, next: Next): int {
    match next
    case ThenSkip => 1
    case ThenFail(_) => 2
    case ThenResult(cn, _) => 2 * c.burst + 13 + Weight(c) * (Budget(step) - Spent(step, cn) - 1)
    case ThenResend(cn) => 2 * c.burst + 10 + Weight(c) * (Budget(step) - Spent(step, cn) - 1)
    case ThenResent(cn, _) => 9 + Weight(c) * (Budget(step) - Spent(step, cn) - 1)
    case ThenRetry(cn) => 9 + Weight(c) * (Budget(step) - Spent(step, cn) - 1)
  }

  ghost function PhaseRank(c: Config, step: Step, p: Phase): int {
    match p
    case Top => StepRank(c, step)
    case Waiting => 12 + Weight(c) * Budget(step)
    case Checking => 11 + Weight(c) * Budget(step)
    case Deciding => 10 + Weight(c) * Budget(step)
    case Attempt(cn) => 9 + Weight(c) * (Budget(step) - Spent(step, cn))
    case Emit(left, next) => 2 * left + 1 + NextRank(c, step, next)
    case Push(_, left, next) => 2 * left + 2 + NextRank(c, step, next)
    case Overflow(left, next) => 2 * left + 2 + NextRank(c, step, next)
    case Fail(_) => 2
    case LoopCheck(cn) => 10 + Weight(c) * (Budget(step) - Spent(step, cn) - 1)
    case Stop(_) => 2
    case Mark(_, _) => 1
    case Exited => -1
  }

  /** The atomic steps one planned step can take in all. */
  ghost function StepRank(c: Config, step: Step): nat {
    13 + Weight(c) * Budget(step)
  }

  lemma LoopLowers(c: Config, step: Step, cn: Counters)
    requires CountersOk(step, cn) && cn.loops + 1 < step.loopCount
    ensures Weight(c) * (Budget(step) - Spent(step, Counters(cn.loops + 1, 0, 0)))
            <= Weight(c) * (Budget(step) - Spent(step, cn) - 1)
  {
    SpentBelowBudget(step, cn);
    SpentBelowBudget(step, Counters(cn.loops + 1, 0, 0));
    MulMono(Budget(step) - Spent(step, Counters(cn.loops + 1, 0, 0)), Budget(step) - Spent(step, cn) - 1, Weight(c));
  }

  lemma RankPositive(c: Config, step: Step, p: Phase)
    requires PhaseCountersOk(step, p) && !p.Exited?
    ensures PhaseRank(c, step, p) >= 1
  {
    hide Budget, Spent, Weight;
    match p
    case Attempt(cn) => SpentBelowBudget(step, cn); MulMono(0, Budget(step) - Spent(step, cn), Weight(c));
    case LoopCheck(cn) => SpentBelowBudget(step, cn); MulMono(0, Budget(step) - Spent(step, cn) - 1, Weight(c));
    case Emit(_, next) => NextRankPositive(c, step, next);
    case Push(_, _, next) => NextRankPositive(c, step, next);
    case Overflow(_, next) => NextRankPositive(c, step, next);
    case Top => MulMono(0, Budget(step), Weight(c));
    case Waiting => MulMono(0, Budget(step), Weight(c));
    case Checking => MulMono(0, Budget(step), Weight(c));
    case Deciding => MulMono(0, Budget(step), Weight(c));
    case Fail(_) =>
    case Stop(_) =>
    case Mark(_, _) =>
    case Exited => assert false;
  }

  lemma NextRankPositive(c: Config, step: Step, next: Next)
    requires NextOk(step, next)
    ensures NextRank(c, step, next) >= 1
  {
    hide Budget, Spent, Weight;
    match next
    case ThenSkip =>
    case ThenFail(_) =>
    case ThenResult(cn, _) => SpentBelowBudget(step, cn); MulMono(0, Budget(step) - Spent(step, cn) - 1, Weight(c));
    case ThenResend(cn) => SpentBelowBudget(step, cn); MulMono(0, Budget(step) - Spent(step, cn) - 1, Weight(c));
    case ThenResent(cn, _) => SpentBelowBudget(step, cn); MulMono(0, Budget(step) - Spent(step, cn) - 1, Weight(c));
    case ThenRetry(cn) => SpentBelowBudget(step, cn); MulMono(0, Budget(step) - Spent(step, cn) - 1, Weight(c));
  }

  lemma OneMoreSpent(step: Step, cn: Counters)
    ensures Spent(step, cn.(resends := cn.resends + 1)) == Spent(step, cn) + 1
    ensures Spent(step, cn.(retries := cn.retries + 1)) == Spent(step, cn) + 1
  {
    hide PerLoop;
  }

  lemma NextAttemptRank(c: Config, step: Step, cn: Counters, cn': Counters)
    requires Spent(step, cn') == Spent(step, cn) + 1
    ensures PhaseRank(c, step, Attempt(cn')) == 9 + Weight(c) * (Budget(step) - Spent(step, cn) - 1)
  {
    hide Budget, Spent, Weight;
    assert Budget(step) - Spent(step, cn') == Budget(step) - Spent(step, cn) - 1;
  }

  lemma ContinueLowers(c: Config, step: Step, state: string, next: Next, ch: Choice)
    requires NextOk(step, next) && ch.events <= c.burst
    ensures PhaseRank(c, step, Continue(step, state, next, ch)) <= NextRank(c, step, next)
  {
    hide Budget, Spent, Weight, Resends;
    match next
    case ThenSkip =>
    case ThenFail(_) =>
    case ThenResult(cn, _) => RetryRankPositive(c, step, cn);
    case ThenResend(cn) =>
    case ThenResent(cn, _) =>
      OneMoreSpent(step, cn);
      NextAttemptRank(c, step, cn, cn.(resends := cn.resends + 1));
      RetryRankPositive(c, step, cn);
    case ThenRetry(cn) =>
      OneMoreSpent(step, cn);
      NextAttemptRank(c, step, cn, cn.(retries := cn.retries + 1));
  }

  lemma RetryRankPositive(c: Config, step: Step, cn: Counters)
    requires CountersOk(step, cn)
    ensures Weight(c) * (Budget(step) - Spent(step, cn) - 1) >= 0
  {
    hide Budget, Spent, Weight;
    SpentBelowBudget(step, cn);
    MulMono(0, Budget(step) - Spent(step, cn) - 1, Weight(c));
  }

  lemma AttemptLowers(c: Config, step: Step, cn: Counters, events: nat, result: Result)
    requires CountersOk(step, cn) && events <= c.burst
    ensures PhaseRank(c, step, Emit(events, ThenResult(cn, result))) < PhaseRank(c, step, Attempt(cn))
  {
    hide Budget, Spent, Resends;
    var left := Budget(step) - Spent(step, cn);
    assert Weight(c) * left == Weight(c) * (left - 1) + Weight(c);
  }

  /** Every atomic step inside a planned step lowers the thread's rank. */
  lemma ThreadRankLowers(c: Config, r: nat, step: Step, t: Thread, sh: Shared, ch: Choice)
    requires PhaseCountersOk(step, t.phase) && !t.phase.Mark? && !t.phase.Exited? && ch.events <= c.burst
    ensures PhaseRank(c, step, StepThread(c, r, step, t, sh, ch).phase) < PhaseRank(c, step, t.phase)
  {
    hide Budget, Spent, Weight, Resends, NextRank, Continue, NextOk;
    MulMono(0, Budget(step), Weight(c));
    match t.phase
    case Top =>
    case Waiting =>
    case Checking =>
    case Deciding => DecideLowers(c, step, t.state, ch);
    case Attempt(cn) => AttemptLowers(c, step, cn, ch.events, ch.result);
    case Emit(left, next) => ContinueLowers(c, step, t.state, next, ch);
    case Push(_, _, _) =>
    case Overflow(_, _) =>
    case Fail(_) =>
    case Stop(_) =>
    case LoopCheck(cn) =>
      SpentBelowBudget(step, cn);
      MulMono(0, Budget(step) - Spent(step, cn) - 1, Weight(c));
      if cn.loops + 1 < step.loopCount {
        LoopLowers(c, step, cn);
      }
  }

  lemma DecideLowers(c: Config, step: Step, state: string, ch: Choice)
    ensures PhaseRank(c, step, Decide(step, state, ch)) < PhaseRank(c, step, Deciding)
  {
    hide Budget, Weight;
    MulMono(0, Budget(step), Weight(c));
    assert Spent(step, Counters(0, 0, 0)) == 0;
  }

  // ------------------------------------------------------------------
  // From threads to the whole engine
  // ------------------------------------------------------------------

  /** Rank of the role's steps from position `k` on. */
  ghost function LaterRank(c: Config, l: seq<nat>, k: nat): nat
    decreases |l| - k
  {
    if k >= |l| then 0
    else (if l[k] < |c.m.steps| then StepRank(c, c.m.steps[l[k]]) else 0) + LaterRank(c, l, k + 1)
  }

  ghost function ThreadRank(c: Config, r: nat, t: Thread): int
    requires r < |c.m.roles|
  {
    var l := Steps(c, r);
    if t.phase.Exited? then 0
    else if t.pos < |l| && l[t.pos] < |c.m.steps| then
      1 + LaterRank(c, l, t.pos + 1) + PhaseRank(c, c.m.steps[l[t.pos]], t.phase)
    else 1
  }

  ghost function TotalRank(c: Config, threads: seq<Thread>, n: nat): int
    requires n <= |threads| && n <= |c.m.roles|
  {
    if n == 0 then 0 else TotalRank(c, threads, n - 1) + ThreadRank(c, n - 1, threads[n - 1])
  }

  ghost predicate CountOk(c: Config, s: Sys)
    requires Shape(c, s)
  {
    forall r :: 0 <= r < |s.threads| ==> ThreadCountOk(c, r, s.threads[r])
  }

  ghost predicate ThreadCountOk(c: Config, r: nat, t: Thread)
    requires r < |c.m.roles|
  {
    t.pos < |Steps(c, r)| && Steps(c, r)[t.pos] < |c.m.steps| ==>
      PhaseCountersOk(c.m.steps[Steps(c, r)[t.pos]], t.phase)
  }

  lemma {:induction false} TotalRankUpdate(c: Config, threads: seq<Thread>, r: nat, t: Thread, n: nat)
    requires n <= |threads| && n <= |c.m.roles| && r < |threads| && r < |c.m.roles|
    ensures TotalRank(c, threads[r := t], n)
            == TotalRank(c, threads, n) + if r < n then ThreadRank(c, r, t) - ThreadRank(c, r, threads[r]) else 0
  {
    hide ThreadRank;
    if n > 0 {
      TotalRankUpdate(c, threads, r, t, n - 1);
    }
  }

  lemma StepLowersThread(c: Config, s: Sys, r: nat, ch: Choice)
    requires PlannedModel(c.m) && Inv(c, s) && CountOk(c, s) && Fires(c, s, r, ch)
    ensures ThreadRank(c, r, Do(c, s, r, ch).threads[r]) < ThreadRank(c, r, s.threads[r])
    ensures ThreadCountOk(c, r, Do(c, s, r, ch).threads[r])
  {
    assert !s.threads[r].phase.Exited? && ch.events <= c.burst;
    hide Steps, StepShared, StepHistory, PlannedModel, CanStep, Inv, StepThread, PhaseRank, PhaseCountersOk;
    StepView(c, s, r, ch);
    var t := s.threads[r];
    assert ThreadCountOk(c, r, t);
    if t.pos < |Steps(c, r)| {
      var i := Steps(c, r)[t.pos];
      var step := c.m.steps[i];
      RankPositive(c, step, t.phase);
      if t.phase.Mark? {
        MarkLowers(c, s, r, ch);
      } else {
        ThreadRankLowers(c, r, step, t, s.shared, ch);
        CountersStep(c, r, step, t, s.shared, ch);
        PosKept(c, r, step, t, s.shared, ch);
      }
    }
  }

  lemma PosKept(c: Config, r: nat, step: Step, t: Thread, sh: Shared, ch: Choice)
    requires !t.phase.Mark?
    ensures StepThread(c, r, step, t, sh, ch).pos == t.pos
  {
  }

  lemma MarkLowers(c: Config, s: Sys, r: nat, ch: Choice)
    requires PlannedModel(c.m) && Inv(c, s) && Fires(c, s, r, ch)
    requires s.threads[r].phase.Mark? && s.threads[r].pos < |Steps(c, r)|
    ensures ThreadRank(c, r, Do(c, s, r, ch).threads[r]) < ThreadRank(c, r, s.threads[r])
    ensures ThreadCountOk(c, r, Do(c, s, r, ch).threads[r])
  {
    StepView(c, s, r, ch);
    hide Steps, Inv, PlannedModel, StepRank, Weight, Budget;
    var t := s.threads[r];
    var l := Steps(c, r);
    if t.pos + 1 < |l| {
      StepOfRole(c, r, t.pos + 1);
      assert LaterRank(c, l, t.pos + 1) == StepRank(c, c.m.steps[l[t.pos + 1]]) + LaterRank(c, l, t.pos + 2);
    }
  }

  lemma StepLowersTotal(c: Config, s: Sys, r: nat, ch: Choice)
    requires PlannedModel(c.m) && Inv(c, s) && CountOk(c, s) && Fires(c, s, r, ch)
    ensures var s' := Do(c, s, r, ch);
            |s'.threads| == |s.threads| && CountOk(c, s')
            && TotalRank(c, s'.threads, |c.m.roles|) < TotalRank(c, s.threads, |c.m.roles|)
  {
    hide PlannedModel, ThreadRank, CanStep, Inv, StepThread;
    StepLowersThread(c, s, r, ch);
    var s' := Do(c, s, r, ch);
    assert s'.threads == s.threads[r := s'.threads[r]];
    TotalRankUpdate(c, s.threads, r, s'.threads[r], |c.m.roles|);
  }

  lemma {:induction false} TotalRankNonNegative(c: Config, s: Sys, n: nat)
    requires Shape(c, s) && CountOk(c, s) && n <= |s.threads|
    ensures TotalRank(c, s.threads, n) >= 0
  {
    hide PhaseCountersOk, PhaseRank;
    if n > 0 {
      TotalRankNonNegative(c, s, n - 1);
      var t := s.threads[n - 1];
      assert ThreadCountOk(c, n - 1, t);
      if !t.phase.Exited? && t.pos < |Steps(c, n - 1)| && Steps(c, n - 1)[t.pos] < |c.m.steps| {
        RankPositive(c, c.m.steps[Steps(c, n - 1)[t.pos]], t.phase);
      }
    }
  }

  /** Every run is finite: its length is bounded by the rank of the initial state. */
  lemma {:induction false} RunsAreFinite(c: Config, run: seq<Sys>)
    requires PlannedModel(c.m) && IsRun(c, run)
    ensures var last := run[|run| - 1];
            && Shape(c, last) && CountOk(c, last)
            && TotalRank(c, last.threads, |c.m.roles|) + |run| - 1 <= TotalRank(c, Start(c).threads, |c.m.roles|)
    ensures |run| <= 1 + TotalRank(c, Start(c).threads, |c.m.roles|)
    decreases |run|
  {
    hide PlannedModel, TotalRank, CanStep, Inv, Do, ThreadCountOk;
    if |run| == 1 {
      StartCounts(c);
    } else {
      RunPrefix(c, run);
      var p := run[|run| - 2];
      assert run[..|run| - 1][|run| - 2] == p;
      RunsAreFinite(c, run[..|run| - 1]);
      RunKeepsInv(c, run[..|run| - 1]);
      var r: nat, ch :| Fires(c, p, r, ch) && run[|run| - 1] == Do(c, p, r, ch);
      StepLowersTotal(c, p, r, ch);
    }
    TotalRankNonNegative(c, run[|run| - 1], |c.m.roles|);
  }

  /** No thread can take another step. */
  ghost predicate AtRest(c: Config, s: Sys) {
    forall s' :: !StepsTo(c, s, s')
  }

  /** The runs that cannot be continued are exactly those in which all threads have
      left. */
  lemma MaximalIffExited(c: Config, run: seq<Sys>)
    requires PlannedModel(c.m) && IsRun(c, run)
    ensures AtRest(c, run[|run| - 1]) <==> AllExited(run[|run| - 1])
  {
    RunKeepsInv(c, run);
    var last := run[|run| - 1];
    hide PlannedModel, Inv, Do, IsRun;
    if !AllExited(last) {
      NeverStuck(c, last);
      var r: nat, ch :| Fires(c, last, r, ch);
      assert StepsTo(c, last, Do(c, last, r, ch));
    }
  }

  /** Steps a run may still take. */
  ghost function Left(c: Config, run: seq<Sys>): nat
    requires PlannedModel(c.m) && IsRun(c, run)
  {
    RunsAreFinite(c, run);
    1 + TotalRank(c, Start(c).threads, |c.m.roles|) - |run|
  }

  /** Every run can be continued until all threads have left. */
  lemma {:induction false} EveryRunEnds(c: Config, run: seq<Sys>) returns (whole: seq<Sys>)
    requires PlannedModel(c.m) && IsRun(c, run)
    ensures IsRun(c, whole) && run <= whole && AllExited(whole[|whole| - 1])
    decreases Left(c, run)
  {
    MaximalIffExited(c, run);
    if AllExited(run[|run| - 1]) {
      whole := run;
    } else {
      var longer := OneStepMore(c, run);
      hide PlannedModel, IsRun, AllExited;
      whole := EveryRunEnds(c, longer);
    }
  }

  lemma OneStepMore(c: Config, run: seq<Sys>) returns (longer: seq<Sys>)
    requires PlannedModel(c.m) && IsRun(c, run) && !AtRest(c, run[|run| - 1])
    ensures IsRun(c, longer) && run <= longer && Left(c, longer) < Left(c, run)
  {
    hide PlannedModel, Do, CanStep, TotalRank;
    var last := run[|run| - 1];
    var s' :| StepsTo(c, last, s');
    var r: nat, ch :| Fires(c, last, r, ch) && s' == Do(c, last, r, ch);
    ExtendRun(c, run, r, ch);
    longer := run + [s'];
  }

  lemma StartCounts(c: Config)
    ensures Shape(c, Start(c)) && CountOk(c, Start(c))
  {
  }

  // ------------------------------------------------------------------
  // The attempt bound
  // ------------------------------------------------------------------

  function Attempts(h: History, i: nat): nat {
    if i in h.attempts then h.attempts[i] else 0
  }

  ghost function UsedNext(step: Step, next: Next): nat {
    match next
    case ThenSkip => Budget(step)
    case ThenFail(_) => Budget(step)
    case ThenResult(c, _) => Spent(step, c) + 1
    case ThenResend(c) => Spent(step, c) + 1
    case ThenResent(c, _) => Spent(step, c) + 1
    case ThenRetry(c) => Spent(step, c) + 1
  }

  /** An upper bound on the attempts already made at the current step. */
  ghost function Used(step: Step, p: Phase): nat {
    match p
    case Deciding => 0
    case Attempt(c) => Spent(step, c)
    case LoopCheck(c) => Spent(step, c) + 1
    case Emit(_, next) => UsedNext(step, next)
    case Push(_, _, next) => UsedNext(step, next)
    case Overflow(_, next) => UsedNext(step, next)
    case _ => Budget(step)
  }

  ghost predicate ThreadAttemptsOk(c: Config, h: History, r: nat, t: Thread)
    requires r < |c.m.roles|
  {
    var l := Steps(c, r);
    && (forall k :: t.pos < k < |l| ==> Attempts(h, l[k]) == 0)
    && (t.pos < |l| && l[t.pos] < |c.m.steps| && !t.phase.Exited? ==>
          Attempts(h, l[t.pos]) <= if Running(t.phase) then Used(c.m.steps[l[t.pos]], t.phase) else 0)
  }

  ghost predicate AttemptsOk(c: Config, s: Sys)
    requires Shape(c, s)
  {
    && (forall i: nat :: i < |c.m.steps| ==> Attempts(s.history, i) <= Budget(c.m.steps[i]))
    && forall r :: 0 <= r < |s.threads| ==> ThreadAttemptsOk(c, s.history, r, s.threads[r])
  }

  lemma UsedBound(step: Step, p: Phase)
    requires PhaseCountersOk(step, p)
    ensures Used(step, p) <= Budget(step)
    ensures p.Attempt? ==> Used(step, p) < Budget(step)
  {
    hide Budget, Spent;
    match p
    case Attempt(cn) => SpentBelowBudget(step, cn);
    case LoopCheck(cn) => SpentBelowBudget(step, cn);
    case Emit(_, next) => UsedNextBound(step, next);
    case Push(_, _, next) => UsedNextBound(step, next);
    case Overflow(_, next) => UsedNextBound(step, next);
    case _ =>
  }

  lemma UsedNextBound(step: Step, next: Next)
    requires NextOk(step, next)
    ensures UsedNext(step, next) <= Budget(step)
  {
    hide Budget, Spent;
    match next
    case ThenSkip =>
    case ThenFail(_) =>
    case ThenResult(cn, _) => SpentBelowBudget(step, cn);
    case ThenResend(cn) => SpentBelowBudget(step, cn);
    case ThenResent(cn, _) => SpentBelowBudget(step, cn);
    case ThenRetry(cn) => SpentBelowBudget(step, cn);
  }

  lemma ContinueKeepsUsed(step: Step, state: string, next: Next, ch: Choice)
    requires NextOk(step, next)
    ensures UsedNext(step, next) <= Used(step, Continue(step, state, next, ch))
  {
    hide Budget, Spent, Resends;
    UsedNextBound(step, next);
    match next
    case ThenSkip =>
    case ThenFail(_) =>
    case ThenResult(cn, _) =>
    case ThenResend(cn) =>
    case ThenResent(cn, _) => OneMoreSpent(step, cn);
    case ThenRetry(cn) => OneMoreSpent(step, cn);
  }

  /** The bound at the current step survives every atomic step inside it. */
  lemma UsedKept(c: Config, r: nat, step: Step, t: Thread, sh: Shared, ch: Choice)
    requires PhaseCountersOk(step, t.phase) && Running(t.phase) && !t.phase.Mark?
    ensures var t' := StepThread(c, r, step, t, sh, ch);
            Running(t'.phase) && Used(step, t.phase) + (if t.phase.Attempt? then 1 else 0) <= Used(step, t'.phase)
  {
    hide Budget, Spent, Continue, UsedNext, Resends;
    UsedBound(step, t.phase);
    match t.phase
    case Attempt(cn) => assert UsedNext(step, ThenResult(cn, ch.result)) == Spent(step, cn) + 1 by { UsedResult(step, cn, ch.result); }
    case Emit(left, next) =>
      ContinueKeepsUsed(step, t.state, next, ch);
      ContinueRuns(step, t.state, next, ch);
    case LoopCheck(cn) =>
      SpentBelowBudget(step, cn);
      FreshLoopSpent(step, cn);
    case _ =>
  }

  lemma UsedResult(step: Step, cn: Counters, result: Result)
    ensures UsedNext(step, ThenResult(cn, result)) == Spent(step, cn) + 1
  {
  }

  lemma ContinueRuns(step: Step, state: string, next: Next, ch: Choice)
    ensures Running(Continue(step, state, next, ch))
  {
  }

  lemma FreshLoopSpent(step: Step, cn: Counters)
    ensures Spent(step, Counters(cn.loops + 1, 0, 0)) == (cn.loops + 1) * PerLoop(step)
  {
  }

  lemma AttemptsStep(c: Config, s: Sys, r: nat, ch: Choice)
    requires PlannedModel(c.m) && Inv(c, s) && CountOk(c, s) && AttemptsOk(c, s) && Fires(c, s, r, ch)
    ensures Shape(c, Do(c, s, r, ch)) && AttemptsOk(c, Do(c, s, r, ch))
  {
    assert WellFormed(c.m);
    hide PlannedModel, Inv, CanStep, Do, AttemptsOk, ThreadAttemptsOk, ThreadCountOk;
    StepView(c, s, r, ch);
    var s' := Do(c, s, r, ch);
    var t := s.threads[r];
    if t.pos == |Steps(c, r)| {
      AttemptsLeave(c, s, r);
    } else {
      var i := Steps(c, r)[t.pos];
      AttemptsTotals(c, s, r, ch, i);
      forall r' | 0 <= r' < |s'.threads|
        ensures ThreadAttemptsOk(c, s'.history, r', s'.threads[r'])
      {
        if r' == r {
          AttemptsOwn(c, s, r, ch, i);
        } else {
          AttemptsOther(c, s, r, ch, i, r');
        }
      }
      assert AttemptsOk(c, s') by {
        AttemptsFromParts(c, s');
      }
    }
  }

  lemma AttemptsFromParts(c: Config, s: Sys)
    requires Shape(c, s)
    requires forall i: nat :: i < |c.m.steps| ==> Attempts(s.history, i) <= Budget(c.m.steps[i])
    requires forall r :: 0 <= r < |s.threads| ==> ThreadAttemptsOk(c, s.history, r, s.threads[r])
    ensures AttemptsOk(c, s)
  {
  }

  lemma AttemptsLeave(c: Config, s: Sys, r: nat)
    requires Shape(c, s) && AttemptsOk(c, s) && r < |s.threads| && s.threads[r].pos == |Steps(c, r)|
    ensures AttemptsOk(c, s.(threads := s.threads[r := Leave(s.threads[r])]))
  {
  }

  lemma AttemptsTotals(c: Config, s: Sys, r: nat, ch: Choice, i: nat)
    requires Shape(c, s) && AttemptsOk(c, s) && CountOk(c, s) && r < |s.threads|
    requires s.threads[r].pos < |Steps(c, r)| && i == Steps(c, r)[s.threads[r].pos] && i < |c.m.steps|
    ensures forall j: nat :: j < |c.m.steps| ==> Attempts(DoAt(c, s, r, ch, i).history, j) <= Budget(c.m.steps[j])
  {
    hide Budget, Used, PhaseCountersOk, StepThread, StepShared;
    assert ThreadAttemptsOk(c, s.history, r, s.threads[r]);
    assert ThreadCountOk(c, r, s.threads[r]);
    UsedBound(c.m.steps[i], s.threads[r].phase);
  }

  lemma AttemptsOwn(c: Config, s: Sys, r: nat, ch: Choice, i: nat)
    requires PlannedModel(c.m) && Inv(c, s) && CountOk(c, s) && AttemptsOk(c, s) && Fires(c, s, r, ch)
    requires s.threads[r].pos < |Steps(c, r)| && i == Steps(c, r)[s.threads[r].pos] && i < |c.m.steps|
    ensures ThreadAttemptsOk(c, DoAt(c, s, r, ch, i).history, r, DoAt(c, s, r, ch, i).threads[r])
  {
    var t := s.threads[r];
    var s' := DoAt(c, s, r, ch, i);
    assert !t.phase.Exited?;
    hide Budget, Used, PlannedModel, Inv, CanStep, Steps, PhaseCountersOk;
    assert ThreadAttemptsOk(c, s.history, r, t) && ThreadCountOk(c, r, t);
    forall k | t.pos < k < |Steps(c, r)|
      ensures Attempts(s'.history, Steps(c, r)[k]) == 0
    {
      StepsIncrease(c, r, t.pos, k);
    }
    if Running(t.phase) && !t.phase.Mark? {
      UsedKept(c, r, c.m.steps[i], t, s.shared, ch);
      PosKept(c, r, c.m.steps[i], t, s.shared, ch);
    }
  }

  lemma AttemptsOther(c: Config, s: Sys, r: nat, ch: Choice, i: nat, r': nat)
    requires WellFormed(c.m) && Shape(c, s) && AttemptsOk(c, s) && r < |s.threads| && r' < |s.threads| && r != r'
    requires s.threads[r].pos < |Steps(c, r)| && i == Steps(c, r)[s.threads[r].pos] && i < |c.m.steps|
    ensures ThreadAttemptsOk(c, DoAt(c, s, r, ch, i).history, r', DoAt(c, s, r, ch, i).threads[r'])
  {
    hide Budget, Used, StepThread, StepShared, Steps;
    assert ThreadAttemptsOk(c, s.history, r', s.threads[r']);
    forall k | 0 <= k < |Steps(c, r')|
      ensures Steps(c, r')[k] != i
    {
      RolesAreDisjoint(c, r, r', s.threads[r].pos, k);
    }
  }

  lemma {:induction false} RunKeepsAttempts(c: Config, run: seq<Sys>)
    requires PlannedModel(c.m) && IsRun(c, run)
    ensures Shape(c, run[|run| - 1]) && AttemptsOk(c, run[|run| - 1])
    decreases |run|
  {
    hide PlannedModel, Inv, CountOk, AttemptsOk, Do, CanStep;
    if |run| == 1 {
      StartAttempts(c);
    } else {
      RunPrefix(c, run);
      var before := run[..|run| - 1];
      assert before[|before| - 1] == run[|run| - 2];
      RunKeepsAttempts(c, before);
      RunKeepsInv(c, before);
      RunsAreFinite(c, before);
      var r: nat, ch :| Fires(c, run[|run| - 2], r, ch) && run[|run| - 1] == Do(c, run[|run| - 2], r, ch);
      AttemptsStep(c, run[|run| - 2], r, ch);
    }
  }

  lemma StartAttempts(c: Config)
    ensures Shape(c, Start(c)) && AttemptsOk(c, Start(c))
  {
  }

  /** Each step is attempted at most loop * (1 + retransmit + retry) times, where
      retransmit is the larger of the step's and its timer's setting. */
  lemma AttemptBound(c: Config, s: Sys, i: nat)
    requires PlannedModel(c.m) && Reached(c, s) && i < |c.m.steps|
    ensures var step := c.m.steps[i];
            Attempts(s.history, i) <=
            step.loopCount * (1 + (if step.retransmit > step.timerRetransmit then step.retransmit else step.timerRetransmit) + step.retry)
  {
    hide PlannedModel;
    var run :| IsRun(c, run) && run[|run| - 1] == s;
    RunKeepsAttempts(c, run);
    assert Attempts(s.history, i) <= Budget(c.m.steps[i]);
  }
}
