/** The engine's trace: stamping an event and storing it are separate atomic
    steps, yet the joined and sorted trace is gap-free and respects every
    dependency. */
module Tracing {
  import opened Protocols
  import opened Collections
  import opened ModelChecker
  import opened Engine
  import opened Scheduler

  /** The event thread `r` has stamped but not stored yet. */
  ghost predicate Pending(c: Config, s: Sys, r: nat, e: Event) {
    && r < |s.threads| && r < |c.m.roles|
    && s.threads[r].phase.Push?
    && s.threads[r].pos < |Steps(c, r)|
    && e == Event(s.threads[r].phase.seqNo, Steps(c, r)[s.threads[r].pos])
  }

  ghost predicate Stamped(c: Config, s: Sys, e: Event) {
    e in s.shared.trace || exists r: nat :: Pending(c, s, r, e)
  }

  // ------------------------------------------------------------------
  // Dependency chains
  // ------------------------------------------------------------------

  /** `d` comes before `i`: a dependency, or a dependency of an active step that
      itself comes before `i`. */
  ghost predicate Precedes(c: Config, d: nat, i: nat)
    requires PlannedModel(c.m)
    decreases i
  {
    && i < |c.m.steps|
    && exists j: nat :: j in c.m.deps[i] && j < i && (j == d || (c.m.steps[j].role in c.active && Precedes(c, d, j)))
  }

  lemma CompletedWasStarted(c: Config, s: Sys, j: nat)
    requires PlannedModel(c.m) && Inv(c, s)
    requires j < |c.m.steps| && j in s.shared.completed && c.m.steps[j].role in c.active
    ensures j in s.history.started
  {
    hide StartsOk, OutcomesOk;
    assert c.m.steps[j].role in c.m.roles;
    var r :| 0 <= r < |c.m.roles| && c.m.roles[r] == c.m.steps[j].role;
    RoleStepsElements(c.m, c.m.roles[r], |c.m.steps|);
    assert j in Steps(c, r);
    var k :| 0 <= k < |Steps(c, r)| && Steps(c, r)[k] == j;
    assert ThreadOk(c, s.shared, s.history, r, s.threads[r]);
  }

  lemma {:induction false} StartedAfterChain(c: Config, s: Sys, d: nat, i: nat)
    requires PlannedModel(c.m) && Inv(c, s) && i in s.history.started && Precedes(c, d, i)
    ensures d in s.shared.completed
    decreases i
  {
    hide ThreadsOk;
    var j: nat :| j in c.m.deps[i] && j < i && (j == d || (c.m.steps[j].role in c.active && Precedes(c, d, j)));
    assert Released(s, j);
    if j != d {
      CompletedWasStarted(c, s, j);
      StartedAfterChain(c, s, d, j);
    }
  }

  // ------------------------------------------------------------------
  // The trace invariant
  // ------------------------------------------------------------------

  ghost predicate Numbered(c: Config, s: Sys, x: nat) {
    exists e :: Stamped(c, s, e) && e.seqNo == x
  }

  ghost predicate NumbersOk(c: Config, s: Sys) {
    && (forall e :: Stamped(c, s, e) ==> e.seqNo < s.shared.counter && e.seqNo < c.maxTrace)
    && (forall x: nat :: x < s.shared.counter && x < c.maxTrace ==> Numbered(c, s, x))
  }

  /** No number is stored twice, or both stored and pending, or pending twice. */
  ghost predicate UniqueOk(c: Config, s: Sys) {
    && (forall a, b :: 0 <= a < b < |s.shared.trace| ==> s.shared.trace[a].seqNo != s.shared.trace[b].seqNo)
    && (forall a, r: nat, e :: 0 <= a < |s.shared.trace| && Pending(c, s, r, e) ==> s.shared.trace[a].seqNo != e.seqNo)
    && (forall r: nat, r': nat, e, e' :: Pending(c, s, r, e) && Pending(c, s, r', e') && r != r' ==> e.seqNo != e'.seqNo)
  }

  ghost predicate OrderOk(c: Config, s: Sys)
    requires PlannedModel(c.m)
  {
    && (forall e :: Stamped(c, s, e) ==> e.running in s.history.started)
    && forall e, f :: Stamped(c, s, e) && Stamped(c, s, f) && Precedes(c, e.running, f.running) ==> e.seqNo < f.seqNo
  }

  ghost predicate TraceOk(c: Config, s: Sys)
    requires PlannedModel(c.m)
  {
    NumbersOk(c, s) && UniqueOk(c, s) && OrderOk(c, s)
  }

  /** The step taken stamps a new event. */
  ghost predicate Stamps(c: Config, s: Sys, r: nat)
    requires r < |s.threads|
  {
    s.threads[r].phase.Emit? && s.threads[r].phase.left > 0 && s.shared.counter < c.maxTrace
  }

  lemma PendingElsewhere(c: Config, s: Sys, r: nat, ch: Choice, i: nat, r': nat, e: Event)
    requires r < |s.threads| && i < |c.m.steps| && r != r'
    ensures Pending(c, DoAt(c, s, r, ch, i), r', e) <==> Pending(c, s, r', e)
  {
    hide StepThread, StepShared, StepHistory, Steps;
  }

  lemma PendingHere(c: Config, s: Sys, r: nat, ch: Choice, i: nat, e: Event)
    requires r < |s.threads| && r < |c.m.roles| && s.threads[r].pos < |Steps(c, r)| && i == Steps(c, r)[s.threads[r].pos]
    requires i < |c.m.steps|
    ensures Pending(c, DoAt(c, s, r, ch, i), r, e) <==> Stamps(c, s, r) && e == Event(s.shared.counter, i)
    ensures DoAt(c, s, r, ch, i).shared.trace
            == s.shared.trace + if s.threads[r].phase.Push? then [Event(s.threads[r].phase.seqNo, i)] else []
    ensures DoAt(c, s, r, ch, i).shared.counter
            == s.shared.counter + if s.threads[r].phase.Emit? && s.threads[r].phase.left > 0 then 1 else 0
  {
    hide Steps, Continue;
    if s.threads[r].phase.Emit? && s.threads[r].phase.left == 0 {
      NoPushNext(c.m.steps[i], s.threads[r].state, s.threads[r].phase.next, ch);
    }
  }

  lemma NoPushNext(step: Step, state: string, next: Next, ch: Choice)
    ensures !Continue(step, state, next, ch).Push?
  {
  }

  /** An atomic step stamps at most one event, numbered by the counter. */
  lemma StampedAfter(c: Config, s: Sys, r: nat, ch: Choice, i: nat, e: Event)
    requires r < |s.threads| && r < |c.m.roles| && s.threads[r].pos < |Steps(c, r)| && i == Steps(c, r)[s.threads[r].pos]
    requires i < |c.m.steps|
    ensures Stamped(c, DoAt(c, s, r, ch, i), e) <==> Stamped(c, s, e) || (Stamps(c, s, r) && e == Event(s.shared.counter, i))
  {
    hide DoAt, Steps, Stamps;
    var s' := DoAt(c, s, r, ch, i);
    PendingHere(c, s, r, ch, i, e);
    if Stamped(c, s, e) && e !in s.shared.trace {
      var r': nat :| Pending(c, s, r', e);
      if r' != r {
        PendingElsewhere(c, s, r, ch, i, r', e);
      }
    }
    if Stamped(c, s', e) && e !in s'.shared.trace {
      var r': nat :| Pending(c, s', r', e);
      if r' != r {
        PendingElsewhere(c, s, r, ch, i, r', e);
      }
    }
    if e in s'.shared.trace && e !in s.shared.trace {
      assert Pending(c, s, r, e);
    }
  }

  lemma NumbersStep(c: Config, s: Sys, r: nat, ch: Choice, i: nat)
    requires r < |s.threads| && r < |c.m.roles| && s.threads[r].pos < |Steps(c, r)| && i == Steps(c, r)[s.threads[r].pos]
    requires i < |c.m.steps| && NumbersOk(c, s)
    ensures NumbersOk(c, DoAt(c, s, r, ch, i))
  {
    hide DoAt, Steps, Stamped;
    var s' := DoAt(c, s, r, ch, i);
    PendingHere(c, s, r, ch, i, Event(0, i));
    forall e
      ensures Stamped(c, s', e) <==> Stamped(c, s, e) || (Stamps(c, s, r) && e == Event(s.shared.counter, i))
    {
      StampedAfter(c, s, r, ch, i, e);
    }
    forall x: nat | x < s'.shared.counter && x < c.maxTrace
      ensures Numbered(c, s', x)
    {
      if x < s.shared.counter {
        assert Numbered(c, s, x);
        var e :| Stamped(c, s, e) && e.seqNo == x;
        assert Stamped(c, s', e);
      } else {
        assert Stamped(c, s', Event(s.shared.counter, i));
      }
    }
  }

  lemma OrderStep(c: Config, s: Sys, r: nat, ch: Choice, i: nat)
    requires PlannedModel(c.m) && Inv(c, s) && Fires(c, s, r, ch) && c.m.roles[r] in c.active
    requires s.threads[r].pos < |Steps(c, r)| && i == Steps(c, r)[s.threads[r].pos] && i < |c.m.steps|
    requires NumbersOk(c, s) && OrderOk(c, s)
    ensures OrderOk(c, DoAt(c, s, r, ch, i))
  {
    var s' := DoAt(c, s, r, ch, i);
    assert ThreadOk(c, s.shared, s.history, r, s.threads[r]);
    assert Stamps(c, s, r) ==> i in s.history.started && i !in s.shared.completed;
    SharedGrows(c, r, i, s.threads[r], s'.threads[r], s.shared, s.history);
    hide DoAt, Steps, Stamped, PlannedModel, Inv, Stamps, Precedes, CanStep;
    forall e
      ensures Stamped(c, s', e) <==> Stamped(c, s, e) || (Stamps(c, s, r) && e == Event(s.shared.counter, i))
    {
      StampedAfter(c, s, r, ch, i, e);
    }
    forall e, f | Stamped(c, s', e) && Stamped(c, s', f) && Precedes(c, e.running, f.running)
      ensures e.seqNo < f.seqNo
    {
      if !Stamped(c, s, e) {
        StartedAfterChain(c, s, i, f.running);
        assert false;
      }
    }
  }

  lemma UniqueStep(c: Config, s: Sys, r: nat, ch: Choice, i: nat)
    requires r < |s.threads| && r < |c.m.roles| && s.threads[r].pos < |Steps(c, r)| && i == Steps(c, r)[s.threads[r].pos]
    requires i < |c.m.steps| && NumbersOk(c, s) && UniqueOk(c, s)
    ensures UniqueOk(c, DoAt(c, s, r, ch, i))
  {
    var s' := DoAt(c, s, r, ch, i);
    hide DoAt, Steps;
    forall r': nat, e
      ensures Pending(c, s', r', e) <==>
              if r' == r then Stamps(c, s, r) && e == Event(s.shared.counter, i) else Pending(c, s, r', e)
    {
      if r' == r {
        PendingHere(c, s, r, ch, i, e);
      } else {
        PendingElsewhere(c, s, r, ch, i, r', e);
      }
    }
    PendingHere(c, s, r, ch, i, Event(0, i));
    if s.threads[r].phase.Push? {
      assert Pending(c, s, r, Event(s.threads[r].phase.seqNo, i));
    }
    hide Pending;
    forall a | 0 <= a < |s.shared.trace|
      ensures s.shared.trace[a].seqNo < s.shared.counter
    {
      assert Stamped(c, s, s.shared.trace[a]);
    }
    forall r': nat, e | Pending(c, s, r', e)
      ensures e.seqNo < s.shared.counter
    {
      assert Stamped(c, s, e);
    }
  }

  lemma TraceStep(c: Config, s: Sys, r: nat, ch: Choice)
    requires PlannedModel(c.m) && Inv(c, s) && Fires(c, s, r, ch) && TraceOk(c, s)
    ensures TraceOk(c, Do(c, s, r, ch))
  {
    hide PlannedModel, Inv, CanStep, Do, NumbersOk, UniqueOk, OrderOk, DoAt;
    StepView(c, s, r, ch);
    var t := s.threads[r];
    if t.pos == |Steps(c, r)| {
      LeavingKeepsTrace(c, s, r);
    } else {
      var i := Steps(c, r)[t.pos];
      NumbersStep(c, s, r, ch, i);
      UniqueStep(c, s, r, ch, i);
      OrderStep(c, s, r, ch, i);
    }
  }

  lemma LeavingKeepsTrace(c: Config, s: Sys, r: nat)
    requires PlannedModel(c.m) && TraceOk(c, s) && Shape(c, s) && r < |s.threads| && s.threads[r].phase.Top?
    ensures TraceOk(c, s.(threads := s.threads[r := Leave(s.threads[r])]))
  {
    hide PlannedModel, Steps, Precedes;
    var s' := s.(threads := s.threads[r := Leave(s.threads[r])]);
    assert forall r': nat, e :: Pending(c, s', r', e) <==> Pending(c, s, r', e);
    hide Pending;
    assert forall e :: Stamped(c, s', e) <==> Stamped(c, s, e);
    hide Stamped;
    assert forall x: nat :: Numbered(c, s', x) <==> Numbered(c, s, x);
  }

  lemma {:induction false} RunKeepsTrace(c: Config, run: seq<Sys>)
    requires PlannedModel(c.m) && IsRun(c, run)
    ensures TraceOk(c, run[|run| - 1])
    decreases |run|
  {
    hide PlannedModel, Inv, TraceOk, Do, CanStep;
    if |run| == 1 {
      StartTrace(c);
    } else {
      RunPrefix(c, run);
      var before := run[..|run| - 1];
      assert before[|before| - 1] == run[|run| - 2];
      RunKeepsTrace(c, before);
      RunKeepsInv(c, before);
      var r: nat, ch :| Fires(c, run[|run| - 2], r, ch) && run[|run| - 1] == Do(c, run[|run| - 2], r, ch);
      TraceStep(c, run[|run| - 2], r, ch);
    }
  }

  lemma StartTrace(c: Config)
    requires PlannedModel(c.m)
    ensures TraceOk(c, Start(c))
  {
    hide PlannedModel, Precedes;
    assert forall e :: !Stamped(c, Start(c), e);
  }

  // ------------------------------------------------------------------
  // The joined and sorted trace
  // ------------------------------------------------------------------

  ghost predicate SortedBySeq(t: seq<Event>) {
    forall a, b :: 0 <= a < b < |t| ==> t[a].seqNo <= t[b].seqNo
  }

  function RecordedCount(c: Config, s: Sys): nat {
    if s.shared.counter < c.maxTrace then s.shared.counter else c.maxTrace
  }

  ghost function Numbers(t: seq<Event>): (r: seq<nat>)
    ensures |r| == |t| && forall i :: 0 <= i < |t| ==> r[i] == t[i].seqNo
  {
    seq(|t|, i requires 0 <= i < |t| => t[i].seqNo)
  }

  /** Increasing numbers below `n` that miss none are 0, 1, ..., n-1. */
  lemma {:induction false} IncreasingIsIdentity(s: seq<nat>, n: nat, i: nat)
    requires forall a, b :: 0 <= a < b < |s| ==> s[a] < s[b]
    requires forall k :: 0 <= k < |s| ==> s[k] < n
    requires forall x: nat :: x < n ==> x in s
    requires i < |s|
    ensures |s| == n && s[i] == i
  {
    Pigeonhole(s, n);
    SubsetSize(Below(n), set x | x in s);
    ElemsSize(s);
    AtLeastIndex(s, i);
    AtMostIndex(s, n, i);
  }

  lemma {:induction false} AtLeastIndex(s: seq<nat>, i: nat)
    requires forall a, b :: 0 <= a < b < |s| ==> s[a] < s[b]
    requires i < |s|
    ensures s[i] >= i
  {
    if i > 0 {
      AtLeastIndex(s, i - 1);
    }
  }

  lemma {:induction false} AtMostIndex(s: seq<nat>, n: nat, i: nat)
    requires forall a, b :: 0 <= a < b < |s| ==> s[a] < s[b]
    requires forall k :: 0 <= k < |s| ==> s[k] < n
    requires i < |s| == n
    ensures s[i] <= i
    decreases |s| - i
  {
    if i < |s| - 1 {
      AtMostIndex(s, n, i + 1);
    }
  }

  lemma {:induction false} SameElements(a: seq<Event>, b: seq<Event>)
    requires multiset(a) == multiset(b)
    ensures forall e :: e in a <==> e in b
  {
    forall e
      ensures e in a <==> e in b
    {
      assert e in multiset(a) <==> e in a;
      assert e in multiset(b) <==> e in b;
    }
  }

  /** Sorting keeps numbers distinct. */
  lemma SortedIsStrict(t: seq<Event>, sorted: seq<Event>)
    requires forall a, b :: 0 <= a < b < |t| ==> t[a].seqNo != t[b].seqNo
    requires multiset(sorted) == multiset(t) && SortedBySeq(sorted)
    ensures forall a, b :: 0 <= a < b < |sorted| ==> sorted[a].seqNo < sorted[b].seqNo
  {
    forall a, b | 0 <= a < b < |sorted|
      ensures sorted[a].seqNo < sorted[b].seqNo
    {
      if sorted[a].seqNo == sorted[b].seqNo {
        SameElements(t, sorted);
        assert sorted[a] in t && sorted[b] in t;
        assert sorted[a] == sorted[b];
        TwiceInMultiset(sorted, a, b);
        OnceInMultiset(t, sorted[a]);
        assert false;
      }
    }
  }

  lemma TwiceInMultiset(s: seq<Event>, a: nat, b: nat)
    requires a < b < |s| && s[a] == s[b]
    ensures multiset(s)[s[a]] >= 2
  {
    assert s == s[..a] + [s[a]] + s[a + 1..b] + [s[b]] + s[b + 1..];
  }

  lemma {:induction false} OnceInMultiset(t: seq<Event>, e: Event)
    requires forall a, b :: 0 <= a < b < |t| ==> t[a].seqNo != t[b].seqNo
    ensures multiset(t)[e] <= 1
  {
    if t != [] {
      var init := t[..|t| - 1];
      OnceInMultiset(init, e);
      assert t == init + [t[|t| - 1]];
      if t[|t| - 1] == e {
        assert e !in init;
      }
    }
  }

  /** Once all threads have left, the sorted trace is numbered 0..n-1 with
      n = min(counter, max_trace), and an event of a step comes after every event
      of the steps before it. */
  lemma JoinedTrace(c: Config, s: Sys, sorted: seq<Event>)
    requires PlannedModel(c.m) && Reached(c, s) && AllExited(s)
    requires multiset(sorted) == multiset(s.shared.trace) && SortedBySeq(sorted)
    ensures |sorted| == RecordedCount(c, s)
    ensures forall i :: 0 <= i < |sorted| ==> sorted[i].seqNo == i
    ensures forall a, b :: 0 <= a < |sorted| && 0 <= b < |sorted| && Precedes(c, sorted[a].running, sorted[b].running) ==> a < b
  {
    var run :| IsRun(c, run) && run[|run| - 1] == s;
    RunKeepsTrace(c, run);
    hide PlannedModel, IsRun, Precedes;
    assert forall e :: Stamped(c, s, e) <==> e in s.shared.trace;
    SameElements(s.shared.trace, sorted);
    SortedIsStrict(s.shared.trace, sorted);
    SortedNumbers(c, s, sorted);
    forall a, b | 0 <= a < |sorted| && 0 <= b < |sorted| && Precedes(c, sorted[a].running, sorted[b].running)
      ensures a < b
    {
      assert Stamped(c, s, sorted[a]) && Stamped(c, s, sorted[b]);
    }
  }

  lemma SortedNumbers(c: Config, s: Sys, sorted: seq<Event>)
    requires NumbersOk(c, s)
    requires forall e :: Stamped(c, s, e) <==> e in sorted
    requires forall a, b :: 0 <= a < b < |sorted| ==> sorted[a].seqNo < sorted[b].seqNo
    ensures |sorted| == RecordedCount(c, s)
    ensures forall i :: 0 <= i < |sorted| ==> sorted[i].seqNo == i
  {
    hide Stamped;
    var ns, n := Numbers(sorted), RecordedCount(c, s);
    forall k | 0 <= k < |ns|
      ensures ns[k] < n
    {
      assert Stamped(c, s, sorted[k]);
    }
    forall x: nat | x < n
      ensures x in ns
    {
      assert Numbered(c, s, x);
      var e :| Stamped(c, s, e) && e.seqNo == x;
      var k :| 0 <= k < |sorted| && sorted[k] == e;
      assert ns[k] == x;
    }
    assert |ns| > 0 ==> ns[0] < n;
    if n > 0 {
      assert 0 in ns;
      IncreasingIsIdentity(ns, n, 0);
    }
    forall i | 0 <= i < |sorted|
      ensures sorted[i].seqNo == i
    {
      IncreasingIsIdentity(ns, n, i);
    }
  }
}
