/** `model_check::check` from a protocol to a report, and what a clean complete
    report guarantees about every schedule. */
module Checker {
  import opened Protocols
  import opened Collections
  import opened ModelChecker
  import opened Explorer
  import Planner

  // ------------------------------------------------------------------
  // From a protocol to the explored model
  // ------------------------------------------------------------------

  /** `m` is the protocol's plan in the order `ord` of declaration indices. */
  ghost predicate Represents(m: Model, protocol: Protocol, ord: seq<nat>) {
    && Planner.LeastTopological(protocol.steps, ord)
    && |m.steps| == |ord| == |m.deps|
    && (forall k :: 0 <= k < |ord| ==> m.steps[k] == protocol.steps[ord[k]])
    && (forall k :: 0 <= k < |ord| ==> DepsRepresent(m, protocol.steps, ord, k))
    && m.roles == Planner.RolesSeen(protocol.steps, |protocol.steps|)
    && m.invariants == protocol.invariants
  }

  ghost predicate DepsRepresent(m: Model, steps: seq<Step>, ord: seq<nat>, k: nat)
    requires k < |m.deps| && |m.deps| == |ord|
  {
    forall d: nat :: d in m.deps[k] <==> d < |ord| && Planner.DependsOn(steps, ord[k], ord[d])
  }

  ghost predicate KnownRoles(protocol: Protocol) {
    forall v :: v in protocol.invariants ==> RolesKnown(protocol.steps, v)
  }

  ghost predicate RolesKnown(steps: seq<Step>, v: Invariant) {
    RoleKnown(steps, v.role) && (v.StateImplies? ==> RoleKnown(steps, v.impliesRole))
  }

  ghost predicate RoleKnown(steps: seq<Step>, role: string) {
    exists i :: 0 <= i < |steps| && steps[i].role == role
  }

  /** The first invariant that speaks of an unknown role, and that role: its own, or
      else the one it implies something about. */
  ghost predicate FirstUnknownRole(protocol: Protocol, j: nat, role: string) {
    && j < |protocol.invariants|
    && (forall i :: 0 <= i < j ==> RolesKnown(protocol.steps, protocol.invariants[i]))
    && var v := protocol.invariants[j];
       if !RoleKnown(protocol.steps, v.role) then role == v.role
       else v.StateImplies? && role == v.impliesRole && !RoleKnown(protocol.steps, role)
  }

  datatype CheckResult =
    | Checked(report: Report)
    | ZeroBound
    | NotPlannable(error: Planner.PlanResult)
    | UnknownRole(invariantName: string, role: string)

  method IndexPlan(order: seq<Planner.PlannedStep>) returns (index: map<string, nat>)
    requires forall a, b :: 0 <= a < b < |order| ==> order[a].step.name != order[b].step.name
    ensures forall k :: 0 <= k < |order| ==> order[k].step.name in index && index[order[k].step.name] == k
  {
    index := map[];
    for i := 0 to |order|
      invariant forall k :: 0 <= k < i ==> order[k].step.name in index && index[order[k].step.name] == k
    {
      index := index[order[i].step.name := i];
    }
  }

  /** The dependency names of one planned step as plan indices. */
  method ResolveIndices(names: seq<string>, index: map<string, nat>) returns (deps: seq<nat>)
    requires forall i :: 0 <= i < |names| ==> names[i] in index
    ensures |deps| == |names| && forall i :: 0 <= i < |names| ==> deps[i] == index[names[i]]
  {
    deps := [];
    for i := 0 to |names|
      invariant |deps| == i && forall j :: 0 <= j < i ==> deps[j] == index[names[j]]
    {
      deps := deps + [index[names[i]]];
    }
  }

  ghost predicate IndexOf(steps: seq<Step>, ord: seq<nat>, index: map<string, nat>)
    requires forall k :: 0 <= k < |ord| ==> ord[k] < |steps|
  {
    forall k :: 0 <= k < |ord| ==> steps[ord[k]].name in index && index[steps[ord[k]].name] == k
  }

  lemma DependencyInPlan(steps: seq<Step>, ord: seq<nat>, k: nat, name: string) returns (d: nat)
    requires Planner.UniqueNames(steps) && Planner.KnownReferences(steps) && Planner.Topological(steps, ord)
    requires k < |ord| && name in Planner.DepNames(steps, ord[k])
    ensures d < |ord| && steps[ord[d]].name == name && Planner.DependsOn(steps, ord[k], ord[d])
  {
    Planner.DepNamesMeaning(steps, ord[k]);
    assert Planner.Named(steps, name);
    var j :| 0 <= j < |steps| && steps[j].name == name;
    assert Planner.DependsOn(steps, ord[k], j);
    assert j in ord[..k];
    d :| 0 <= d < k && ord[..k][d] == j;
  }

  lemma ResolvedDepsRepresent(m: Model, steps: seq<Step>, ord: seq<nat>, index: map<string, nat>, k: nat)
    requires Planner.UniqueNames(steps) && Planner.KnownReferences(steps) && Planner.Topological(steps, ord)
    requires k < |ord| == |m.deps| && IndexOf(steps, ord, index)
    requires var names := Planner.DepNames(steps, ord[k]);
             |m.deps[k]| == |names|
             && forall i :: 0 <= i < |names| ==> names[i] in index && m.deps[k][i] == index[names[i]]
    ensures DepsRepresent(m, steps, ord, k)
  {
    var names := Planner.DepNames(steps, ord[k]);
    forall d: nat
      ensures d in m.deps[k] <==> d < |ord| && Planner.DependsOn(steps, ord[k], ord[d])
    {
      if d in m.deps[k] {
        var i :| 0 <= i < |names| && m.deps[k][i] == d;
        var e := DependencyInPlan(steps, ord, k, names[i]);
        assert index[steps[ord[e]].name] == e;
      }
      if d < |ord| && Planner.DependsOn(steps, ord[k], ord[d]) {
        Planner.DepNamesMeaning(steps, ord[k]);
        assert steps[ord[d]].name in names;
        var i :| 0 <= i < |names| && names[i] == steps[ord[d]].name;
        assert m.deps[k][i] == d;
      }
    }
  }

  method BuildModel(protocol: Protocol, plan: Planner.Plan, ghost ord: seq<nat>) returns (m: Model)
    requires Planner.UniqueNames(protocol.steps) && Planner.KnownReferences(protocol.steps)
    requires Planner.LeastTopological(protocol.steps, ord) && Planner.PlanFollows(protocol.steps, plan, ord)
    ensures Represents(m, protocol, ord)
  {
    hide Planner.LeastTopological, Planner.DependsOn, Planner.DepNames, Planner.KnownReferences;
    ghost var steps := protocol.steps;
    OrderFacts(steps, ord);
    var order := plan.order;
    assert forall k :: 0 <= k < |ord| ==> order[k] == Planner.PlannedStep(steps[ord[k]], Planner.DepNames(steps, ord[k]));
    var index := IndexPlan(order);
    assert IndexOf(steps, ord, index) by {
      assert forall k :: 0 <= k < |ord| ==> order[k].step == steps[ord[k]];
    }
    var planned: seq<Step>, deps: seq<seq<nat>> := [], [];
    for k := 0 to |order|
      invariant |planned| == |deps| == k
      invariant forall i :: 0 <= i < k ==> planned[i] == order[i].step
      invariant forall i :: 0 <= i < k ==> IndicesOf(order[i].deps, index, deps[i])
    {
      NamesIndexed(steps, ord, index, k, order[k].deps);
      var ds := ResolveIndices(order[k].deps, index);
      planned, deps := planned + [order[k].step], deps + [ds];
    }
    m := Model(planned, deps, plan.roles, protocol.invariants);
    forall k | 0 <= k < |ord|
      ensures m.steps[k] == protocol.steps[ord[k]]
      ensures DepsRepresent(m, steps, ord, k)
    {
      assert IndicesOf(order[k].deps, index, deps[k]);
      ResolvedDepsRepresent(m, steps, ord, index, k);
    }
  }

  ghost predicate IndicesOf(names: seq<string>, index: map<string, nat>, ds: seq<nat>) {
    |ds| == |names| && forall i :: 0 <= i < |names| ==> names[i] in index && ds[i] == index[names[i]]
  }

  lemma NamesIndexed(steps: seq<Step>, ord: seq<nat>, index: map<string, nat>, k: nat, names: seq<string>)
    requires Planner.UniqueNames(steps) && Planner.KnownReferences(steps) && Planner.Topological(steps, ord)
    requires k < |ord| && IndexOf(steps, ord, index) && names == Planner.DepNames(steps, ord[k])
    ensures forall i :: 0 <= i < |names| ==> names[i] in index
  {
    forall i | 0 <= i < |names|
      ensures names[i] in index
    {
      var d := DependencyInPlan(steps, ord, k, names[i]);
    }
  }

  lemma OrderFacts(steps: seq<Step>, ord: seq<nat>)
    requires Planner.UniqueNames(steps) && Planner.LeastTopological(steps, ord)
    ensures Planner.Topological(steps, ord)
    ensures forall k :: 0 <= k < |ord| ==> ord[k] < |steps|
    ensures forall a, b :: 0 <= a < b < |ord| ==> steps[ord[a]].name != steps[ord[b]].name
  {
    assert Planner.Topological(steps, ord);
  }

  lemma RepresentedIsWellFormed(m: Model, protocol: Protocol, ord: seq<nat>)
    requires Represents(m, protocol, ord) && KnownRoles(protocol)
    ensures WellFormed(m)
  {
    Planner.RolesSeenElements(protocol.steps, |protocol.steps|);
    forall i, d | 0 <= i < |m.steps| && 0 <= d < |m.deps[i]|
      ensures m.deps[i][d] < |m.steps|
    {
      assert DepsRepresent(m, protocol.steps, ord, i);
      assert m.deps[i][d] in m.deps[i];
    }
    forall v | v in m.invariants
      ensures v.role in m.roles && (v.StateImplies? ==> v.impliesRole in m.roles)
    {
      assert RolesKnown(protocol.steps, v);
    }
  }

  method Check(protocol: Protocol, maxStates: nat) returns (r: CheckResult)
    ensures r.ZeroBound? <==> maxStates == 0
    ensures r.NotPlannable? <==>
              maxStates > 0 && !(Planner.UniqueNames(protocol.steps) && Planner.KnownReferences(protocol.steps)
                                 && Planner.Acyclic(protocol.steps))
    ensures r.NotPlannable? ==> !r.error.Planned? && Planner.FaultIsReal(protocol.steps, r.error)
    ensures r.UnknownRole? ==>
              !KnownRoles(protocol) && exists j: nat :: FirstUnknownRole(protocol, j, r.role)
                                                    && protocol.invariants[j].name == r.invariantName
    ensures r.Checked? ==>
              KnownRoles(protocol)
              && exists m, ord :: Represents(m, protocol, ord) && WellFormed(m) && ReportOk(m, maxStates, r.report)
  {
    hide Represents, ReportOk, WellFormed;
    if maxStates == 0 {
      return ZeroBound;
    }
    var planned := Planner.MakePlan(protocol);
    if !planned.Planned? {
      return NotPlannable(planned);
    }
    var plan := planned.plan;
    ghost var ord :| Planner.LeastTopological(protocol.steps, ord) && Planner.PlanFollows(protocol.steps, plan, ord);
    Planner.RolesSeenElements(protocol.steps, |protocol.steps|);
    for i := 0 to |protocol.invariants|
      invariant forall j :: 0 <= j < i ==> RolesKnown(protocol.steps, protocol.invariants[j])
    {
      var v := protocol.invariants[i];
      if v.role !in plan.roles {
        assert v in protocol.invariants && FirstUnknownRole(protocol, i, v.role);
        return UnknownRole(v.name, v.role);
      }
      if v.StateImplies? && v.impliesRole !in plan.roles {
        assert v in protocol.invariants && FirstUnknownRole(protocol, i, v.impliesRole);
        return UnknownRole(v.name, v.impliesRole);
      }
    }
    var m := BuildModel(protocol, plan, ord);
    RepresentedIsWellFormed(m, protocol, ord);
    var report := Explore(m, maxStates);
    r := Checked(report);
  }

  // ------------------------------------------------------------------
  // What a clean complete report guarantees
  // ------------------------------------------------------------------

  lemma {:induction false} PrefixIsRun(m: Model, moves: seq<Move>, p: nat)
    requires WellFormed(m) && After(m, moves).Some? && p <= |moves|
    ensures After(m, moves[..p]).Some?
    decreases |moves|
  {
    if p == |moves| {
      assert moves[..p] == moves;
    } else {
      PrefixIsRun(m, moves[..|moves| - 1], p);
      assert moves[..|moves| - 1][..p] == moves[..p];
    }
  }

  /** Somewhere along the schedule, start and end included, the invariant's role
      is in the invariant's state. */
  ghost predicate VisitsState(m: Model, moves: seq<Move>, v: Invariant)
    requires WellFormed(m) && v.role in m.roles
  {
    exists p :: 0 <= p <= |moves| && InStateAt(m, moves, p, v)
  }

  ghost predicate InStateAt(m: Model, moves: seq<Move>, p: nat, v: Invariant)
    requires WellFormed(m) && v.role in m.roles && p <= |moves|
  {
    After(m, moves[..p]).Some? && After(m, moves[..p]).value.roleStates[Position(m.roles, v.role)] == v.state
  }

  lemma EventualityRole(m: Model, l: nat)
    requires WellFormed(m) && l < |Eventualities(m.invariants)|
    ensures Eventualities(m.invariants)[l] in m.invariants && Eventualities(m.invariants)[l].role in m.roles
  {
    EventualitiesElements(m.invariants);
    assert Eventualities(m.invariants)[l] in Eventualities(m.invariants);
  }

  lemma VisitsOneMore(m: Model, moves: seq<Move>, v: Invariant)
    requires WellFormed(m) && v.role in m.roles && moves != []
    ensures VisitsState(m, moves, v) <==> VisitsState(m, moves[..|moves| - 1], v) || InStateAt(m, moves, |moves|, v)
  {
    var prefix := moves[..|moves| - 1];
    forall p | 0 <= p <= |prefix|
      ensures prefix[..p] == moves[..p]
    {
    }
    if VisitsState(m, prefix, v) {
      var p :| 0 <= p <= |prefix| && InStateAt(m, prefix, p, v);
      assert InStateAt(m, moves, p, v);
    }
    if VisitsState(m, moves, v) {
      var p :| 0 <= p <= |moves| && InStateAt(m, moves, p, v);
      if p <= |prefix| {
        assert InStateAt(m, prefix, p, v);
      }
    }
  }

  lemma StateAfterMove(m: Model, k: Key, mv: Move, v: Invariant)
    requires WellFormed(m) && Fits(m, k) && mv.step < |m.steps| && v.role in m.roles
    ensures var at := Position(m.roles, v.role);
            Apply(m, k, mv).roleStates[at] == v.state <==>
            Arrives(m.steps[mv.step], mv.execute, v)
            || (k.roleStates[at] == v.state
                && !(mv.execute && m.steps[mv.step].role == v.role && m.steps[mv.step].toState.Some?))
  {
    var step := m.steps[mv.step];
    assert Position(m.roles, step.role) == Position(m.roles, v.role) ==> step.role == v.role;
  }

  /** `reached_liveness` is an exact history variable: the flag of an
      `eventually_state` invariant is set iff the schedule visits its state. */
  lemma {:induction false} HistoryIsExact(m: Model, moves: seq<Move>, l: nat)
    requires WellFormed(m) && After(m, moves).Some? && l < |Eventualities(m.invariants)|
    requires Eventualities(m.invariants)[l].role in m.roles
    ensures After(m, moves).value.reached[l] <==> VisitsState(m, moves, Eventualities(m.invariants)[l])
    decreases |moves|
  {
    var v := Eventualities(m.invariants)[l];
    assert moves[..|moves|] == moves;
    if moves == [] {
      assert InStateAt(m, moves, 0, v) <==> v.state == INITIAL_STATE;
    } else {
      var prefix := moves[..|moves| - 1];
      HistoryIsExact(m, prefix, l);
      var k := After(m, prefix).value;
      var mv := moves[|moves| - 1];
      VisitsOneMore(m, moves, v);
      StateAfterMove(m, k, mv, v);
      if k.roleStates[Position(m.roles, v.role)] == v.state {
        assert prefix[..|prefix|] == prefix;
        assert InStateAt(m, prefix, |prefix|, v);
      }
    }
  }

  ghost predicate Clean(m: Model, maxStates: nat, r: Report)
    requires WellFormed(m)
  {
    ReportOk(m, maxStates, r) && r.complete && r.violations == []
  }

  lemma NothingToShow(m: Model, maxStates: nat, r: Report, moves: seq<Move>, x: ViolationKey)
    requires WellFormed(m) && Clean(m, maxStates, r) && After(m, moves).Some?
    ensures !Exhibits(m, After(m, moves).value, x)
  {
    hide BoundOk, UnreachableOk, TransitionsOk, Justified;
    assert Exhibits(m, After(m, moves).value, x) <==> Witnesses(m, moves, x);
    assert !Has(r.violations, x);
  }

  /** Safety invariants hold after every step of every schedule. */
  lemma CleanMeansSafe(m: Model, maxStates: nat, r: Report, moves: seq<Move>, v: Invariant)
    requires WellFormed(m) && Clean(m, maxStates, r) && After(m, moves).Some? && v in m.invariants
    ensures !Fails(m, After(m, moves).value, v)
  {
    hide Clean;
    NothingToShow(m, maxStates, r, moves, Broken(v.name));
  }

  /** A schedule that cannot be extended has finished every step and has visited
      the state of every `eventually_state` invariant. */
  lemma CleanMeansLive(m: Model, maxStates: nat, r: Report, moves: seq<Move>)
    requires WellFormed(m) && Clean(m, maxStates, r) && After(m, moves).Some? && Stuck(m, After(m, moves).value)
    ensures Finished(After(m, moves).value)
    ensures forall v :: v in m.invariants && v.EventuallyState? ==> VisitsState(m, moves, v)
  {
    hide Clean, Stuck;
    var k := After(m, moves).value;
    NothingToShow(m, maxStates, r, moves, Deadlock);
    assert Finished(k);
    var ev := Eventualities(m.invariants);
    EventualitiesElements(m.invariants);
    forall v | v in m.invariants && v.EventuallyState?
      ensures VisitsState(m, moves, v)
    {
      var l :| 0 <= l < |ev| && ev[l] == v;
      NothingToShow(m, maxStates, r, moves, NeverReached(v.name));
      assert k.reached[l];
      HistoryIsExact(m, moves, l);
    }
  }

  ghost function Remaining(k: Key): nat {
    |set i | 0 <= i < |k.completed| && !k.completed[i]|
  }

  lemma ApplyCompletesOne(m: Model, k: Key, mv: Move)
    requires WellFormed(m) && Fits(m, k) && Enabled(m, k, mv)
    ensures Remaining(Apply(m, k, mv)) == Remaining(k) - 1
  {
    var k' := Apply(m, k, mv);
    var before := set i | 0 <= i < |k.completed| && !k.completed[i];
    var after := set i | 0 <= i < |k'.completed| && !k'.completed[i];
    assert mv.step in before;
    assert after == before - {mv.step};
  }

  /** No schedule is a dead end: each can be continued until all steps are done. */
  lemma {:induction false} CleanMeansFinishable(m: Model, maxStates: nat, r: Report, moves: seq<Move>)
    returns (rest: seq<Move>)
    requires WellFormed(m) && Clean(m, maxStates, r) && After(m, moves).Some?
    ensures After(m, moves + rest).Some? && Finished(After(m, moves + rest).value)
    decreases Remaining(After(m, moves).value)
  {
    hide Clean, Enabled, Apply, Remaining, Finished;
    var k := After(m, moves).value;
    if Stuck(m, k) {
      rest := [];
      assert moves + rest == moves;
      CleanMeansLive(m, maxStates, r, moves);
    } else {
      var mv :| Enabled(m, k, mv);
      AfterStep(m, moves, mv);
      ApplyCompletesOne(m, k, mv);
      var tail := CleanMeansFinishable(m, maxStates, r, moves + [mv]);
      rest := [mv] + tail;
      assert moves + rest == moves + [mv] + tail;
    }
  }
}
