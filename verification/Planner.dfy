/** `graph::plan`: name and reference validation, implicit same-role edges, and
    Kahn's topological sort with a ready list ordered by declaration index. */
module Planner {
  import opened Protocols
  import opened Collections

  datatype PlannedStep = PlannedStep(step: Step, deps: seq<string>)
  datatype Plan = Plan(roles: seq<string>, order: seq<PlannedStep>)

  datatype PlanResult =
    | Planned(plan: Plan)
    | DuplicateName(index: nat)
    | UnknownDependency(index: nat, dependency: string)
    | DependencyCycle(remaining: seq<string>)

  // ------------------------------------------------------------------
  // The dependency relation
  // ------------------------------------------------------------------

  ghost predicate UniqueNames(steps: seq<Step>) {
    forall i, j :: 0 <= i < j < |steps| ==> steps[i].name != steps[j].name
  }

  ghost predicate Named(steps: seq<Step>, name: string) {
    exists j :: 0 <= j < |steps| && steps[j].name == name
  }

  ghost predicate KnownReferences(steps: seq<Step>) {
    forall i, d :: 0 <= i < |steps| && d in steps[i].dependsOn ==> Named(steps, d)
  }

  /** Step `j` is the closest earlier declaration of step `i`'s role. */
  ghost predicate PreviousInRole(steps: seq<Step>, j: int, i: int) {
    && 0 <= j < i < |steps|
    && steps[j].role == steps[i].role
    && forall k :: j < k < i ==> steps[k].role != steps[i].role
  }

  /** Step `i` must wait for step `j`, explicitly or as its role predecessor. */
  ghost predicate DependsOn(steps: seq<Step>, i: int, j: int) {
    && 0 <= i < |steps|
    && 0 <= j < |steps|
    && (PreviousInRole(steps, j, i) || steps[j].name in steps[i].dependsOn)
  }

  ghost predicate IsWalk(steps: seq<Step>, w: seq<nat>) {
    && |w| > 0
    && (forall k :: 0 <= k < |w| ==> w[k] < |steps|)
    && forall k :: 0 <= k < |w| - 1 ==> DependsOn(steps, w[k], w[k + 1])
  }

  ghost predicate IsCycle(steps: seq<Step>, c: seq<nat>) {
    IsWalk(steps, c) && |c| >= 2 && c[0] == c[|c| - 1]
  }

  ghost predicate Acyclic(steps: seq<Step>) {
    forall c :: !IsCycle(steps, c)
  }

  /** A walk from `i` runs into a step it has already passed. */
  ghost predicate LeadsToCycle(steps: seq<Step>, i: nat) {
    exists w, a :: IsLasso(steps, w, a) && w[0] == i
  }

  ghost predicate IsLasso(steps: seq<Step>, w: seq<nat>, a: nat) {
    IsWalk(steps, w) && a < |w| - 1 && w[a] == w[|w| - 1]
  }

  // ------------------------------------------------------------------
  // Topological orders
  // ------------------------------------------------------------------

  /** A duplicate-free list of step indices in which dependencies come first. */
  ghost predicate DependenciesFirst(steps: seq<Step>, ord: seq<nat>) {
    && Distinct(ord)
    && (forall k :: 0 <= k < |ord| ==> ord[k] < |steps|)
    && forall k, j: nat :: 0 <= k < |ord| && DependsOn(steps, ord[k], j) ==> j in ord[..k]
  }

  ghost predicate Topological(steps: seq<Step>, ord: seq<nat>) {
    DependenciesFirst(steps, ord) && |ord| == |steps|
  }

  ghost predicate LexLeq(a: seq<nat>, b: seq<nat>) {
    a == b || exists k :: 0 <= k < |a| && k < |b| && a[..k] == b[..k] && a[k] < b[k]
  }

  ghost predicate LeastTopological(steps: seq<Step>, ord: seq<nat>) {
    && Topological(steps, ord)
    && forall q :: Topological(steps, q) ==> LexLeq(ord, q)
  }

  /** `i` could be the next entry after `done`. */
  ghost predicate Available(steps: seq<Step>, done: seq<nat>, i: nat) {
    && i < |steps|
    && i !in done
    && forall j: nat :: DependsOn(steps, i, j) ==> j in done
  }

  ghost predicate Greedy(steps: seq<Step>, ord: seq<nat>) {
    forall k, i: nat :: 0 <= k < |ord| && Available(steps, ord[..k], i) ==> ord[k] <= i
  }

  // ------------------------------------------------------------------
  // What the plan holds
  // ------------------------------------------------------------------

  /** Index of the last declaration of `role` among the first `n` steps. */
  function LastOfRole(steps: seq<Step>, role: string, n: nat): (r: Option<nat>)
    requires n <= |steps|
    ensures r.Some? ==> r.value < n
  {
    if n == 0 then None
    else if steps[n - 1].role == role then Some(n - 1)
    else LastOfRole(steps, role, n - 1)
  }

  lemma {:induction false} LastOfRoleIsLast(steps: seq<Step>, role: string, n: nat)
    requires n <= |steps|
    ensures var r := LastOfRole(steps, role, n);
            if r.Some? then steps[r.value].role == role && forall k :: r.value < k < n ==> steps[k].role != role
            else forall k :: 0 <= k < n ==> steps[k].role != role
  {
    if n > 0 {
      LastOfRoleIsLast(steps, role, n - 1);
    }
  }

  /** `base` followed by the elements of `extra` that are not there yet. */
  function AppendMissing(base: seq<string>, extra: seq<string>): (r: seq<string>)
    decreases |extra|
  {
    if extra == [] then base
    else AppendMissing(if extra[0] in base then base else base + [extra[0]], extra[1..])
  }

  lemma {:induction false} AppendMissingElements(base: seq<string>, extra: seq<string>)
    requires Distinct(base)
    ensures Distinct(AppendMissing(base, extra))
    ensures forall x :: x in AppendMissing(base, extra) <==> x in base || x in extra
    decreases |extra|
  {
    if extra != [] {
      AppendMissingElements(if extra[0] in base then base else base + [extra[0]], extra[1..]);
    }
  }

  /** The resolved dependency names of step `i`: role predecessor first. */
  function DepNames(steps: seq<Step>, i: nat): (r: seq<string>)
    requires i < |steps|
  {
    var prev := LastOfRole(steps, steps[i].role, i);
    AppendMissing(if prev.Some? then [steps[prev.value].name] else [], steps[i].dependsOn)
  }

  /** Roles in order of first appearance among the first `n` steps. */
  function RolesSeen(steps: seq<Step>, n: nat): (r: seq<string>)
    requires n <= |steps|
  {
    if n == 0 then []
    else
      var before := RolesSeen(steps, n - 1);
      if steps[n - 1].role in before then before else before + [steps[n - 1].role]
  }

  lemma {:induction false} RolesSeenElements(steps: seq<Step>, n: nat)
    requires n <= |steps|
    ensures Distinct(RolesSeen(steps, n))
    ensures forall x :: x in RolesSeen(steps, n) <==> exists k :: 0 <= k < n && steps[k].role == x
  {
    if n > 0 {
      RolesSeenElements(steps, n - 1);
    }
  }

  ghost predicate Lists(steps: seq<Step>, ord: seq<nat>, order: seq<PlannedStep>) {
    && |order| == |ord|
    && forall k {:trigger order[k]} :: 0 <= k < |ord| ==>
         ord[k] < |steps| && order[k] == PlannedStep(steps[ord[k]], DepNames(steps, ord[k]))
  }

  ghost predicate PlanFollows(steps: seq<Step>, plan: Plan, ord: seq<nat>) {
    && Lists(steps, ord, plan.order)
    && plan.roles == RolesSeen(steps, |steps|)
  }

  lemma DepNamesMeaning(steps: seq<Step>, i: nat)
    requires i < |steps| && UniqueNames(steps)
    ensures Distinct(DepNames(steps, i))
    ensures forall j :: 0 <= j < |steps| ==> (steps[j].name in DepNames(steps, i) <==> DependsOn(steps, i, j))
    ensures forall d :: d in DepNames(steps, i) ==> Named(steps, d) || d in steps[i].dependsOn
  {
    var prev := LastOfRole(steps, steps[i].role, i);
    LastOfRoleIsLast(steps, steps[i].role, i);
    AppendMissingElements(if prev.Some? then [steps[prev.value].name] else [], steps[i].dependsOn);
    forall j | 0 <= j < |steps|
      ensures steps[j].name in DepNames(steps, i) <==> DependsOn(steps, i, j)
    {
      if prev.Some? {
        assert PreviousInRole(steps, prev.value, i);
        if PreviousInRole(steps, j, i) && j != prev.value {
          assert false;
        }
      }
    }
  }

  // ------------------------------------------------------------------
  // Why Kahn's greedy choice is the least order, and why it gets stuck
  // exactly on cycles
  // ------------------------------------------------------------------

  lemma GreedyIsLeast(steps: seq<Step>, ord: seq<nat>)
    requires Topological(steps, ord) && Greedy(steps, ord)
    ensures LeastTopological(steps, ord)
  {
    forall q | Topological(steps, q)
      ensures LexLeq(ord, q)
    {
      GreedyBeats(steps, ord, q, 0);
    }
  }

  lemma {:induction false} GreedyBeats(steps: seq<Step>, ord: seq<nat>, q: seq<nat>, k: nat)
    requires Topological(steps, ord) && Greedy(steps, ord) && Topological(steps, q)
    requires k <= |steps| && ord[..k] == q[..k]
    ensures LexLeq(ord, q)
    decreases |steps| - k
  {
    if k == |steps| {
      assert ord == ord[..k] == q[..k] == q;
    } else if ord[k] == q[k] {
      assert ord[..k + 1] == ord[..k] + [ord[k]] == q[..k + 1];
      GreedyBeats(steps, ord, q, k + 1);
    } else {
      assert q[k] !in q[..k];
      assert Available(steps, ord[..k], q[k]);
    }
  }

  /** In a dependencies-first list every walk goes strictly backwards. */
  lemma {:induction false} WalkDescends(steps: seq<Step>, ord: seq<nat>, w: seq<nat>, p: nat) returns (at: nat)
    requires DependenciesFirst(steps, ord) && IsWalk(steps, w)
    requires p < |ord| && ord[p] == w[0]
    ensures at < |ord| && ord[at] == w[|w| - 1]
    ensures |w| > 1 ==> at < p
    decreases |w|
  {
    if |w| == 1 {
      at := p;
    } else {
      assert DependsOn(steps, w[0], w[1]);
      var next :| 0 <= next < p && ord[..p][next] == w[1];
      at := WalkDescends(steps, ord, w[1..], next);
    }
  }

  lemma SortedStepsAvoidCycles(steps: seq<Step>, ord: seq<nat>, i: nat)
    requires DependenciesFirst(steps, ord) && i in ord
    ensures !LeadsToCycle(steps, i)
  {
    forall w, a | IsLasso(steps, w, a) && w[0] == i
      ensures false
    {
      var p :| 0 <= p < |ord| && ord[p] == i;
      var pa := WalkDescends(steps, ord, w[..a + 1], p);
      var pz := WalkDescends(steps, ord, w[a..], pa);
    }
  }

  lemma ExtendWalk(steps: seq<Step>, w: seq<nat>, j: nat)
    requires IsWalk(steps, w) && DependsOn(steps, w[|w| - 1], j)
    ensures IsWalk(steps, w + [j])
  {
    var w' := w + [j];
    forall k | 0 <= k < |w'| - 1
      ensures DependsOn(steps, w'[k], w'[k + 1])
    {
      if k < |w| - 1 {
        assert DependsOn(steps, w[k], w[k + 1]);
      }
    }
  }

  ghost predicate WaitsInside(steps: seq<Step>, stuck: set<nat>, i: nat) {
    exists j: nat :: j in stuck && DependsOn(steps, i, j)
  }

  /** A set in which every step has a dependency inside the set traps a walk
      until it closes. */
  lemma {:induction false} TrappedWalkCloses(steps: seq<Step>, stuck: set<nat>, w: seq<nat>)
    requires forall i {:trigger WaitsInside(steps, stuck, i)} :: i in stuck ==> WaitsInside(steps, stuck, i)
    requires IsWalk(steps, w) && Distinct(w)
    requires forall k :: 0 <= k < |w| ==> w[k] in stuck
    ensures LeadsToCycle(steps, w[0])
    decreases |steps| - |w|
  {
    assert WaitsInside(steps, stuck, w[|w| - 1]);
    var j: nat :| j in stuck && DependsOn(steps, w[|w| - 1], j);
    var w' := w + [j];
    ExtendWalk(steps, w, j);
    if j in w {
      var a :| 0 <= a < |w| && w[a] == j;
      assert IsLasso(steps, w', a);
    } else {
      Pigeonhole(w', |steps|);
      TrappedWalkCloses(steps, stuck, w');
    }
  }

  lemma LassoHasCycle(steps: seq<Step>, w: seq<nat>, a: nat)
    requires IsLasso(steps, w, a)
    ensures IsCycle(steps, w[a..])
  {
  }

  lemma AcyclicMeansNoLasso(steps: seq<Step>)
    ensures Acyclic(steps) <==> forall i: nat :: !LeadsToCycle(steps, i)
  {
    if Acyclic(steps) {
      forall w, a | IsLasso(steps, w, a)
        ensures false
      {
        LassoHasCycle(steps, w, a);
      }
    }
    forall c | IsCycle(steps, c)
      ensures LeadsToCycle(steps, c[0])
    {
      assert IsLasso(steps, c, 0);
    }
  }

  // ------------------------------------------------------------------
  // Validation
  // ------------------------------------------------------------------

  ghost predicate IndexesNames(steps: seq<Step>, byName: map<string, nat>) {
    && (forall i :: 0 <= i < |steps| ==> steps[i].name in byName && byName[steps[i].name] == i)
    && forall name :: name in byName ==> byName[name] < |steps| && steps[byName[name]].name == name
  }

  ghost predicate FirstDuplicate(steps: seq<Step>, i: nat) {
    i < |steps| && UniqueNames(steps[..i]) && Named(steps[..i], steps[i].name)
  }

  method IndexNames(steps: seq<Step>) returns (byName: map<string, nat>, duplicate: Option<nat>)
    ensures duplicate.None? ==> UniqueNames(steps) && IndexesNames(steps, byName)
    ensures duplicate.Some? ==> FirstDuplicate(steps, duplicate.value)
  {
    byName := map[];
    for i := 0 to |steps|
      invariant UniqueNames(steps[..i]) && IndexesNames(steps[..i], byName)
    {
      if steps[i].name in byName {
        assert steps[..i][byName[steps[i].name]].name == steps[i].name;
        return byName, Some(i);
      }
      assert forall k :: 0 <= k < i ==> steps[..i][k].name in byName;
      byName := byName[steps[i].name := i];
      assert steps[..i + 1] == steps[..i] + [steps[i]];
    }
    assert steps[..|steps|] == steps;
    duplicate := None;
  }

  /** The first reference, in declaration order, to a step that does not exist. */
  ghost predicate FirstUnknown(steps: seq<Step>, i: nat, k: nat) {
    && i < |steps|
    && k < |steps[i].dependsOn|
    && !Named(steps, steps[i].dependsOn[k])
    && (forall d :: d in steps[i].dependsOn[..k] ==> Named(steps, d))
    && forall j, d :: 0 <= j < i && d in steps[j].dependsOn ==> Named(steps, d)
  }

  method FindUnknown(steps: seq<Step>, byName: map<string, nat>) returns (unknown: Option<(nat, nat)>)
    requires IndexesNames(steps, byName)
    ensures unknown.None? ==> KnownReferences(steps)
    ensures unknown.Some? ==> FirstUnknown(steps, unknown.value.0, unknown.value.1)
  {
    for i := 0 to |steps|
      invariant forall j, d :: 0 <= j < i && d in steps[j].dependsOn ==> Named(steps, d)
    {
      for k := 0 to |steps[i].dependsOn|
        invariant forall d :: d in steps[i].dependsOn[..k] ==> Named(steps, d)
      {
        var d := steps[i].dependsOn[k];
        if d !in byName {
          return Some((i, k));
        }
        assert steps[byName[d]].name == d;
        assert steps[i].dependsOn[..k + 1] == steps[i].dependsOn[..k] + [d];
      }
      assert steps[i].dependsOn[..|steps[i].dependsOn|] == steps[i].dependsOn;
    }
    unknown := None;
  }

  // ------------------------------------------------------------------
  // Dependency resolution
  // ------------------------------------------------------------------

  ghost function FirstNames(steps: seq<Step>, n: nat): set<string>
    requires n <= |steps|
  {
    set k | 0 <= k < n :: steps[k].name
  }

  ghost predicate Resolves(steps: seq<Step>, n: nat, deps: map<string, seq<string>>)
    requires n <= |steps|
  {
    && (forall k {:trigger DepNames(steps, k)} :: 0 <= k < n ==> steps[k].name in deps && deps[steps[k].name] == DepNames(steps, k))
    && deps.Keys == FirstNames(steps, n)
  }

  ghost predicate TracksRoles(steps: seq<Step>, n: nat, previous: map<string, string>)
    requires n <= |steps|
  {
    forall role ::
      var last := LastOfRole(steps, role, n);
      && (role in previous <==> last.Some?)
      && (last.Some? ==> previous[role] == steps[last.value].name)
  }

  lemma ResolvedDeps(steps: seq<Step>, deps: map<string, seq<string>>, i: nat)
    requires i < |steps| && Resolves(steps, |steps|, deps)
    ensures steps[i].name in deps && deps[steps[i].name] == DepNames(steps, i)
  {
  }

  lemma ResolvesNext(steps: seq<Step>, i: nat, deps: map<string, seq<string>>)
    requires UniqueNames(steps) && i < |steps| && Resolves(steps, i, deps)
    ensures Resolves(steps, i + 1, deps[steps[i].name := DepNames(steps, i)])
  {
    assert FirstNames(steps, i + 1) == FirstNames(steps, i) + {steps[i].name};
  }

  lemma RoleIsTracked(steps: seq<Step>, role: string, n: nat)
    requires n <= |steps|
    ensures role in RolesSeen(steps, n) <==> LastOfRole(steps, role, n).Some?
  {
    RolesSeenElements(steps, n);
    LastOfRoleIsLast(steps, role, n);
  }

  lemma TracksNext(steps: seq<Step>, i: nat, previous: map<string, string>)
    requires i < |steps| && TracksRoles(steps, i, previous)
    ensures TracksRoles(steps, i + 1, previous[steps[i].role := steps[i].name])
  {
  }

  method AppendDeps(base: seq<string>, extra: seq<string>) returns (d: seq<string>)
    ensures d == AppendMissing(base, extra)
  {
    d := base;
    for k := 0 to |extra|
      invariant AppendMissing(base, extra) == AppendMissing(d, extra[k..])
    {
      assert extra[k..][1..] == extra[k + 1..];
      if extra[k] !in d {
        d := d + [extra[k]];
      }
    }
  }

  method ResolveDeps(steps: seq<Step>) returns (deps: map<string, seq<string>>, roles: seq<string>)
    requires UniqueNames(steps)
    ensures Resolves(steps, |steps|, deps)
    ensures roles == RolesSeen(steps, |steps|)
  {
    deps, roles := map[], [];
    var previous: map<string, string> := map[];
    for i := 0 to |steps|
      invariant Resolves(steps, i, deps)
      invariant TracksRoles(steps, i, previous)
      invariant roles == RolesSeen(steps, i)
    {
      var role := steps[i].role;
      RoleIsTracked(steps, role, i);
      assert role in previous <==> LastOfRole(steps, role, i).Some?;
      if role !in previous {
        roles := roles + [role];
      }
      var d := AppendDeps(if role in previous then [previous[role]] else [], steps[i].dependsOn);
      ResolvesNext(steps, i, deps);
      TracksNext(steps, i, previous);
      deps := deps[steps[i].name := d];
      previous := previous[role := steps[i].name];
    }
  }

  /** `l` holds, once each, those of `seen` that depend on `d`. */
  ghost predicate ListsDependents(deps: map<string, seq<string>>, seen: set<string>, d: string, l: seq<string>)
    requires seen <= deps.Keys
  {
    Distinct(l) && forall x :: x in l <==> x in seen && d in deps[x]
  }

  ghost predicate AdjacencyOf(deps: map<string, seq<string>>, seen: set<string>, adj: map<string, seq<string>>)
    requires seen <= deps.Keys
  {
    && adj.Keys == deps.Keys
    && forall d {:trigger adj[d]} :: d in adj ==> ListsDependents(deps, seen, d, adj[d])
  }

  /** The hash map is visited in an arbitrary order. */
  method BuildGraph(deps: map<string, seq<string>>) returns (indeg: map<string, nat>, adj: map<string, seq<string>>)
    requires forall x :: x in deps ==> Distinct(deps[x]) && forall d :: d in deps[x] ==> d in deps
    ensures indeg.Keys == deps.Keys && forall x :: x in deps ==> indeg[x] == |deps[x]|
    ensures AdjacencyOf(deps, deps.Keys, adj)
  {
    indeg := map x | x in deps :: 0;
    adj := map x | x in deps :: [];
    NoneAdjacent(deps, adj);
    hide AdjacencyOf, Distinct;
    var seen: set<string> := {};
    while deps.Keys - seen != {}
      invariant seen <= deps.Keys
      invariant indeg.Keys == deps.Keys
      invariant forall x :: x in seen ==> indeg[x] == |deps[x]|
      invariant AdjacencyOf(deps, seen, adj)
      decreases deps.Keys - seen
    {
      var x :| x in deps.Keys - seen;
      indeg := indeg[x := |deps[x]|];
      adj := AddDependent(deps, seen, adj, x);
      seen := seen + {x};
    }
  }

  lemma NoneAdjacent(deps: map<string, seq<string>>, adj: map<string, seq<string>>)
    requires adj == map x | x in deps :: []
    ensures AdjacencyOf(deps, {}, adj)
  {
  }

  method AddDependent(deps: map<string, seq<string>>, ghost seen: set<string>,
                      adj0: map<string, seq<string>>, x: string)
    returns (adj: map<string, seq<string>>)
    requires x in deps && x !in seen && seen <= deps.Keys && Distinct(deps[x])
    requires forall d :: d in deps[x] ==> d in deps
    requires AdjacencyOf(deps, seen, adj0)
    ensures AdjacencyOf(deps, seen + {x}, adj)
  {
    adj := adj0;
    for k := 0 to |deps[x]|
      invariant adj.Keys == deps.Keys
      invariant forall d :: d in adj ==> adj[d] == if d in deps[x][..k] then adj0[d] + [x] else adj0[d]
    {
      var d := deps[x][k];
      assert d !in deps[x][..k];
      assert deps[x][..k + 1] == deps[x][..k] + [d];
      adj := adj[d := adj[d] + [x]];
    }
    assert deps[x][..|deps[x]|] == deps[x];
  }

  // ------------------------------------------------------------------
  // Kahn's sort
  // ------------------------------------------------------------------

  ghost predicate Increasing(s: seq<nat>) {
    forall a, b :: 0 <= a < b < |s| ==> s[a] < s[b]
  }

  function InsertIndex(x: nat, s: seq<nat>): (r: seq<nat>)
    requires Increasing(s) && x !in s
    ensures Increasing(r) && forall y :: y in r <==> y == x || y in s
  {
    if s == [] then [x]
    else if x < s[0] then [x] + s
    else
      assert s == [s[0]] + s[1..];
      var rest := InsertIndex(x, s[1..]);
      assert forall y :: y in rest ==> s[0] < y;
      assert forall b :: 0 <= b < |rest| ==> rest[b] in rest;
      [s[0]] + rest
  }

  /** The ready list after `sort`. */
  function SortIndices(s: seq<nat>): (r: seq<nat>)
    requires Distinct(s)
    ensures Increasing(r) && forall y :: y in r <==> y in s
  {
    if s == [] then []
    else
      assert s == [s[0]] + s[1..];
      InsertIndex(s[0], SortIndices(s[1..]))
  }

  /** How many of the listed dependencies are still outstanding. */
  function Pending(l: seq<string>, done: set<string>): (r: nat)
    ensures r == 0 <==> forall d :: d in l ==> d in done
  {
    if l == [] then 0 else (if l[0] in done then 0 else 1) + Pending(l[1..], done)
  }

  lemma {:induction false} PendingAll(l: seq<string>)
    ensures Pending(l, {}) == |l|
  {
    if l != [] {
      PendingAll(l[1..]);
    }
  }

  lemma {:induction false} PendingAfter(l: seq<string>, done: set<string>, s: string)
    requires Distinct(l) && s !in done
    ensures Pending(l, done + {s}) == Pending(l, done) - if s in l then 1 else 0
  {
    if l != [] {
      PendingAfter(l[1..], done, s);
    }
  }

  /** Decrement the in-degree of every dependent; those that reach zero are
      appended to the ready list. */
  method Release(byName: map<string, nat>, dependents: seq<string>, indeg0: map<string, nat>, ready0: seq<nat>)
    returns (indeg: map<string, nat>, ready: seq<nat>)
    requires Distinct(dependents) && Distinct(ready0)
    requires forall x :: x in dependents ==> x in indeg0 && x in byName && indeg0[x] > 0 && byName[x] !in ready0
    requires forall x, y :: x in byName && y in byName && x != y ==> byName[x] != byName[y]
    ensures indeg == map x | x in indeg0 :: if x in dependents then indeg0[x] - 1 else indeg0[x]
    ensures Distinct(ready)
    ensures forall i :: i in ready <==> i in ready0 || exists x :: x in dependents && byName[x] == i && indeg0[x] == 1
  {
    indeg, ready := indeg0, ready0;
    for k := 0 to |dependents|
      invariant indeg == map x | x in indeg0 :: if x in dependents[..k] then indeg0[x] - 1 else indeg0[x]
      invariant Distinct(ready)
      invariant forall i :: i in ready <==>
                  i in ready0 || exists x :: x in dependents[..k] && byName[x] == i && indeg0[x] == 1
    {
      var x := dependents[k];
      assert dependents[..k + 1] == dependents[..k] + [x];
      assert x !in dependents[..k];
      var left := if indeg[x] == 0 then 0 else indeg[x] - 1;
      indeg := indeg[x := left];
      if left == 0 {
        ready := ready + [byName[x]];
      }
    }
    assert dependents[..|dependents|] == dependents;
  }

  ghost function Names(steps: seq<Step>, ord: seq<nat>): set<string>
    requires forall k :: 0 <= k < |ord| ==> ord[k] < |steps|
  {
    set k | 0 <= k < |ord| :: steps[ord[k]].name
  }

  ghost predicate CountsPending(steps: seq<Step>, done: set<string>, indeg: map<string, nat>) {
    && (forall x :: x in indeg ==> Named(steps, x))
    && forall i {:trigger DepNames(steps, i)} :: 0 <= i < |steps| ==>
         steps[i].name in indeg && indeg[steps[i].name] == Pending(DepNames(steps, i), done)
  }

  ghost predicate KahnState(steps: seq<Step>, ord: seq<nat>, ready: seq<nat>) {
    && DependenciesFirst(steps, ord)
    && Greedy(steps, ord)
    && Increasing(ready)
    && forall i: nat :: i in ready <==> Available(steps, ord, i)
  }

  /** A step is available exactly when it is not sorted yet and its pending
      count is zero. */
  lemma AvailableIsPendingZero(steps: seq<Step>, ord: seq<nat>, i: nat)
    requires UniqueNames(steps) && KnownReferences(steps) && i < |steps|
    requires forall k :: 0 <= k < |ord| ==> ord[k] < |steps|
    ensures Available(steps, ord, i) <==> i !in ord && Pending(DepNames(steps, i), Names(steps, ord)) == 0
  {
    DepNamesMeaning(steps, i);
    var done := Names(steps, ord);
    if forall d :: d in DepNames(steps, i) ==> d in done {
      forall j: nat | DependsOn(steps, i, j)
        ensures j in ord
      {
        assert steps[j].name in done;
      }
    }
    if Available(steps, ord, i) {
      forall d | d in DepNames(steps, i)
        ensures d in done
      {
        assert Named(steps, d);
        var j :| 0 <= j < |steps| && steps[j].name == d;
        assert DependsOn(steps, i, j);
      }
    }
  }

  lemma SortOne(steps: seq<Step>, ord: seq<nat>, ready: seq<nat>)
    requires KahnState(steps, ord, ready) && ready != []
    ensures DependenciesFirst(steps, ord + [ready[0]])
    ensures Greedy(steps, ord + [ready[0]])
  {
    var i := ready[0];
    var ord' := ord + [i];
    assert Available(steps, ord, i);
    forall k | 0 <= k < |ord'|
      ensures ord'[..k] == ord[..k] && (k == |ord| ==> ord'[..k] == ord)
    {
    }
    forall k, j: nat | 0 <= k < |ord'| && DependsOn(steps, ord'[k], j)
      ensures j in ord'[..k]
    {
      if k < |ord| {
        assert DependsOn(steps, ord[k], j);
      }
    }
    forall k, x: nat | 0 <= k < |ord'| && Available(steps, ord'[..k], x)
      ensures ord'[k] <= x
    {
      if k < |ord| {
        assert Available(steps, ord[..k], x);
      } else {
        assert x in ready;
      }
    }
  }

  lemma NamesAppend(steps: seq<Step>, ord: seq<nat>, i: nat)
    requires i < |steps| && forall k :: 0 <= k < |ord| ==> ord[k] < |steps|
    ensures Names(steps, ord + [i]) == Names(steps, ord) + {steps[i].name}
  {
    var ord' := ord + [i];
    forall name | name in Names(steps, ord) + {steps[i].name}
      ensures name in Names(steps, ord')
    {
      if name == steps[i].name {
        assert ord'[|ord|] == i;
      } else {
        var k :| 0 <= k < |ord| && steps[ord[k]].name == name;
        assert ord'[k] == ord[k];
      }
    }
  }

  /** Sorting step `i` lowers the pending counts of its dependents by one. */
  lemma CountsAfter(steps: seq<Step>, ord: seq<nat>, i: nat, indeg: map<string, nat>,
                    dependents: seq<string>, indeg': map<string, nat>)
    requires UniqueNames(steps) && i < |steps|
    requires forall k :: 0 <= k < |ord| ==> ord[k] < |steps|
    requires i !in ord
    requires CountsPending(steps, Names(steps, ord), indeg)
    requires forall x :: 0 <= x < |steps| ==> (steps[x].name in dependents <==> DependsOn(steps, x, i))
    requires forall x :: x in dependents ==> x in indeg && indeg[x] > 0
    requires indeg' == map x | x in indeg :: if x in dependents then indeg[x] - 1 else indeg[x]
    ensures CountsPending(steps, Names(steps, ord + [i]), indeg')
  {
    NamesAppend(steps, ord, i);
    var done := Names(steps, ord);
    assert steps[i].name !in done;
    forall x | 0 <= x < |steps|
      ensures steps[x].name in indeg'
      ensures indeg'[steps[x].name] == Pending(DepNames(steps, x), done + {steps[i].name})
    {
      DepNamesMeaning(steps, x);
      PendingAfter(DepNames(steps, x), done, steps[i].name);
    }
  }

  /** After a step is sorted, the available steps are the other ready ones plus
      those dependents whose last outstanding dependency it was. */
  lemma ReadyAfter(steps: seq<Step>, byName: map<string, nat>, ord: seq<nat>, ready: seq<nat>,
                   indeg: map<string, nat>, dependents: seq<string>, ready': seq<nat>)
    requires UniqueNames(steps) && KnownReferences(steps) && IndexesNames(steps, byName)
    requires KahnState(steps, ord, ready) && ready != []
    requires CountsPending(steps, Names(steps, ord), indeg)
    requires forall x :: 0 <= x < |steps| ==> (steps[x].name in dependents <==> DependsOn(steps, x, ready[0]))
    requires forall x :: x in dependents ==> x in indeg && x in byName
    requires forall i :: i in ready' <==>
               i in ready[1..] || exists x :: x in dependents && byName[x] == i && indeg[x] == 1
    ensures forall i: nat :: i in ready' <==> Available(steps, ord + [ready[0]], i)
  {
    assert ready[0] in ready;
    forall i: nat
      ensures i in ready' <==> Available(steps, ord + [ready[0]], i)
    {
      if i < |steps| {
        ReadyIffAvailable(steps, ord, ready[0], i);
        ReleasedIff(steps, byName, ready[0], i, Names(steps, ord), indeg, dependents);
        assert i in ready <==> i == ready[0] || i in ready[1..];
        if DependsOn(steps, i, ready[0]) {
          assert !Available(steps, ord, i);
        }
      } else {
        assert !Available(steps, ord, i);
        assert i !in ready;
      }
    }
  }

  lemma ReleasedIff(steps: seq<Step>, byName: map<string, nat>, i0: nat, i: nat, done: set<string>,
                    indeg: map<string, nat>, dependents: seq<string>)
    requires UniqueNames(steps) && IndexesNames(steps, byName) && i < |steps|
    requires CountsPending(steps, done, indeg)
    requires forall x :: 0 <= x < |steps| ==> (steps[x].name in dependents <==> DependsOn(steps, x, i0))
    requires forall x :: x in dependents ==> x in indeg && x in byName
    ensures (exists x :: x in dependents && byName[x] == i && indeg[x] == 1) <==>
            DependsOn(steps, i, i0) && Pending(DepNames(steps, i), done) == 1
  {
    var n := Pending(DepNames(steps, i), done);
    assert indeg[steps[i].name] == n;
    if DependsOn(steps, i, i0) && n == 1 {
      assert steps[i].name in dependents && byName[steps[i].name] == i;
    }
  }

  lemma ReadyIffAvailable(steps: seq<Step>, ord: seq<nat>, i0: nat, i: nat)
    requires UniqueNames(steps) && KnownReferences(steps)
    requires i < |steps| && DependenciesFirst(steps, ord) && Available(steps, ord, i0)
    ensures Available(steps, ord + [i0], i) <==>
            if DependsOn(steps, i, i0) then Pending(DepNames(steps, i), Names(steps, ord)) == 1
            else i != i0 && Available(steps, ord, i)
  {
    var done := Names(steps, ord);
    NamesAppend(steps, ord, i0);
    AvailableIsPendingZero(steps, ord, i);
    AvailableIsPendingZero(steps, ord + [i0], i);
    assert steps[i0].name !in done;
    DepNamesMeaning(steps, i);
    PendingAfter(DepNames(steps, i), done, steps[i0].name);
    if DependsOn(steps, i, i0) {
      assert i !in ord by {
        if k :| 0 <= k < |ord| && ord[k] == i {
          assert i0 in ord[..k];
        }
      }
      assert i != i0 by {
        assert forall j: nat :: DependsOn(steps, i0, j) ==> j in ord;
      }
    }
  }

  lemma InitialCounts(steps: seq<Step>, deps: map<string, seq<string>>, indeg: map<string, nat>)
    requires Resolves(steps, |steps|, deps)
    requires indeg.Keys == deps.Keys && forall x :: x in deps ==> indeg[x] == |deps[x]|
    ensures CountsPending(steps, {}, indeg)
    ensures forall i :: 0 <= i < |steps| ==> steps[i].name in indeg
  {
    forall i | 0 <= i < |steps|
      ensures steps[i].name in indeg && indeg[steps[i].name] == Pending(DepNames(steps, i), {})
    {
      PendingAll(DepNames(steps, i));
      ResolvedDeps(steps, deps, i);
    }
    forall x | x in indeg
      ensures Named(steps, x)
    {
      assert x in FirstNames(steps, |steps|);
    }
  }

  lemma InitialState(steps: seq<Step>, indeg: map<string, nat>, ready: seq<nat>)
    requires UniqueNames(steps) && KnownReferences(steps) && CountsPending(steps, {}, indeg)
    requires Increasing(ready)
    requires forall i :: 0 <= i < |steps| ==> steps[i].name in indeg
    requires forall i: nat :: i in ready <==> i < |steps| && indeg[steps[i].name] == 0
    ensures KahnState(steps, [], ready)
  {
    assert Names(steps, []) == {};
    forall i: nat
      ensures i in ready <==> Available(steps, [], i)
    {
      if i < |steps| {
        AvailableIsPendingZero(steps, [], i);
      }
    }
  }

  method InitialReady(steps: seq<Step>, indeg: map<string, nat>) returns (ready: seq<nat>)
    requires forall i :: 0 <= i < |steps| ==> steps[i].name in indeg
    ensures Increasing(ready)
    ensures forall i: nat :: i in ready <==> i < |steps| && indeg[steps[i].name] == 0
  {
    ready := [];
    for i := 0 to |steps|
      invariant Increasing(ready)
      invariant forall k :: k in ready <==> 0 <= k < i && indeg[steps[k].name] == 0
    {
      if indeg[steps[i].name] == 0 {
        assert forall k :: 0 <= k < |ready| ==> ready[k] in ready;
        ready := ready + [i];
      }
    }
  }

  lemma DependentsOf(steps: seq<Step>, deps: map<string, seq<string>>, adj: map<string, seq<string>>, i: nat)
    requires UniqueNames(steps) && i < |steps| && Resolves(steps, |steps|, deps)
    requires AdjacencyOf(deps, deps.Keys, adj)
    ensures steps[i].name in adj && steps[i].name in deps && deps[steps[i].name] == DepNames(steps, i)
    ensures var dependents := adj[steps[i].name];
            && Distinct(dependents)
            && (forall x :: x in dependents ==> Named(steps, x))
            && forall x :: 0 <= x < |steps| ==> (steps[x].name in dependents <==> DependsOn(steps, x, i))
  {
    var dep := steps[i].name;
    ResolvedDeps(steps, deps, i);
    assert ListsDependents(deps, deps.Keys, dep, adj[dep]);
    forall x | 0 <= x < |steps|
      ensures steps[x].name in adj[dep] <==> DependsOn(steps, x, i)
    {
      ResolvedDeps(steps, deps, x);
      DepNamesMeaning(steps, x);
    }
    forall x | x in adj[dep]
      ensures Named(steps, x)
    {
      assert x in FirstNames(steps, |steps|);
    }
  }

  /** Dependents of the step being sorted still wait for it. */
  lemma BlockedBefore(steps: seq<Step>, byName: map<string, nat>, ord: seq<nat>, ready: seq<nat>,
                      indeg: map<string, nat>, dependents: seq<string>)
    requires UniqueNames(steps) && KnownReferences(steps) && IndexesNames(steps, byName)
    requires KahnState(steps, ord, ready) && ready != []
    requires CountsPending(steps, Names(steps, ord), indeg)
    requires forall x :: x in dependents ==> Named(steps, x)
    requires forall x :: 0 <= x < |steps| ==> (steps[x].name in dependents <==> DependsOn(steps, x, ready[0]))
    ensures Distinct(ready[1..])
    ensures forall x :: x in dependents ==> x in indeg && x in byName && indeg[x] > 0 && byName[x] !in ready[1..]
  {
    var i0 := ready[0];
    assert i0 in ready;
    forall x | x in dependents
      ensures x in indeg && x in byName && indeg[x] > 0 && byName[x] !in ready[1..]
    {
      var i :| 0 <= i < |steps| && steps[i].name == x;
      assert DependsOn(steps, i, i0);
      DepNamesMeaning(steps, i);
      assert !Available(steps, ord, i);
      assert i !in ready;
      assert steps[i0].name !in Names(steps, ord);
    }
  }

  ghost predicate SortState(steps: seq<Step>, ord: seq<nat>, ready: seq<nat>, indeg: map<string, nat>) {
    KahnState(steps, ord, ready) && CountsPending(steps, Names(steps, ord), indeg)
  }

  /** One round of the sort keeps its state. */
  lemma SortRound(steps: seq<Step>, byName: map<string, nat>, ord: seq<nat>, ready: seq<nat>, indeg: map<string, nat>,
                  dependents: seq<string>, indeg': map<string, nat>, ready': seq<nat>)
    requires UniqueNames(steps) && KnownReferences(steps) && IndexesNames(steps, byName)
    requires SortState(steps, ord, ready, indeg) && ready != []
    requires forall x :: 0 <= x < |steps| ==> (steps[x].name in dependents <==> DependsOn(steps, x, ready[0]))
    requires forall x :: x in dependents ==> x in indeg && x in byName && indeg[x] > 0
    requires indeg' == map x | x in indeg :: if x in dependents then indeg[x] - 1 else indeg[x]
    requires forall i :: i in ready' <==>
               i in ready[1..] || exists x :: x in dependents && byName[x] == i && indeg[x] == 1
    requires Distinct(ready')
    ensures SortState(steps, ord + [ready[0]], SortIndices(ready'), indeg')
    ensures |ord| < |steps|
  {
    var i := ready[0];
    assert i in ready;
    assert Available(steps, ord, i);
    SortOne(steps, ord, ready);
    NamesAppend(steps, ord, i);
    CountsAfter(steps, ord, i, indeg, dependents, indeg');
    ReadyAfter(steps, byName, ord, ready, indeg, dependents, ready');
    Pigeonhole(ord + [i], |steps|);
  }

  /** One round: sort the first ready step and release its dependents. */
  method SortNext(steps: seq<Step>, byName: map<string, nat>, deps: map<string, seq<string>>,
                  adj: map<string, seq<string>>, ghost ord: seq<nat>, ready: seq<nat>, indeg: map<string, nat>)
    returns (indeg': map<string, nat>, ready': seq<nat>)
    requires UniqueNames(steps) && KnownReferences(steps) && IndexesNames(steps, byName)
    requires Resolves(steps, |steps|, deps) && AdjacencyOf(deps, deps.Keys, adj)
    requires SortState(steps, ord, ready, indeg) && ready != []
    ensures SortState(steps, ord + [ready[0]], ready', indeg')
    ensures |ord| < |steps|
  {
    var i := ready[0];
    assert i in ready;
    assert Available(steps, ord, i);
    DependentsOf(steps, deps, adj, i);
    var dependents := adj[steps[i].name];
    BlockedBefore(steps, byName, ord, ready, indeg, dependents);
    var released;
    indeg', released := Release(byName, dependents, indeg, ready[1..]);
    SortRound(steps, byName, ord, ready, indeg, dependents, indeg', released);
    ready' := SortIndices(released);
  }

  lemma NextIsNew(steps: seq<Step>, deps: map<string, seq<string>>, ord: seq<nat>, ready: seq<nat>, order: seq<PlannedStep>)
    requires KahnState(steps, ord, ready) && ready != [] && Resolves(steps, |steps|, deps)
    requires Lists(steps, ord, order)
    ensures ready[0] < |steps| && steps[ready[0]].name in deps
    ensures Lists(steps, ord + [ready[0]], order + [PlannedStep(steps[ready[0]], deps[steps[ready[0]].name])])
    ensures Names(steps, ord + [ready[0]]) == Names(steps, ord) + {steps[ready[0]].name}
  {
    assert ready[0] in ready;
    assert Available(steps, ord, ready[0]);
    ResolvedDeps(steps, deps, ready[0]);
    NamesAppend(steps, ord, ready[0]);
  }

  method KahnSort(steps: seq<Step>, byName: map<string, nat>, deps: map<string, seq<string>>,
                  indeg0: map<string, nat>, adj: map<string, seq<string>>)
    returns (order: seq<PlannedStep>, done: set<string>, ghost ord: seq<nat>)
    requires UniqueNames(steps) && KnownReferences(steps) && IndexesNames(steps, byName)
    requires Resolves(steps, |steps|, deps)
    requires indeg0.Keys == deps.Keys && forall x :: x in deps ==> indeg0[x] == |deps[x]|
    requires AdjacencyOf(deps, deps.Keys, adj)
    ensures DependenciesFirst(steps, ord) && Greedy(steps, ord)
    ensures done == Names(steps, ord)
    ensures Lists(steps, ord, order)
    ensures forall i: nat :: !Available(steps, ord, i)
  {
    order, done, ord := [], {}, [];
    var indeg := indeg0;
    InitialCounts(steps, deps, indeg);
    var ready: seq<nat> := InitialReady(steps, indeg);
    InitialState(steps, indeg, ready);
    assert Names(steps, []) == {};
    while ready != []
      invariant SortState(steps, ord, ready, indeg)
      invariant done == Names(steps, ord)
      invariant Lists(steps, ord, order)
      decreases |steps| - |ord|
    {
      var i := ready[0];
      NextIsNew(steps, deps, ord, ready, order);
      order := order + [PlannedStep(steps[i], deps[steps[i].name])];
      done := done + {steps[i].name};
      indeg, ready := SortNext(steps, byName, deps, adj, ord, ready, indeg);
      ord := ord + [i];
    }
  }

  // ------------------------------------------------------------------
  // The whole planner
  // ------------------------------------------------------------------

  /** Names, in declaration order, of the steps that satisfy `keep`. */
  ghost function NamesWhere(steps: seq<Step>, keep: nat -> bool, n: nat): seq<string>
    requires n <= |steps|
  {
    if n == 0 then []
    else NamesWhere(steps, keep, n - 1) + if keep(n - 1) then [steps[n - 1].name] else []
  }

  /** A list that is stuck but incomplete leaves out exactly the steps that run
      into a cycle. */
  lemma StuckMeansCyclic(steps: seq<Step>, ord: seq<nat>)
    requires DependenciesFirst(steps, ord)
    requires forall i: nat :: !Available(steps, ord, i)
    ensures forall i: nat :: i < |steps| ==> (i in ord <==> !LeadsToCycle(steps, i))
  {
    var stuck := set i | i in Below(|steps|) && i !in ord;
    forall i | i in stuck
      ensures WaitsInside(steps, stuck, i)
    {
      assert !Available(steps, ord, i);
      var j: nat :| DependsOn(steps, i, j) && j !in ord;
      assert j in stuck;
    }
    forall i: nat | i < |steps|
      ensures i in ord <==> !LeadsToCycle(steps, i)
    {
      if i in ord {
        SortedStepsAvoidCycles(steps, ord, i);
      } else {
        assert i in stuck;
        TrappedWalkCloses(steps, stuck, [i]);
      }
    }
  }

  lemma CompleteIffAcyclic(steps: seq<Step>, ord: seq<nat>)
    requires DependenciesFirst(steps, ord)
    requires forall i: nat :: !Available(steps, ord, i)
    ensures |ord| == |steps| <==> Acyclic(steps)
  {
    StuckMeansCyclic(steps, ord);
    AcyclicMeansNoLasso(steps);
    Pigeonhole(ord, |steps|);
    if Acyclic(steps) {
      assert forall i: nat :: i < |steps| ==> i in ord;
      SubsetSize(Below(|steps|), set x | x in ord);
      ElemsSize(ord);
    } else {
      var i: nat :| LeadsToCycle(steps, i);
      assert i < |steps|;
    }
  }

  /** The steps left over, in declaration order. */
  method ListRemaining(steps: seq<Step>, done: set<string>, ghost ord: seq<nat>) returns (remaining: seq<string>)
    requires UniqueNames(steps) && DependenciesFirst(steps, ord) && (forall i: nat :: !Available(steps, ord, i))
    requires done == Names(steps, ord)
    ensures remaining == NamesWhere(steps, (i: nat) => LeadsToCycle(steps, i), |steps|)
  {
    StuckMeansCyclic(steps, ord);
    remaining := [];
    for i := 0 to |steps|
      invariant remaining == NamesWhere(steps, (i: nat) => LeadsToCycle(steps, i), i)
    {
      NameIsDone(steps, ord, i);
      if steps[i].name !in done {
        remaining := remaining + [steps[i].name];
      }
    }
  }

  /** A refusal names the first repeated or unknown name, or lists exactly the steps
      that run into a cycle. */
  ghost predicate FaultIsReal(steps: seq<Step>, r: PlanResult) {
    match r
    case Planned(_) => true
    case DuplicateName(index) => FirstDuplicate(steps, index)
    case UnknownDependency(index, dependency) =>
      UniqueNames(steps) && exists k: nat :: FirstUnknown(steps, index, k) && steps[index].dependsOn[k] == dependency
    case DependencyCycle(remaining) =>
      && UniqueNames(steps) && KnownReferences(steps)
      && remaining == NamesWhere(steps, (i: nat) => LeadsToCycle(steps, i), |steps|)
  }

  method MakePlan(protocol: Protocol) returns (r: PlanResult)
    ensures r.Planned? <==> UniqueNames(protocol.steps) && KnownReferences(protocol.steps) && Acyclic(protocol.steps)
    ensures r.Planned? ==>
              exists ord :: LeastTopological(protocol.steps, ord) && PlanFollows(protocol.steps, r.plan, ord)
    ensures FaultIsReal(protocol.steps, r)
  {
    var steps := protocol.steps;
    var byName, duplicate := IndexNames(steps);
    if duplicate.Some? {
      return DuplicateName(duplicate.value);
    }
    var deps, roles := ResolveDeps(steps);
    var unknown := FindUnknown(steps, byName);
    if unknown.Some? {
      var (i, k) := unknown.value;
      return UnknownDependency(i, steps[i].dependsOn[k]);
    }
    ResolvedIsClosed(steps, deps);
    var indeg, adj := BuildGraph(deps);
    var order, done, ord := KahnSort(steps, byName, deps, indeg, adj);
    CompleteIffAcyclic(steps, ord);
    if |order| != |steps| {
      var remaining := ListRemaining(steps, done, ord);
      return DependencyCycle(remaining);
    }
    GreedyIsLeast(steps, ord);
    r := Planned(Plan(roles, order));
    assert PlanFollows(steps, r.plan, ord);
  }

  lemma NameIsDone(steps: seq<Step>, ord: seq<nat>, i: nat)
    requires UniqueNames(steps) && i < |steps| && forall k :: 0 <= k < |ord| ==> ord[k] < |steps|
    ensures steps[i].name in Names(steps, ord) <==> i in ord
  {
  }

  lemma ResolvedIsClosed(steps: seq<Step>, deps: map<string, seq<string>>)
    requires UniqueNames(steps) && KnownReferences(steps) && Resolves(steps, |steps|, deps)
    ensures forall x :: x in deps ==> Distinct(deps[x]) && forall d :: d in deps[x] ==> d in deps
  {
    forall x | x in deps
      ensures Distinct(deps[x]) && forall d :: d in deps[x] ==> d in deps
    {
      assert x in FirstNames(steps, |steps|);
      var i :| 0 <= i < |steps| && steps[i].name == x;
      ResolvedDeps(steps, deps, i);
      DepNamesMeaning(steps, i);
      forall d | d in deps[x]
        ensures d in deps
      {
        assert Named(steps, d);
        assert d in FirstNames(steps, |steps|);
      }
    }
  }

  /** Within a role, a topological order keeps declaration order. */
  lemma {:induction false} RolesKeepDeclarationOrder(steps: seq<Step>, ord: seq<nat>, a: nat, b: nat)
    requires Topological(steps, ord) && a < |ord| && b < |ord|
    requires steps[ord[a]].role == steps[ord[b]].role && ord[a] < ord[b]
    ensures a < b
    decreases ord[b]
  {
    var i := ord[b];
    var prev := LastOfRole(steps, steps[i].role, i);
    LastOfRoleIsLast(steps, steps[i].role, i);
    assert PreviousInRole(steps, prev.value, i);
    assert DependsOn(steps, i, prev.value);
    var p :| 0 <= p < b && ord[..b][p] == prev.value;
    if ord[a] != prev.value {
      RolesKeepDeclarationOrder(steps, ord, a, p);
    }
  }

  /** There is only one least order, so the plan does not depend on the order in
      which the hash maps are visited. */
  lemma PlanIsUnique(steps: seq<Step>, plan: Plan, ord: seq<nat>, plan': Plan, ord': seq<nat>)
    requires LeastTopological(steps, ord) && PlanFollows(steps, plan, ord)
    requires LeastTopological(steps, ord') && PlanFollows(steps, plan', ord')
    ensures plan == plan' && ord == ord'
  {
    assert LexLeq(ord, ord') && LexLeq(ord', ord);
    if ord != ord' {
      var k :| 0 <= k < |ord| && k < |ord'| && ord[..k] == ord'[..k] && ord[k] < ord'[k];
      var l :| 0 <= l < |ord'| && l < |ord| && ord'[..l] == ord[..l] && ord'[l] < ord[l];
      assert false;
    }
    forall k | 0 <= k < |ord|
      ensures plan.order[k] == plan'.order[k]
    {
    }
    assert plan.order == plan'.order;
  }
}
