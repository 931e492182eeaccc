/** The exploration loop of `model_check::check` and what its report means. */
module Explorer {
  import opened Protocols
  import opened Collections
  import opened ModelChecker

  datatype Report = Report(
    complete: bool,
    statesExplored: nat,
    transitionsExplored: nat,
    violations: seq<Violation>,
    unreachableSteps: seq<string>)

  // ------------------------------------------------------------------
  // Recording violations
  // ------------------------------------------------------------------

  ghost predicate Has(violations: seq<Violation>, x: ViolationKey) {
    exists i :: 0 <= i < |violations| && violations[i].key == x
  }

  /** One justified entry per recorded key. */
  ghost predicate LogOk(m: Model, violations: seq<Violation>, keys: set<ViolationKey>)
    requires WellFormed(m)
  {
    && (forall i :: 0 <= i < |violations| ==> Justified(m, violations[i]) && violations[i].key in keys)
    && (forall x :: x in keys ==> Has(violations, x))
    && forall a, b :: 0 <= a < b < |violations| ==> violations[a].key != violations[b].key
  }

  /** Whatever a schedule of fewer than `n` steps can show is recorded. */
  ghost predicate Covered(m: Model, n: nat, keys: set<ViolationKey>)
    requires WellFormed(m)
  {
    forall moves, x :: |moves| < n && Witnesses(m, moves, x) ==> x in keys
  }

  ghost predicate Shows(m: Model, s: State, key: ViolationKey)
    requires WellFormed(m)
  {
    Fits(m, s.key) && Replays(m, s.path, s.key) && Exhibits(m, s.key, key)
  }

  lemma NewEntryJustified(m: Model, s: State, key: ViolationKey, keys: set<ViolationKey>, v: Violation)
    requires WellFormed(m) && Shows(m, s, key) && Covered(m, |s.path|, keys) && key !in keys
    requires v == Violation(key, StepNames(m, s.path), RoleMap(m, s.key))
    ensures Justified(m, v)
  {
    var moves :| After(m, moves) == Some(s.key) && StepsOf(moves) == s.path;
    assert |moves| == |StepsOf(moves)|;
    assert ShortestWitness(m, moves, key);
  }

  lemma ExtendLog(m: Model, violations: seq<Violation>, keys: set<ViolationKey>, v: Violation)
    requires WellFormed(m) && LogOk(m, violations, keys) && Justified(m, v) && v.key !in keys
    ensures LogOk(m, violations + [v], keys + {v.key})
  {
    hide Justified, WellFormed;
    var violations' := violations + [v];
    forall x | x in keys + {v.key}
      ensures Has(violations', x)
    {
      if x == v.key {
        assert violations'[|violations|].key == x;
      } else {
        assert Has(violations, x);
        var i :| 0 <= i < |violations| && violations[i].key == x;
        assert violations'[i].key == x;
      }
    }
  }

  lemma CoveredGrows(m: Model, n: nat, keys: set<ViolationKey>, keys': set<ViolationKey>)
    requires WellFormed(m) && Covered(m, n, keys) && keys <= keys'
    ensures Covered(m, n, keys')
  {
  }

  method NamePath(m: Model, path: seq<nat>) returns (names: seq<string>)
    ensures names == StepNames(m, path)
  {
    names := [];
    for i := 0 to |path|
      invariant |names| == i
      invariant forall j :: 0 <= j < i ==> names[j] == StepNames(m, path)[j]
    {
      names := names + [if path[i] < |m.steps| then m.steps[path[i]].name else ""];
    }
  }

  method AddViolation(m: Model, violations: seq<Violation>, keys: set<ViolationKey>, key: ViolationKey, s: State)
    returns (violations': seq<Violation>, keys': set<ViolationKey>)
    requires WellFormed(m) && LogOk(m, violations, keys)
    requires Shows(m, s, key) && Covered(m, |s.path|, keys)
    ensures LogOk(m, violations', keys') && keys' == keys + {key} && Covered(m, |s.path|, keys')
  {
    if key in keys {
      violations', keys' := violations, keys;
      assert keys' == keys + {key};
    } else {
      var names := NamePath(m, s.path);
      var states := PairRoles(m, s.key);
      var v := Violation(key, names, states);
      NewEntryJustified(m, s, key, keys, v);
      ExtendLog(m, violations, keys, v);
      violations', keys' := violations + [v], keys + {key};
      CoveredGrows(m, |s.path|, keys, keys');
    }
  }

  method PairRoles(m: Model, k: Key) returns (states: map<string, string>)
    requires WellFormed(m) && Fits(m, k)
    ensures states == RoleMap(m, k)
  {
    states := map[];
    for i := 0 to |m.roles|
      invariant states.Keys == set r | r in m.roles[..i]
      invariant forall j :: 0 <= j < i ==> states[m.roles[j]] == k.roleStates[j]
    {
      assert m.roles[..i + 1] == m.roles[..i] + [m.roles[i]];
      states := states[m.roles[i] := k.roleStates[i]];
    }
    assert m.roles[..|m.roles|] == m.roles;
    forall role | role in m.roles
      ensures states[role] == k.roleStates[Position(m.roles, role)]
    {
      assert states[m.roles[Position(m.roles, role)]] == k.roleStates[Position(m.roles, role)];
    }
  }

  ghost predicate FailsAmong(m: Model, k: Key, n: nat, x: ViolationKey)
    requires WellFormed(m) && Fits(m, k) && n <= |m.invariants|
  {
    exists j :: 0 <= j < n && Fails(m, k, m.invariants[j]) && x == Broken(m.invariants[j].name)
  }

  method CheckSafety(m: Model, s: State, violations0: seq<Violation>, keys0: set<ViolationKey>)
    returns (violations: seq<Violation>, keys: set<ViolationKey>)
    requires WellFormed(m) && LogOk(m, violations0, keys0) && Covered(m, |s.path|, keys0)
    requires Fits(m, s.key) && Replays(m, s.path, s.key)
    ensures LogOk(m, violations, keys) && Covered(m, |s.path|, keys)
    ensures forall x :: x in keys <==> x in keys0 || FailsAmong(m, s.key, |m.invariants|, x)
  {
    hide LogOk, Covered;
    violations, keys := violations0, keys0;
    for i := 0 to |m.invariants|
      invariant LogOk(m, violations, keys) && Covered(m, |s.path|, keys)
      invariant forall x :: x in keys <==> x in keys0 || FailsAmong(m, s.key, i, x)
    {
      var v := m.invariants[i];
      if Fails(m, s.key, v) {
        assert BreaksInvariant(m, s.key, v.name);
        violations, keys := AddViolation(m, violations, keys, Broken(v.name), s);
      }
    }
  }

  ghost predicate MissesAmong(ev: seq<Invariant>, reached: seq<bool>, n: nat, x: ViolationKey)
    requires n <= |ev| == |reached|
  {
    exists j :: 0 <= j < n && !reached[j] && x == NeverReached(ev[j].name)
  }

  method CheckLiveness(m: Model, s: State, violations0: seq<Violation>, keys0: set<ViolationKey>)
    returns (violations: seq<Violation>, keys: set<ViolationKey>)
    requires WellFormed(m) && LogOk(m, violations0, keys0) && Covered(m, |s.path|, keys0)
    requires Fits(m, s.key) && Replays(m, s.path, s.key) && Finished(s.key)
    ensures LogOk(m, violations, keys)
    ensures forall x :: x in keys <==>
              x in keys0 || MissesAmong(Eventualities(m.invariants), s.key.reached, |Eventualities(m.invariants)|, x)
  {
    hide LogOk, Covered;
    violations, keys := violations0, keys0;
    var ev := Eventualities(m.invariants);
    for i := 0 to |ev|
      invariant LogOk(m, violations, keys) && Covered(m, |s.path|, keys)
      invariant forall x :: x in keys <==> x in keys0 || MissesAmong(ev, s.key.reached, i, x)
    {
      if !s.key.reached[i] {
        assert MissesState(m, s.key, ev[i].name);
        violations, keys := AddViolation(m, violations, keys, NeverReached(ev[i].name), s);
      }
    }
  }

  lemma SafetyKeys(m: Model, k: Key, x: ViolationKey)
    requires WellFormed(m) && Fits(m, k)
    ensures FailsAmong(m, k, |m.invariants|, x) <==> x.Broken? && Exhibits(m, k, x)
  {
    if x.Broken? && BreaksInvariant(m, k, x.name) {
      var v :| v in m.invariants && v.name == x.name && Fails(m, k, v);
      var j :| 0 <= j < |m.invariants| && m.invariants[j] == v;
      assert Fails(m, k, m.invariants[j]);
    }
  }

  /** Check one newly visited state and list its moves. */
  method Visit(m: Model, s: State, violations0: seq<Violation>, keys0: set<ViolationKey>)
    returns (violations: seq<Violation>, keys: set<ViolationKey>, enabled: seq<Move>)
    requires WellFormed(m) && LogOk(m, violations0, keys0) && Covered(m, |s.path|, keys0)
    requires Fits(m, s.key) && Replays(m, s.path, s.key)
    ensures LogOk(m, violations, keys)
    ensures forall x :: x in keys <==> x in keys0 || Exhibits(m, s.key, x)
    ensures enabled == EnabledMoves(m, s.key, |m.steps|)
  {
    hide LogOk, Covered;
    violations, keys := CheckSafety(m, s, violations0, keys0);
    enabled := CollectEnabled(m, s.key);
    StuckIffNoMoves(m, s.key);
    ghost var safety := keys;
    if enabled == [] {
      if Finished(s.key) {
        violations, keys := CheckLiveness(m, s, violations, keys);
      } else {
        violations, keys := AddViolation(m, violations, keys, Deadlock, s);
      }
    }
    forall x
      ensures x in keys <==> x in keys0 || Exhibits(m, s.key, x)
    {
      SafetyKeys(m, s.key, x);
    }
  }

  lemma StuckIffNoMoves(m: Model, k: Key)
    requires WellFormed(m) && Fits(m, k)
    ensures Stuck(m, k) <==> EnabledMoves(m, k, |m.steps|) == []
    ensures Finished(k) ==> Stuck(m, k)
  {
    var moves := EnabledMoves(m, k, |m.steps|);
    if moves != [] {
      EnabledMoveListed(m, k, |m.steps|, moves[0]);
    }
    forall mv | Enabled(m, k, mv)
      ensures mv in moves
    {
      EnabledMoveListed(m, k, |m.steps|, mv);
    }
  }

  // ------------------------------------------------------------------
  // The main loop
  // ------------------------------------------------------------------

  ghost function Successors(m: Model, s: State, enabled: seq<Move>): (r: seq<State>)
    requires WellFormed(m) && Fits(m, s.key)
    requires forall i :: 0 <= i < |enabled| ==> enabled[i].step < |m.steps|
  {
    seq(|enabled|, i requires 0 <= i < |enabled| => State(Apply(m, s.key, enabled[i]), s.path + [enabled[i].step]))
  }

  method PushSuccessors(m: Model, s: State, enabled: seq<Move>, queue0: seq<State>, hit0: set<nat>)
    returns (queue: seq<State>, hit: set<nat>)
    requires WellFormed(m) && Fits(m, s.key)
    requires forall i :: 0 <= i < |enabled| ==> enabled[i].step < |m.steps|
    ensures queue == queue0 + Successors(m, s, enabled)
    ensures hit == hit0 + set i | 0 <= i < |enabled| :: enabled[i].step
  {
    queue, hit := queue0, hit0;
    for i := 0 to |enabled|
      invariant queue == queue0 + Successors(m, s, enabled)[..i]
      invariant hit == hit0 + set j | 0 <= j < i :: enabled[j].step
    {
      hit := hit + {enabled[i].step};
      var next := Successor(m, s, enabled[i]);
      queue := queue + [next];
    }
  }

  /** Expanding the head of the queue keeps the search invariant. */
  lemma ExpandHead(m: Model, depth: map<Key, nat>, queue: seq<State>, enabled: seq<Move>)
    requires WellFormed(m) && Search(m, depth, queue) && queue != [] && queue[0].key !in depth
    requires Fits(m, queue[0].key) && enabled == EnabledMoves(m, queue[0].key, |m.steps|)
    requires forall i :: 0 <= i < |enabled| ==> enabled[i].step < |m.steps|
    ensures Search(m, depth[queue[0].key := |queue[0].path|], queue[1..] + Successors(m, queue[0], enabled))
  {
    hide Closed, DepthsOk, QueueOk;
    ExpandQueue(m, queue, enabled);
    ExpandDepths(m, depth, queue, enabled);
    ExpandClosed(m, depth, queue, enabled);
  }

  lemma ExpandQueue(m: Model, queue: seq<State>, enabled: seq<Move>)
    requires WellFormed(m) && QueueOk(m, queue) && queue != []
    requires Fits(m, queue[0].key) && enabled == EnabledMoves(m, queue[0].key, |m.steps|)
    requires forall i :: 0 <= i < |enabled| ==> enabled[i].step < |m.steps|
    ensures QueueOk(m, queue[1..] + Successors(m, queue[0], enabled))
  {
    var s := queue[0];
    var next := Successors(m, s, enabled);
    forall i | 0 <= i < |next|
      ensures Replays(m, next[i].path, next[i].key)
    {
      EnabledMoveListed(m, s.key, |m.steps|, enabled[i]);
      var moves :| After(m, moves) == Some(s.key) && StepsOf(moves) == s.path;
      AfterStep(m, moves, enabled[i]);
    }
  }

  lemma ExpandDepths(m: Model, depth: map<Key, nat>, queue: seq<State>, enabled: seq<Move>)
    requires WellFormed(m) && QueueOk(m, queue) && DepthsOk(m, depth, queue) && queue != []
    requires Fits(m, queue[0].key) && enabled == EnabledMoves(m, queue[0].key, |m.steps|)
    requires forall i :: 0 <= i < |enabled| ==> enabled[i].step < |m.steps|
    ensures DepthsOk(m, depth[queue[0].key := |queue[0].path|], queue[1..] + Successors(m, queue[0], enabled))
  {
    hide Replays, WellFormed, Fits, EnabledMoves, Apply;
    var next := Successors(m, queue[0], enabled);
    var queue' := queue[1..] + next;
    assert forall i :: 0 <= i < |next| ==> |next[i].path| == |queue[0].path| + 1;
    hide Successors;
    assert Replays(m, queue[0].path, queue[0].key);
    if queue' != [] {
      assert |queue[0].path| <= |queue'[0].path| by {
        if |queue| > 1 {
          assert queue'[0] == queue[1];
        } else {
          assert queue'[0] == next[0];
        }
      }
    }
  }

  lemma ExpandClosed(m: Model, depth: map<Key, nat>, queue: seq<State>, enabled: seq<Move>)
    requires WellFormed(m) && DepthsOk(m, depth, queue) && Closed(m, depth, queue) && queue != []
    requires queue[0].key !in depth
    requires Fits(m, queue[0].key) && enabled == EnabledMoves(m, queue[0].key, |m.steps|)
    requires forall i :: 0 <= i < |enabled| ==> enabled[i].step < |m.steps|
    ensures Closed(m, depth[queue[0].key := |queue[0].path|], queue[1..] + Successors(m, queue[0], enabled))
  {
    var s := queue[0];
    var depth' := depth[s.key := |s.path|];
    var next := Successors(m, s, enabled);
    var queue' := queue[1..] + next;
    KnownLater(m, depth, queue, next, Initial(m), 0);
    forall k, mv | k in depth' && Fits(m, k) && Enabled(m, k, mv)
      ensures Known(depth', queue', Apply(m, k, mv), depth'[k] + 1)
    {
      if k == s.key {
        EnabledMoveListed(m, k, |m.steps|, mv);
        var i :| 0 <= i < |enabled| && enabled[i] == mv;
        assert queue'[|queue| - 1 + i] == next[i];
      } else {
        KnownLater(m, depth, queue, next, Apply(m, k, mv), depth[k] + 1);
      }
    }
  }

  lemma KnownLater(m: Model, depth: map<Key, nat>, queue: seq<State>, next: seq<State>, k: Key, d: nat)
    requires WellFormed(m) && DepthsOk(m, depth, queue) && queue != [] && queue[0].key !in depth
    requires Known(depth, queue, k, d)
    ensures Known(depth[queue[0].key := |queue[0].path|], queue[1..] + next, k, d)
  {
    hide DepthsOk;
    KnownAfterPop(m, depth, queue, k, d);
    var depth' := depth[queue[0].key := |queue[0].path|];
    if !(k in depth' && depth'[k] <= d) {
      var q :| 0 <= q < |queue[1..]| && queue[1..][q].key == k && |queue[1..][q].path| <= d;
      assert (queue[1..] + next)[q] == queue[1..][q];
    }
  }

  /** Every violation shown by an expanded state is recorded. */
  ghost predicate AllRecorded(m: Model, depth: map<Key, nat>, keys: set<ViolationKey>)
    requires WellFormed(m)
  {
    forall k, x {:trigger Exhibits(m, k, x)} :: k in depth && Fits(m, k) && Exhibits(m, k, x) ==> x in keys
  }

  lemma HeadIsCovered(m: Model, depth: map<Key, nat>, queue: seq<State>, keys: set<ViolationKey>)
    requires WellFormed(m) && Search(m, depth, queue) && queue != [] && AllRecorded(m, depth, keys)
    ensures Covered(m, |queue[0].path|, keys)
  {
    forall moves, x | |moves| < |queue[0].path| && Witnesses(m, moves, x)
      ensures x in keys
    {
      CloserIsExpanded(m, depth, queue, moves);
      assert Exhibits(m, After(m, moves).value, x);
    }
  }

  /** `hit` holds exactly the steps some expanded state can fire. */
  ghost predicate HitsOk(m: Model, depth: map<Key, nat>, hit: set<nat>)
    requires WellFormed(m)
  {
    && (forall i :: i in hit ==> exists k, e :: k in depth && Fits(m, k) && Enabled(m, k, Move(i, e)))
    && forall k, mv {:trigger Enabled(m, k, mv)} :: k in depth && Fits(m, k) && Enabled(m, k, mv) ==> mv.step in hit
  }

  lemma ExpandHits(m: Model, depth: map<Key, nat>, s: State, enabled: seq<Move>, hit: set<nat>)
    requires WellFormed(m) && HitsOk(m, depth, hit) && Fits(m, s.key)
    requires enabled == EnabledMoves(m, s.key, |m.steps|)
    ensures HitsOk(m, depth[s.key := |s.path|], hit + set i | 0 <= i < |enabled| :: enabled[i].step)
  {
    var depth' := depth[s.key := |s.path|];
    var hit' := hit + set i | 0 <= i < |enabled| :: enabled[i].step;
    forall i | i in hit'
      ensures exists k, e :: k in depth' && Fits(m, k) && Enabled(m, k, Move(i, e))
    {
      if i in hit {
        var k, e :| k in depth && Fits(m, k) && Enabled(m, k, Move(i, e));
        assert k in depth' && Fits(m, k) && Enabled(m, k, Move(i, e));
      } else {
        var a :| 0 <= a < |enabled| && enabled[a].step == i;
        EnabledMoveListed(m, s.key, |m.steps|, enabled[a]);
        assert enabled[a] == Move(i, enabled[a].execute);
        assert s.key in depth' && Fits(m, s.key) && Enabled(m, s.key, Move(i, enabled[a].execute));
      }
    }
    forall k, mv | k in depth' && Fits(m, k) && Enabled(m, k, mv)
      ensures mv.step in hit'
    {
      if k == s.key {
        EnabledMoveListed(m, k, |m.steps|, mv);
        var a :| 0 <= a < |enabled| && enabled[a] == mv;
        assert enabled[a].step in hit';
      }
    }
  }

  /** `edges` holds exactly the transitions leaving expanded states. */
  ghost predicate EdgesOk(m: Model, depth: map<Key, nat>, edges: set<(Key, Move)>)
    requires WellFormed(m)
  {
    forall k, mv :: (k, mv) in edges <==> k in depth && Fits(m, k) && Enabled(m, k, mv)
  }

  ghost function EdgesFrom(k: Key, enabled: seq<Move>): (r: set<(Key, Move)>)
    ensures forall e :: e in r <==> e.0 == k && e.1 in enabled
  {
    set mv | mv in enabled :: (k, mv)
  }

  lemma {:induction false} EdgesFromSize(k: Key, enabled: seq<Move>)
    requires Distinct(enabled)
    ensures |EdgesFrom(k, enabled)| == |enabled|
  {
    if enabled != [] {
      var init, last := enabled[..|enabled| - 1], enabled[|enabled| - 1];
      EdgesFromSize(k, init);
      assert enabled == init + [last];
      assert EdgesFrom(k, enabled) == EdgesFrom(k, init) + {(k, last)};
    }
  }

  lemma ExpandEdges(m: Model, depth: map<Key, nat>, s: State, enabled: seq<Move>, edges: set<(Key, Move)>)
    requires WellFormed(m) && EdgesOk(m, depth, edges) && Fits(m, s.key) && s.key !in depth
    requires enabled == EnabledMoves(m, s.key, |m.steps|)
    ensures EdgesOk(m, depth[s.key := |s.path|], edges + EdgesFrom(s.key, enabled))
    ensures |edges + EdgesFrom(s.key, enabled)| == |edges| + |enabled|
  {
    var added := EdgesFrom(s.key, enabled);
    EnabledMovesDistinct(m, s.key, |m.steps|);
    EdgesFromSize(s.key, enabled);
    assert edges !! added;
    forall mv
      ensures (s.key, mv) in added <==> Enabled(m, s.key, mv)
    {
      EnabledMoveListed(m, s.key, |m.steps|, mv);
    }
  }

  // ------------------------------------------------------------------
  // What a report says
  // ------------------------------------------------------------------

  ghost predicate IsStateSpace(m: Model, all: set<Key>)
    requires WellFormed(m)
  {
    forall k :: k in all <==> Reachable(m, k)
  }

  /** Some reachable state can fire step `i`. */
  ghost predicate CanFire(m: Model, i: nat)
    requires WellFormed(m)
  {
    exists k, e :: Reachable(m, k) && Fits(m, k) && Enabled(m, k, Move(i, e))
  }

  /** Names, in plan order, of the steps outside `hit`. */
  function NamesOutside(steps: seq<Step>, hit: set<nat>, n: nat): (r: seq<string>)
    requires n <= |steps|
  {
    if n == 0 then []
    else NamesOutside(steps, hit, n - 1) + if n - 1 in hit then [] else [steps[n - 1].name]
  }

  ghost predicate BoundOk(m: Model, maxStates: nat, r: Report)
    requires WellFormed(m)
  {
    && (r.complete <==> exists all :: IsStateSpace(m, all) && |all| <= maxStates)
    && (r.complete ==> exists all :: IsStateSpace(m, all) && |all| == r.statesExplored)
    && (!r.complete ==> r.statesExplored == maxStates)
  }

  /** Entries are justified and unique; a complete report misses nothing. */
  ghost predicate ViolationsOk(m: Model, r: Report)
    requires WellFormed(m)
  {
    && (forall i :: 0 <= i < |r.violations| ==> Justified(m, r.violations[i]))
    && (forall a, b :: 0 <= a < b < |r.violations| ==> r.violations[a].key != r.violations[b].key)
    && (r.complete ==> forall moves, x :: Witnesses(m, moves, x) ==> Has(r.violations, x))
  }

  /** The steps left out of `unreachableSteps` can fire; a complete report lists
      all those that cannot. */
  ghost predicate UnreachableOk(m: Model, r: Report)
    requires WellFormed(m)
  {
    exists hit: set<nat> ::
      && r.unreachableSteps == NamesOutside(m.steps, hit, |m.steps|)
      && (forall i :: i in hit ==> CanFire(m, i))
      && (r.complete ==> forall i: nat :: CanFire(m, i) ==> i in hit)
  }

  ghost predicate TransitionsOk(m: Model, r: Report)
    requires WellFormed(m)
  {
    exists edges: set<(Key, Move)> ::
      && |edges| == r.transitionsExplored
      && (forall k, mv :: (k, mv) in edges ==> Reachable(m, k) && Fits(m, k) && Enabled(m, k, mv))
      && (r.complete ==> forall k, mv :: Reachable(m, k) && Fits(m, k) && Enabled(m, k, mv) ==> (k, mv) in edges)
  }

  ghost predicate ReportOk(m: Model, maxStates: nat, r: Report)
    requires WellFormed(m)
  {
    BoundOk(m, maxStates, r) && ViolationsOk(m, r) && UnreachableOk(m, r) && TransitionsOk(m, r)
  }

  // ------------------------------------------------------------------
  // From the loop's final state to the report
  // ------------------------------------------------------------------

  ghost predicate LoopState(m: Model, depth: map<Key, nat>, queue: seq<State>, violations: seq<Violation>,
                            keys: set<ViolationKey>, hit: set<nat>, edges: set<(Key, Move)>)
    requires WellFormed(m)
  {
    && Search(m, depth, queue)
    && LogOk(m, violations, keys)
    && AllRecorded(m, depth, keys)
    && HitsOk(m, depth, hit)
    && EdgesOk(m, depth, edges)
  }

  lemma ExpandedIsReachable(m: Model, depth: map<Key, nat>, queue: seq<State>, k: Key)
    requires WellFormed(m) && DepthsOk(m, depth, queue) && k in depth
    ensures Reachable(m, k) && Fits(m, k)
  {
    assert depth[k] >= 0;
    var path :| Replays(m, path, k) && |path| == depth[k];
  }

  lemma ReachableIsExpanded(m: Model, depth: map<Key, nat>, k: Key)
    requires WellFormed(m) && Search(m, depth, []) && Reachable(m, k)
    ensures k in depth
  {
    var moves :| After(m, moves) == Some(k);
    CloserIsExpanded(m, depth, [], moves);
  }

  lemma ExhaustedSpace(m: Model, depth: map<Key, nat>)
    requires WellFormed(m) && Search(m, depth, [])
    ensures IsStateSpace(m, depth.Keys)
  {
    forall k
      ensures k in depth.Keys <==> Reachable(m, k)
    {
      if k in depth {
        ExpandedIsReachable(m, depth, [], k);
      } else if Reachable(m, k) {
        ReachableIsExpanded(m, depth, k);
      }
    }
  }

  lemma BoundExceeded(m: Model, maxStates: nat, seen: set<Key>)
    requires WellFormed(m) && |seen| > maxStates && forall k :: k in seen ==> Reachable(m, k)
    ensures !exists all :: IsStateSpace(m, all) && |all| <= maxStates
  {
    forall all | IsStateSpace(m, all)
      ensures |all| > maxStates
    {
      SubsetSize(seen, all);
    }
  }

  lemma ViolationsReport(m: Model, depth: map<Key, nat>, queue: seq<State>, violations: seq<Violation>,
                         keys: set<ViolationKey>, r: Report)
    requires WellFormed(m) && Search(m, depth, queue) && LogOk(m, violations, keys) && AllRecorded(m, depth, keys)
    requires r.violations == violations && (r.complete ==> queue == [])
    ensures ViolationsOk(m, r)
  {
    if r.complete {
      forall moves, x | Witnesses(m, moves, x)
        ensures Has(violations, x)
      {
        CloserIsExpanded(m, depth, queue, moves);
        assert Exhibits(m, After(m, moves).value, x);
      }
    }
  }

  lemma UnreachableReport(m: Model, depth: map<Key, nat>, queue: seq<State>, hit: set<nat>, r: Report)
    requires WellFormed(m) && Search(m, depth, queue) && HitsOk(m, depth, hit)
    requires r.unreachableSteps == NamesOutside(m.steps, hit, |m.steps|) && (r.complete ==> queue == [])
    ensures UnreachableOk(m, r)
  {
    hide Search, Reachable, Closed, QueueOk;
    assert DepthsOk(m, depth, queue) by { SearchParts(m, depth, queue); }
    forall i | i in hit
      ensures CanFire(m, i)
    {
      var k, e :| k in depth && Fits(m, k) && Enabled(m, k, Move(i, e));
      ExpandedIsReachable(m, depth, queue, k);
    }
    if r.complete {
      forall i: nat | CanFire(m, i)
        ensures i in hit
      {
        var k, e :| Reachable(m, k) && Fits(m, k) && Enabled(m, k, Move(i, e));
        ReachableIsExpanded(m, depth, k);
      }
    }
  }

  lemma SearchParts(m: Model, depth: map<Key, nat>, queue: seq<State>)
    requires WellFormed(m) && Search(m, depth, queue)
    ensures QueueOk(m, queue) && DepthsOk(m, depth, queue) && Closed(m, depth, queue)
  {
  }

  lemma TransitionsReport(m: Model, depth: map<Key, nat>, queue: seq<State>, edges: set<(Key, Move)>, r: Report)
    requires WellFormed(m) && Search(m, depth, queue) && EdgesOk(m, depth, edges)
    requires r.transitionsExplored == |edges| && (r.complete ==> queue == [])
    ensures TransitionsOk(m, r)
  {
    hide Search, Reachable, Closed, QueueOk, Enabled;
    assert DepthsOk(m, depth, queue) by { SearchParts(m, depth, queue); }
    forall k, mv | (k, mv) in edges
      ensures Reachable(m, k) && Fits(m, k) && Enabled(m, k, mv)
    {
      ExpandedIsReachable(m, depth, queue, k);
    }
    if r.complete {
      forall k, mv | Reachable(m, k) && Fits(m, k) && Enabled(m, k, mv)
        ensures (k, mv) in edges
      {
        ReachableIsExpanded(m, depth, k);
      }
    }
  }

  lemma HeadFacts(m: Model, depth: map<Key, nat>, queue: seq<State>, keys: set<ViolationKey>)
    requires WellFormed(m) && Search(m, depth, queue) && queue != [] && AllRecorded(m, depth, keys)
    ensures Fits(m, queue[0].key) && Replays(m, queue[0].path, queue[0].key) && Reachable(m, queue[0].key)
    ensures Covered(m, |queue[0].path|, keys)
  {
    assert Replays(m, queue[0].path, queue[0].key);
    HeadIsCovered(m, depth, queue, keys);
  }

  lemma RecordedAfter(m: Model, depth: map<Key, nat>, s: State, keys: set<ViolationKey>, keys': set<ViolationKey>)
    requires WellFormed(m) && AllRecorded(m, depth, keys) && Fits(m, s.key)
    requires forall x :: x in keys' <==> x in keys || Exhibits(m, s.key, x)
    ensures AllRecorded(m, depth[s.key := |s.path|], keys')
  {
  }

  lemma MovesInRange(m: Model, k: Key, enabled: seq<Move>)
    requires WellFormed(m) && Fits(m, k) && enabled == EnabledMoves(m, k, |m.steps|)
    ensures forall i :: 0 <= i < |enabled| ==> enabled[i].step < |m.steps|
  {
    forall i | 0 <= i < |enabled|
      ensures enabled[i].step < |m.steps|
    {
      EnabledMoveListed(m, k, |m.steps|, enabled[i]);
    }
  }

  method ListUnreached(steps: seq<Step>, hit: set<nat>) returns (names: seq<string>)
    ensures names == NamesOutside(steps, hit, |steps|)
  {
    names := [];
    for i := 0 to |steps|
      invariant names == NamesOutside(steps, hit, i)
    {
      if i !in hit {
        names := names + [steps[i].name];
      }
    }
  }

  /** Visit an unvisited head, check it, and queue its successors. */
  method ExpandState(m: Model, s: State, queue0: seq<State>, violations0: seq<Violation>, keys0: set<ViolationKey>,
                     hit0: set<nat>, ghost depth: map<Key, nat>, ghost edges: set<(Key, Move)>)
    returns (queue: seq<State>, violations: seq<Violation>, keys: set<ViolationKey>, hit: set<nat>, fired: nat,
             ghost edges': set<(Key, Move)>)
    requires WellFormed(m) && LoopState(m, depth, [s] + queue0, violations0, keys0, hit0, edges)
    requires s.key !in depth
    ensures LoopState(m, depth[s.key := |s.path|], queue, violations, keys, hit, edges')
    ensures |edges'| == |edges| + fired
  {
    hide Search, LogOk, AllRecorded, HitsOk, EdgesOk, Covered, Replays, Exhibits, Enabled, Successors;
    assert ([s] + queue0)[0] == s && ([s] + queue0)[1..] == queue0;
    HeadFacts(m, depth, [s] + queue0, keys0);
    var enabled;
    violations, keys, enabled := Visit(m, s, violations0, keys0);
    MovesInRange(m, s.key, enabled);
    RecordedAfter(m, depth, s, keys0, keys);
    ExpandHead(m, depth, [s] + queue0, enabled);
    ExpandHits(m, depth, s, enabled, hit0);
    ExpandEdges(m, depth, s, enabled, edges);
    queue, hit := PushSuccessors(m, s, enabled, queue0, hit0);
    fired := |enabled|;
    edges' := edges + EdgesFrom(s.key, enabled);
  }

  method Explore(m: Model, maxStates: nat) returns (r: Report)
    requires WellFormed(m) && maxStates >= 1
    ensures ReportOk(m, maxStates, r)
  {
    hide Search, LogOk, AllRecorded, HitsOk, EdgesOk, Replays, Reachable, BoundOk, ViolationsOk, UnreachableOk, TransitionsOk;
    var queue := [State(Initial(m), [])];
    var visited: set<Key> := {};
    var hit: set<nat> := {};
    var violations, keys := [], {};
    var transitions, complete := 0, true;
    ghost var depth: map<Key, nat>, edges: set<(Key, Move)> := map[], {};
    EmptyLoopState(m);
    while queue != []
      invariant LoopState(m, depth, queue, violations, keys, hit, edges)
      invariant visited == depth.Keys && |visited| <= maxStates
      invariant transitions == |edges|
      invariant complete
      decreases maxStates - |visited|, |queue|
    {
      var s := queue[0];
      if s.key in visited {
        DropVisited(m, depth, queue);
        queue := queue[1..];
        continue;
      }
      assert [s] + queue[1..] == queue;
      visited := visited + {s.key};
      if |visited| > maxStates {
        HeadFacts(m, depth, queue, keys);
        complete := false;
        break;
      }
      var fired;
      queue, violations, keys, hit, fired, edges :=
        ExpandState(m, s, queue[1..], violations, keys, hit, depth, edges);
      depth := depth[s.key := |s.path|];
      transitions := transitions + fired;
    }
    var unreachable := ListUnreached(m.steps, hit);
    r := Report(complete, if |visited| < maxStates then |visited| else maxStates, transitions, violations, unreachable);
    BoundReport(m, maxStates, depth, queue, visited, r);
    ViolationsReport(m, depth, queue, violations, keys, r);
    UnreachableReport(m, depth, queue, hit, r);
    TransitionsReport(m, depth, queue, edges, r);
  }

  lemma EmptyLoopState(m: Model)
    requires WellFormed(m)
    ensures LoopState(m, map[], [State(Initial(m), [])], [], {}, {}, {})
  {
    InitialSearch(m);
  }

  lemma BoundReport(m: Model, maxStates: nat, depth: map<Key, nat>, queue: seq<State>, visited: set<Key>, r: Report)
    requires WellFormed(m) && Search(m, depth, queue)
    requires r.complete ==> queue == [] && visited == depth.Keys && |visited| <= maxStates
    requires !r.complete ==> |visited| == maxStates + 1 && exists k :: visited == depth.Keys + {k} && Reachable(m, k)
    requires r.statesExplored == if |visited| < maxStates then |visited| else maxStates
    ensures BoundOk(m, maxStates, r)
  {
    if r.complete {
      ExhaustedSpace(m, depth);
    } else {
      forall k | k in visited
        ensures Reachable(m, k)
      {
        if k in depth {
          ExpandedIsReachable(m, depth, queue, k);
        }
      }
      BoundExceeded(m, maxStates, visited);
    }
  }
}
