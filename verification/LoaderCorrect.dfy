/** What loading a bundle means in terms of its import graph. */
module LoaderCorrect {
  import opened Protocols
  import opened Syntax
  import opened Collections
  import opened Paths
  import opened Imports
  import opened Loader

  // ------------------------------------------------------------------
  // No import survives, and no file is opened twice under one key
  // ------------------------------------------------------------------

  ghost predicate ImportFree(b: Block)
    decreases b
  {
    b.name != "import" && forall i :: 0 <= i < |b.blocks| ==> ImportFree(b.blocks[i])
  }

  ghost predicate AllImportFree(blocks: seq<Block>) {
    forall i :: 0 <= i < |blocks| ==> ImportFree(blocks[i])
  }

  /** `later` only adds keys to `earlier`, each of them once. */
  ghost predicate Extends(earlier: seq<Key>, later: seq<Key>) {
    earlier <= later && (Distinct(earlier) ==> Distinct(later))
  }

  ghost predicate GoodResult(visits: seq<Key>, r: Loaded) {
    r.Done? ==> AllImportFree(r.blocks) && Extends(visits, r.visits)
  }

  lemma {:induction false} RetainImportFree(blocks: seq<Block>, only: seq<string>)
    requires AllImportFree(blocks)
    ensures AllImportFree(Retain(blocks, only))
  {
    hide ImportFree;
    if blocks != [] {
      RetainImportFree(blocks[1..], only);
    }
  }

  lemma PlacedImportFree(blocks: seq<Block>, request: Request)
    requires AllImportFree(blocks)
    ensures AllImportFree(Placed(blocks, request))
  {
    if request.only.Some? {
      RetainImportFree(blocks, request.only.value);
    }
  }

  lemma ExtendsOnce(visits: seq<Key>, key: Key)
    requires key !in visits
    ensures Extends(visits, visits + [key])
  {
  }

  lemma ExtendsTwice(a: seq<Key>, b: seq<Key>, c: seq<Key>)
    requires Extends(a, b) && Extends(b, c)
    ensures Extends(a, c)
  {
  }

  lemma {:induction false} LoadResult(bundle: Bundle, path: string, instance: string, stack: seq<string>, visits: seq<Key>)
    requires StackOk(bundle, stack)
    ensures GoodResult(visits, LoadFile(bundle, path, instance, stack, visits))
    decreases |bundle| - |stack|, 0
  {
    StackFits(bundle, stack);
    var key := (path, instance);
    if path !in stack && key !in visits && path in bundle && bundle[path].Some? {
      hide AllImportFree, Extends, ExpandAll;
      StackFits(bundle, stack + [path]);
      ExpandAllResult(bundle, bundle[path].value, path, stack + [path], visits + [key]);
      ExtendsOnce(visits, key);
      var r := LoadFile(bundle, path, instance, stack, visits);
      if r.Done? {
        ExtendsTwice(visits, visits + [key], r.visits);
      }
    }
  }

  lemma {:induction false} ExpandAllResult(bundle: Bundle, blocks: seq<Block>, source: string, stack: seq<string>, visits: seq<Key>)
    requires StackOk(bundle, stack)
    ensures GoodResult(visits, ExpandAll(bundle, blocks, source, stack, visits))
    decreases |bundle| - |stack|, 1, blocks, 0
  {
    StackFits(bundle, stack);
    hide ImportFree, Extends, ExpandOne;
    if blocks == [] {
      ExtendsItself(visits);
    } else {
      ExpandOneResult(bundle, blocks[0], source, stack, visits);
      var first := ExpandOne(bundle, blocks[0], source, stack, visits);
      if first.Done? {
        ExpandAllResult(bundle, blocks[1..], source, stack, first.visits);
        var rest := ExpandAll(bundle, blocks[1..], source, stack, first.visits);
        if rest.Done? {
          ExtendsTwice(visits, first.visits, rest.visits);
        }
      }
    }
  }

  lemma ExtendsItself(visits: seq<Key>)
    ensures Extends(visits, visits)
  {
  }

  lemma {:induction false} ExpandOneResult(bundle: Bundle, b: Block, source: string, stack: seq<string>, visits: seq<Key>)
    requires StackOk(bundle, stack)
    ensures GoodResult(visits, ExpandOne(bundle, b, source, stack, visits))
    decreases |bundle| - |stack|, 1, b, 1
  {
    StackFits(bundle, stack);
    hide Extends, LoadFile, ExpandAll, Placed, Check, Instance;
    if b.name == "import" {
      var checked := Check(b, source);
      if checked.Accepted? {
        var request := checked.request;
        var instance := Instance(request.alias, request.only);
        LoadResult(bundle, request.target, instance, stack, visits);
        var r := LoadFile(bundle, request.target, instance, stack, visits);
        if r.Done? {
          PlacedImportFree(r.blocks, request);
        }
      }
    } else {
      ExpandAllResult(bundle, b.blocks, source, stack, visits);
    }
  }

  // ------------------------------------------------------------------
  // Every error is real
  // ------------------------------------------------------------------

  lemma {:induction false} LoadErrors(bundle: Bundle, root: string, path: string, instance: string, stack: seq<string>, visits: seq<Key>)
    requires StackOk(bundle, stack) && WalkFromTo(bundle, stack + [path], root, path)
    ensures var r := LoadFile(bundle, path, instance, stack, visits); r.Failed? ==> Real(bundle, root, r.error)
    decreases |bundle| - |stack|, 0
  {
    StackFits(bundle, stack);
    assert Reaches(bundle, root, path);
    if path in stack {
      StackCycle(bundle, root, path, stack);
    } else if (path, instance) !in visits && path in bundle && bundle[path].Some? {
      StackFits(bundle, stack + [path]);
      hide Real, Reaches, WalkFromTo, ExpandAll, ImportsOf;
      ExpandAllErrors(bundle, root, bundle[path].value, path, stack + [path], visits + [(path, instance)]);
    }
  }

  /** The part of the stack from the repeated file on closes a walk. */
  lemma StackCycle(bundle: Bundle, root: string, path: string, stack: seq<string>)
    requires path in stack && WalkFromTo(bundle, stack + [path], root, path)
    ensures var chain := stack[IndexOf(stack, path)..] + [path];
            ClosedWalk(bundle, chain) && Reaches(bundle, root, chain[0])
  {
    hide Edge;
    var i := IndexOf(stack, path);
    var w := stack + [path];
    var chain := stack[i..] + [path];
    forall j | 0 < j < |chain|
      ensures Edge(bundle, chain[j - 1], chain[j])
    {
      assert chain[j - 1] == w[i + j - 1] && chain[j] == w[i + j];
    }
    assert WalkFromTo(bundle, w[..i + 1], root, path);
  }

  /** The imports of `blocks` are imports of the file on top of the stack. */
  ghost predicate PartOf(bundle: Bundle, blocks: seq<Block>, source: string) {
    Readable(bundle, source) && forall b :: b in ImportsOf(blocks) ==> b in ImportsOf(bundle[source].value)
  }

  lemma {:induction false} ExpandAllErrors(bundle: Bundle, root: string, blocks: seq<Block>, source: string, stack: seq<string>, visits: seq<Key>)
    requires StackOk(bundle, stack) && WalkFromTo(bundle, stack, root, source) && PartOf(bundle, blocks, source)
    ensures var r := ExpandAll(bundle, blocks, source, stack, visits); r.Failed? ==> Real(bundle, root, r.error)
    decreases |bundle| - |stack|, 1, blocks, 0
  {
    StackFits(bundle, stack);
    hide Real, WalkFromTo, ExpandOne, ImportsIn;
    if blocks != [] {
      ExpandOneErrors(bundle, root, blocks[0], source, stack, visits);
      var first := ExpandOne(bundle, blocks[0], source, stack, visits);
      if first.Done? {
        ExpandAllErrors(bundle, root, blocks[1..], source, stack, first.visits);
      }
    }
  }

  lemma {:induction false} ExpandOneErrors(bundle: Bundle, root: string, b: Block, source: string, stack: seq<string>, visits: seq<Key>)
    requires StackOk(bundle, stack) && WalkFromTo(bundle, stack, root, source) && Readable(bundle, source)
    requires forall x :: x in ImportsIn(b) ==> x in ImportsOf(bundle[source].value)
    ensures var r := ExpandOne(bundle, b, source, stack, visits); r.Failed? ==> Real(bundle, root, r.error)
    decreases |bundle| - |stack|, 1, b, 1
  {
    StackFits(bundle, stack);
    hide LoadFile, ExpandAll, Placed, Instance;
    if b.name == "import" {
      assert b in ImportsOf(bundle[source].value);
      var checked := Check(b, source);
      assert Reaches(bundle, root, source);
      if checked.Accepted? {
        var request := checked.request;
        StepOn(bundle, root, source, request.target, stack, b);
        LoadErrors(bundle, root, request.target, Instance(request.alias, request.only), stack, visits);
        assert request.alias == Some("") ==> HasDefect(source, b, EmptyAlias);
      } else {
        assert HasDefect(source, b, checked.defect);
      }
    } else {
      ExpandAllErrors(bundle, root, b.blocks, source, stack, visits);
    }
  }

  /** An accepted import extends the walk along the stack. */
  lemma StepOn(bundle: Bundle, root: string, source: string, target: string, stack: seq<string>, b: Block)
    requires WalkFromTo(bundle, stack, root, source) && Readable(bundle, source)
    requires b in ImportsOf(bundle[source].value) && Check(b, source).Accepted? && Check(b, source).request.target == target
    ensures WalkFromTo(bundle, stack + [target], root, target)
  {
    assert LeadsTo(source, b, target);
    assert Edge(bundle, source, target);
    hide Edge;
    var w := stack + [target];
    forall i | 0 < i < |w|
      ensures Edge(bundle, w[i - 1], w[i])
    {
      if i < |stack| {
        assert w[i - 1] == stack[i - 1] && w[i] == stack[i];
      }
    }
  }

  // ------------------------------------------------------------------
  // Success: a topological order of all files reached
  // ------------------------------------------------------------------

  /** Every listed file is sound and imports only files listed before it. */
  ghost predicate Topological(bundle: Bundle, order: seq<string>) {
    forall i :: 0 <= i < |order| ==> Settled(bundle, order[i], order[..i])
  }

  ghost predicate Settled(bundle: Bundle, p: string, before: seq<string>) {
    SoundFile(bundle, p) && forall q :: Edge(bundle, p, q) ==> q in before
  }

  /** A file opened before is finished or still being expanded. */
  ghost predicate Accounted(visits: seq<Key>, order: seq<string>, stack: seq<string>) {
    forall k :: k in visits ==> k.0 in order || k.0 in stack
  }

  lemma TopologicalGrows(bundle: Bundle, order: seq<string>, p: string)
    requires Topological(bundle, order) && Settled(bundle, p, order)
    ensures Topological(bundle, order + [p])
  {
    hide Settled;
    var more := order + [p];
    forall i | 0 <= i < |more|
      ensures Settled(bundle, more[i], more[..i])
    {
      if i < |order| {
        assert more[..i] == order[..i];
      } else {
        assert more[..i] == order;
      }
    }
  }

  /** The imports of `blocks`, read in file `source`, are sound and lead into `order`. */
  ghost predicate AllResolved(blocks: seq<Block>, source: string, order: seq<string>) {
    forall b :: b in ImportsOf(blocks) ==> ResolvedImport(b, source, order)
  }

  ghost predicate ResolvedImport(b: Block, source: string, order: seq<string>) {
    SoundImport(source, b) && Check(b, source).request.target in order
  }

  lemma {:induction false} LoadOrder(bundle: Bundle, path: string, instance: string, stack: seq<string>, visits: seq<Key>,
                                     order: seq<string>)
    returns (after: seq<string>)
    requires StackOk(bundle, stack) && LoadFile(bundle, path, instance, stack, visits).Done?
    requires Topological(bundle, order) && Accounted(visits, order, stack)
    ensures order <= after && Topological(bundle, after) && path in after
    ensures Accounted(LoadFile(bundle, path, instance, stack, visits).visits, after, stack)
    decreases |bundle| - |stack|, 0
  {
    StackFits(bundle, stack);
    if (path, instance) in visits {
      after := order;
    } else {
      hide Topological, ExpandAll, AllResolved, SoundFile;
      StackFits(bundle, stack + [path]);
      var blocks := bundle[path].value;
      var inner := ExpandAllOrder(bundle, blocks, path, stack + [path], visits + [(path, instance)], order);
      FileSettled(bundle, path, inner);
      TopologicalGrows(bundle, inner, path);
      after := inner + [path];
    }
  }

  /** A file whose imports all resolved into `order` can be listed next. */
  lemma FileSettled(bundle: Bundle, p: string, order: seq<string>)
    requires Readable(bundle, p) && AllResolved(bundle[p].value, p, order)
    ensures Settled(bundle, p, order)
  {
    hide ImportsOf, Alias;
    forall q | Edge(bundle, p, q)
      ensures q in order
    {
      var b :| b in ImportsOf(bundle[p].value) && LeadsTo(p, b, q);
      assert ResolvedImport(b, p, order);
    }
    forall b | b in ImportsOf(bundle[p].value)
      ensures SoundImport(p, b)
    {
      assert ResolvedImport(b, p, order);
    }
  }

  lemma {:induction false} ExpandAllOrder(bundle: Bundle, blocks: seq<Block>, source: string, stack: seq<string>,
                                          visits: seq<Key>, order: seq<string>)
    returns (after: seq<string>)
    requires StackOk(bundle, stack) && ExpandAll(bundle, blocks, source, stack, visits).Done?
    requires Topological(bundle, order) && Accounted(visits, order, stack)
    ensures order <= after && Topological(bundle, after) && AllResolved(blocks, source, after)
    ensures Accounted(ExpandAll(bundle, blocks, source, stack, visits).visits, after, stack)
    decreases |bundle| - |stack|, 1, blocks, 0
  {
    StackFits(bundle, stack);
    if blocks == [] {
      after := order;
    } else {
      hide Topological, ExpandOne, ImportsIn, ResolvedImport, Accounted;
      var first := ExpandOne(bundle, blocks[0], source, stack, visits);
      var middle := ExpandOneOrder(bundle, blocks[0], source, stack, visits, order);
      after := ExpandAllOrder(bundle, blocks[1..], source, stack, first.visits, middle);
      forall b | b in ImportsOf(blocks)
        ensures ResolvedImport(b, source, after)
      {
        if b in ImportsIn(blocks[0]) {
          StillResolved(b, source, middle, after);
        }
      }
    }
  }

  lemma StillResolved(b: Block, source: string, order: seq<string>, later: seq<string>)
    requires ResolvedImport(b, source, order) && order <= later
    ensures ResolvedImport(b, source, later)
  {
  }

  lemma {:induction false} ExpandOneOrder(bundle: Bundle, b: Block, source: string, stack: seq<string>,
                                          visits: seq<Key>, order: seq<string>)
    returns (after: seq<string>)
    requires StackOk(bundle, stack) && ExpandOne(bundle, b, source, stack, visits).Done?
    requires Topological(bundle, order) && Accounted(visits, order, stack)
    ensures order <= after && Topological(bundle, after)
    ensures forall x :: x in ImportsIn(b) ==> ResolvedImport(x, source, after)
    ensures Accounted(ExpandOne(bundle, b, source, stack, visits).visits, after, stack)
    decreases |bundle| - |stack|, 1, b, 1
  {
    StackFits(bundle, stack);
    hide Topological, LoadFile, ExpandAll, Placed, Instance, Accounted;
    if b.name == "import" {
      var request := Check(b, source).request;
      after := LoadOrder(bundle, request.target, Instance(request.alias, request.only), stack, visits, order);
      assert ResolvedImport(b, source, after);
    } else {
      after := ExpandAllOrder(bundle, b.blocks, source, stack, visits, order);
    }
  }

  // ------------------------------------------------------------------
  // Main results
  // ------------------------------------------------------------------

  ghost function LoadRoot(bundle: Bundle, root: string): Loaded {
    LoadFile(bundle, root, "root", [], [])
  }

  /** Walks from a listed file stay in the list and move towards its front. */
  lemma {:induction false} WalkDescends(bundle: Bundle, order: seq<string>, w: seq<string>, i: nat)
    requires Topological(bundle, order) && Walk(bundle, w) && i < |w| && w[0] in order
    ensures w[i] in order && IndexOf(order, w[i]) + i <= IndexOf(order, w[0])
  {
    if i > 0 {
      WalkDescends(bundle, order, w, i - 1);
      var k := IndexOf(order, w[i - 1]);
      assert Settled(bundle, order[k], order[..k]);
      assert Edge(bundle, w[i - 1], w[i]);
      FirstIndex(order, w[i], k);
    }
  }

  lemma FirstIndex(s: seq<string>, x: string, k: nat)
    requires k <= |s| && x in s[..k]
    ensures x in s && IndexOf(s, x) < k
  {
    var j :| 0 <= j < k && s[..k][j] == x;
    assert s[j] == x;
  }

  /** Loading succeeds exactly when everything reachable from the root is sound
      and no import cycle can be reached. */
  lemma LoadsIffSound(bundle: Bundle, root: string)
    ensures LoadRoot(bundle, root).Done? <==> SoundBundle(bundle, root)
  {
    var w := [] + [root];
    assert WalkFromTo(bundle, w, root, root);
    LoadErrors(bundle, root, root, "root", [], []);
    var r := LoadRoot(bundle, root);
    if r.Done? {
      var order := LoadOrder(bundle, root, "root", [], [], []);
      OrderedIsSound(bundle, root, order);
    } else {
      RealErrorsAreUnsound(bundle, root, r.error);
    }
  }

  lemma OrderedIsSound(bundle: Bundle, root: string, order: seq<string>)
    requires Topological(bundle, order) && root in order
    ensures SoundBundle(bundle, root)
  {
    hide Walk, SoundFile, Edge;
    forall p | Reaches(bundle, root, p)
      ensures p in order
    {
      var w :| WalkFromTo(bundle, w, root, p);
      WalkIsNonempty(bundle, w);
      WalkDescends(bundle, order, w, |w| - 1);
    }
    forall p | Reaches(bundle, root, p)
      ensures SoundFile(bundle, p)
    {
      assert Settled(bundle, order[IndexOf(order, p)], order[..IndexOf(order, p)]);
    }
    forall w | ClosedWalk(bundle, w)
      ensures !Reaches(bundle, root, w[0])
    {
      if Reaches(bundle, root, w[0]) {
        WalkDescends(bundle, order, w, |w| - 1);
        assert false;
      }
    }
  }

  lemma WalkIsNonempty(bundle: Bundle, w: seq<string>)
    requires Walk(bundle, w)
    ensures |w| > 0
  {
  }

  /** A cycle error names a closed chain of imports that the root leads to; every
      other error names a reachable file with that very fault. */
  lemma ErrorsAreReal(bundle: Bundle, root: string)
    requires LoadRoot(bundle, root).Failed?
    ensures Real(bundle, root, LoadRoot(bundle, root).error)
  {
    var w := [] + [root];
    assert WalkFromTo(bundle, w, root, root);
    LoadErrors(bundle, root, root, "root", [], []);
  }

  /** In what is loaded no import block is left at any depth, and each file was
      expanded at most once under each instance key. */
  lemma LoadedIsExpanded(bundle: Bundle, root: string)
    requires LoadRoot(bundle, root).Done?
    ensures AllImportFree(LoadRoot(bundle, root).blocks) && Distinct(LoadRoot(bundle, root).visits)
  {
    LoadResult(bundle, root, "root", [], []);
  }

  /** Blocks without imports expand to themselves and open nothing. */
  lemma {:induction false} ImportFreeIsFixed(bundle: Bundle, blocks: seq<Block>, source: string, stack: seq<string>, visits: seq<Key>)
    requires StackOk(bundle, stack) && AllImportFree(blocks)
    ensures ExpandAll(bundle, blocks, source, stack, visits) == Done(blocks, visits)
    decreases blocks, 0
  {
    if blocks != [] {
      OneIsFixed(bundle, blocks[0], source, stack, visits);
      hide ImportFree, ExpandOne;
      ImportFreeIsFixed(bundle, blocks[1..], source, stack, visits);
      assert blocks == [blocks[0]] + blocks[1..];
    }
  }

  lemma {:induction false} OneIsFixed(bundle: Bundle, b: Block, source: string, stack: seq<string>, visits: seq<Key>)
    requires StackOk(bundle, stack) && ImportFree(b)
    ensures ExpandOne(bundle, b, source, stack, visits) == Done([b], visits)
    decreases b, 1
  {
    ImportFreeIsFixed(bundle, b.blocks, source, stack, visits);
  }

  /** Loading what was loaded, as a bundle of one file, gives it back. */
  lemma LoadingIsIdempotent(bundle: Bundle, root: string)
    requires LoadRoot(bundle, root).Done?
    ensures var blocks := LoadRoot(bundle, root).blocks;
            LoadRoot(map[root := Some(blocks)], root) == Done(blocks, [(root, "root")])
  {
    var blocks := LoadRoot(bundle, root).blocks;
    LoadedIsExpanded(bundle, root);
    var single: Bundle := map[root := Some(blocks)];
    assert [] + [root] == [root];
    assert StackOk(single, [root]);
    ImportFreeIsFixed(single, blocks, root, [root], [] + [(root, "root")]);
  }

  // ------------------------------------------------------------------
  // Bundles as they are handed in
  // ------------------------------------------------------------------

  /** Sources under paths in any spelling. */
  type Sources = map<string, Option<seq<Block>>>

  /** Each file is one of the sources whose path leads there. */
  ghost predicate Normalizes(sources: Sources, bundle: Bundle) {
    && (forall p :: p in sources ==> Target("", p).Path? && Target("", p).path in bundle)
    && (forall q :: q in bundle ==> exists p :: p in sources && Target("", p) == Path(q) && bundle[q] == sources[p])
  }

  /** With one spelling per file there is only one such bundle. */
  lemma NormalizedOnce(sources: Sources, a: Bundle, b: Bundle)
    requires Normalizes(sources, a) && Normalizes(sources, b)
    requires forall p, q :: p in sources && q in sources && p != q ==> Target("", p) != Target("", q)
    ensures a == b
  {
    hide Target;
    forall q | q in a || q in b
      ensures q in a && q in b && a[q] == b[q]
    {
      if q in a {
        var p :| p in sources && Target("", p) == Path(q) && a[q] == sources[p];
        assert Target("", p).path in b;
      }
      if q in b {
        var p :| p in sources && Target("", p) == Path(q) && b[q] == sources[p];
        assert Target("", p).path in a;
      }
    }
  }

  datatype Normalized = Bundled(bundle: Bundle) | BadSource(path: string, error: PathError)

  /** The sources are visited in an arbitrary order. */
  method NormalizeSources(sources: Sources) returns (r: Normalized)
    ensures r.BadSource? ==> r.path in sources && Target("", r.path) == Bad(r.error)
    ensures r.Bundled? ==> Normalizes(sources, r.bundle)
  {
    hide Target;
    var left, bundle := sources.Keys, map[];
    while left != {}
      invariant left <= sources.Keys
      invariant forall p :: p in sources && p !in left ==> Target("", p).Path? && Target("", p).path in bundle
      invariant forall q :: q in bundle ==> exists p :: p in sources && Target("", p) == Path(q) && bundle[q] == sources[p]
      decreases |left|
    {
      var p :| p in left;
      var target := Normalize("", p);
      match target {
        case Bad(error) => return BadSource(p, error);
        case Path(path) => bundle := bundle[path := sources[p]];
      }
      left := left - {p};
    }
    r := Bundled(bundle);
  }

  datatype Final = Finished(outcome: Outcome) | BadPath(path: string, error: PathError)

  /** `load_blocks_from_sources` */
  method LoadSources(sources: Sources, root: string) returns (r: Final, ghost bundle: Bundle)
    ensures r.BadPath? <==> Target("", root).Bad? || exists p :: p in sources && Target("", p).Bad?
    ensures r.BadPath? ==> (r.path == root || r.path in sources) && Target("", r.path) == Bad(r.error)
    ensures r.Finished? ==>
              var path := Target("", root).path;
              && Normalizes(sources, bundle)
              && (r.outcome.Ok? <==> SoundBundle(bundle, path))
              && (r.outcome.Ok? ==> AllImportFree(r.outcome.blocks) && LoadRoot(bundle, path).Done?
                                    && r.outcome.blocks == LoadRoot(bundle, path).blocks)
              && (r.outcome.Err? ==> Real(bundle, path, r.outcome.error))
  {
    hide SoundBundle, Real, AllImportFree, Target;
    var normalized := NormalizeSources(sources);
    bundle := map[];
    if normalized.BadSource? {
      r := BadPath(normalized.path, normalized.error);
      return;
    }
    bundle := normalized.bundle;
    var target := Normalize("", root);
    match target
    case Bad(error) => r := BadPath(root, error);
    case Path(path) =>
      var loader := new ImportLoader(normalized.bundle);
      var outcome := loader.Load(path, "root");
      LoadsIffSound(bundle, path);
      if outcome.Ok? {
        LoadedIsExpanded(bundle, path);
      } else {
        ErrorsAreReal(bundle, path);
      }
      r := Finished(outcome);
  }
}
