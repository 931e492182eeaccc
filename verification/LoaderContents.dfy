/** Nothing is lost or doubled by loading: what the opened files hold is what comes
    out, up to the blocks `only` drops and the modules aliases add. */
module LoaderContents {
  import opened Protocols
  import opened Syntax
  import opened Collections
  import opened Paths
  import opened Imports
  import opened Loader
  import opened LoaderCorrect

  /** A block without its children. */
  datatype Node = Node(name: string, labels: seq<string>, attributes: map<string, Value>)

  function NodeOf(b: Block): Node {
    Node(b.name, b.labels, b.attributes)
  }

  /** How often the node occurs at any depth. */
  ghost function Count(blocks: seq<Block>, x: Node): nat
    decreases blocks, 0
  {
    if blocks == [] then 0 else CountIn(blocks[0], x) + Count(blocks[1..], x)
  }

  ghost function CountIn(b: Block, x: Node): nat
    decreases b, 1
  {
    One(b, x) + Count(b.blocks, x)
  }

  function One(b: Block, x: Node): nat {
    if NodeOf(b) == x then 1 else 0
  }

  /** Likewise in a file, where import blocks do not count. */
  ghost function OwnCount(blocks: seq<Block>, x: Node): nat
    decreases blocks, 0
  {
    if blocks == [] then 0 else OwnCountIn(blocks[0], x) + OwnCount(blocks[1..], x)
  }

  ghost function OwnCountIn(b: Block, x: Node): nat
    decreases b, 1
  {
    if b.name == "import" then 0 else One(b, x) + OwnCount(b.blocks, x)
  }

  /** Over all files opened, once per time a file was opened. */
  ghost function OpenedCount(bundle: Bundle, visits: seq<Key>, x: Node): nat
    decreases |visits|
  {
    if visits == [] then 0
    else
      var p := visits[|visits| - 1].0;
      OpenedCount(bundle, visits[..|visits| - 1], x) + if Readable(bundle, p) then OwnCount(bundle[p].value, x) else 0
  }

  // ------------------------------------------------------------------
  // Counting
  // ------------------------------------------------------------------

  lemma {:induction false} CountConcat(a: seq<Block>, b: seq<Block>, x: Node)
    ensures Count(a + b, x) == Count(a, x) + Count(b, x)
    decreases |a|
  {
    hide CountIn;
    if a == [] {
      assert a + b == b;
    } else {
      CountConcat(a[1..], b, x);
      assert (a + b)[1..] == a[1..] + b;
    }
  }

  lemma CountSingle(b: Block, x: Node)
    ensures Count([b], x) == One(b, x) + Count(b.blocks, x)
  {
    assert [b][1..] == [];
    assert Count([b], x) == CountIn(b, x) + Count([], x);
  }

  // ------------------------------------------------------------------
  // The balance
  // ------------------------------------------------------------------

  /** A block dropped by, and a module put around the blocks of, an import of a file. */
  datatype Loss = Loss(block: Block, file: string, cause: Block)
  datatype Wrap = Wrap(alias: string, file: string, cause: Block)

  /** What was dropped and what was added on the way to a result. */
  datatype Account = Account(lost: seq<Loss>, wraps: seq<Wrap>)

  function Both(a: Account, b: Account): Account {
    Account(a.lost + b.lost, a.wraps + b.wraps)
  }

  ghost function LostCount(lost: seq<Loss>, x: Node): nat {
    if lost == [] then 0 else CountIn(lost[0].block, x) + LostCount(lost[1..], x)
  }

  ghost function WrapCount(wraps: seq<Wrap>, x: Node): nat {
    if wraps == [] then 0
    else (if x == Node("module", [wraps[0].alias], map[]) then 1 else 0) + WrapCount(wraps[1..], x)
  }

  ghost predicate ImportOfOpened(bundle: Bundle, visits: seq<Key>, file: string, cause: Block) {
    && cause.name == "import"
    && Readable(bundle, file) && cause in ImportsOf(bundle[file].value)
    && exists key :: key in visits && key.0 == file
  }

  /** A protocol or case table whose first label is missing or not among the names the
      import asks for. */
  predicate NotAskedFor(block: Block, cause: Block) {
    && (block.name == "protocol" || block.name == "cases")
    && "only" in cause.attributes && cause.attributes["only"].Array?
    && (block.labels == [] || Str(block.labels[0]) !in cause.attributes["only"].items)
  }

  /** The import's alias: its `as`, if that is a string, or its second label. */
  predicate Names(alias: string, cause: Block) {
    if "as" in cause.attributes && cause.attributes["as"].Str? then alias == cause.attributes["as"].s
    else |cause.labels| > 1 && alias == cause.labels[1]
  }

  /** Every loss and every module is owed to an import of a file that was opened. */
  ghost predicate Justified(bundle: Bundle, visits: seq<Key>, acc: Account) {
    && (forall l :: l in acc.lost ==> ImportOfOpened(bundle, visits, l.file, l.cause) && NotAskedFor(l.block, l.cause))
    && (forall w :: w in acc.wraps ==> ImportOfOpened(bundle, visits, w.file, w.cause) && Names(w.alias, w.cause))
  }

  /** `own` are the blocks that were to be expanded in place. */
  ghost predicate Balanced(bundle: Bundle, own: seq<Block>, visits: seq<Key>, r: Loaded, acc: Account)
    requires r.Done?
  {
    Justified(bundle, r.visits, acc) && forall x :: BalancedAt(bundle, own, visits, r, acc, x)
  }

  ghost predicate BalancedAt(bundle: Bundle, own: seq<Block>, visits: seq<Key>, r: Loaded, acc: Account, x: Node)
    requires r.Done?
  {
    Count(r.blocks, x) + LostCount(acc.lost, x) + OpenedCount(bundle, visits, x)
    == OwnCount(own, x) + OpenedCount(bundle, r.visits, x) + WrapCount(acc.wraps, x)
  }

  lemma {:induction false} LostConcat(a: seq<Loss>, b: seq<Loss>, x: Node)
    ensures LostCount(a + b, x) == LostCount(a, x) + LostCount(b, x)
  {
    hide CountIn;
    if a == [] {
      assert a + b == b;
    } else {
      LostConcat(a[1..], b, x);
      assert (a + b)[1..] == a[1..] + b;
    }
  }

  lemma {:induction false} WrapsConcat(a: seq<Wrap>, b: seq<Wrap>, x: Node)
    ensures WrapCount(a + b, x) == WrapCount(a, x) + WrapCount(b, x)
  {
    if a == [] {
      assert a + b == b;
    } else {
      WrapsConcat(a[1..], b, x);
      assert (a + b)[1..] == a[1..] + b;
    }
  }

  lemma JustifiedLater(bundle: Bundle, visits: seq<Key>, later: seq<Key>, acc: Account)
    requires Justified(bundle, visits, acc) && visits <= later
    ensures Justified(bundle, later, acc)
  {
    assert forall key :: key in visits ==> key in later;
  }

  lemma JustifiedBoth(bundle: Bundle, visits: seq<Key>, a: Account, b: Account)
    requires Justified(bundle, visits, a) && Justified(bundle, visits, b)
    ensures Justified(bundle, visits, Both(a, b))
  {
  }

  // ------------------------------------------------------------------
  // Filtering and wrapping
  // ------------------------------------------------------------------

  function Dropped(blocks: seq<Block>, only: seq<string>, file: string, cause: Block): seq<Loss> {
    if blocks == [] then []
    else (if Retained(blocks[0], only) then [] else [Loss(blocks[0], file, cause)]) + Dropped(blocks[1..], only, file, cause)
  }

  lemma {:induction false} RetainedAndDropped(blocks: seq<Block>, only: seq<string>, file: string, cause: Block, x: Node)
    ensures Count(Retain(blocks, only), x) + LostCount(Dropped(blocks, only, file, cause), x) == Count(blocks, x)
  {
    hide CountIn, Retained;
    if blocks != [] {
      var rest := blocks[1..];
      RetainedAndDropped(rest, only, file, cause, x);
      var kept, lost := Retain(rest, only), Dropped(rest, only, file, cause);
      assert [] + kept == kept && [] + lost == lost;
      assert ([blocks[0]] + kept)[1..] == kept;
      assert ([Loss(blocks[0], file, cause)] + lost)[1..] == lost;
    }
  }

  lemma {:induction false} DroppedJustified(blocks: seq<Block>, only: seq<string>, file: string, cause: Block)
    requires "only" in cause.attributes && cause.attributes["only"].Array?
    requires forall name :: name in only <==> Str(name) in cause.attributes["only"].items
    ensures forall l :: l in Dropped(blocks, only, file, cause) ==> l.file == file && l.cause == cause && NotAskedFor(l.block, cause)
  {
    if blocks != [] {
      DroppedJustified(blocks[1..], only, file, cause);
    }
  }

  function DroppedBy(blocks: seq<Block>, request: Request, file: string, cause: Block): seq<Loss> {
    if request.only.Some? then Dropped(blocks, request.only.value, file, cause) else []
  }

  function WrapsOf(request: Request, file: string, cause: Block): seq<Wrap> {
    if request.alias.Some? then [Wrap(request.alias.value, file, cause)] else []
  }

  lemma NothingCounted(x: Node)
    ensures Count([], x) == 0
  {
  }

  lemma PlacedCount(blocks: seq<Block>, request: Request, file: string, cause: Block, x: Node)
    ensures Count(Placed(blocks, request), x) + LostCount(DroppedBy(blocks, request, file, cause), x)
         == Count(blocks, x) + WrapCount(WrapsOf(request, file, cause), x)
  {
    hide Count, Retain, Dropped;
    NothingCounted(x);
    var kept := if request.only.Some? then Retain(blocks, request.only.value) else blocks;
    if request.only.Some? {
      RetainedAndDropped(blocks, request.only.value, file, cause, x);
    }
    if request.alias.Some? {
      CountSingle(Block("module", [request.alias.value], map[], kept), x);
      assert [Wrap(request.alias.value, file, cause)][1..] == [];
    }
  }

  /** What a checked import drops and adds is what it says. */
  lemma RequestJustified(bundle: Bundle, visits: seq<Key>, blocks: seq<Block>, request: Request, file: string, cause: Block)
    requires Check(cause, file) == Accepted(request) && ImportOfOpened(bundle, visits, file, cause)
    ensures Justified(bundle, visits, Account(DroppedBy(blocks, request, file, cause), WrapsOf(request, file, cause)))
  {
    hide Target, Base, ImportsOf, Dropped;
    if request.only.Some? {
      var items := cause.attributes["only"].items;
      forall name
        ensures name in request.only.value <==> Str(name) in items
      {
        StringsMeaning(items, name);
      }
      DroppedJustified(blocks, request.only.value, file, cause);
    }
  }

  // ------------------------------------------------------------------
  // The balance of loading
  // ------------------------------------------------------------------

  ghost predicate Opened(visits: seq<Key>, file: string) {
    exists key :: key in visits && key.0 == file
  }

  lemma {:induction false} LoadBalance(bundle: Bundle, path: string, instance: string, stack: seq<string>, visits: seq<Key>)
    returns (acc: Account)
    requires StackOk(bundle, stack) && LoadFile(bundle, path, instance, stack, visits).Done?
    ensures Balanced(bundle, [], visits, LoadFile(bundle, path, instance, stack, visits), acc)
    decreases |bundle| - |stack|, 0
  {
    StackFits(bundle, stack);
    var r := LoadFile(bundle, path, instance, stack, visits);
    if (path, instance) in visits {
      acc := Account([], []);
      assert forall x :: BalancedAt(bundle, [], visits, r, acc, x);
    } else {
      StackFits(bundle, stack + [path]);
      var blocks, opening := bundle[path].value, visits + [(path, instance)];
      assert (path, instance) in opening;
      hide ExpandAll;
      acc := AllBalance(bundle, blocks, path, stack + [path], opening);
      forall x
        ensures BalancedAt(bundle, [], visits, r, acc, x)
      {
        assert BalancedAt(bundle, blocks, opening, r, acc, x);
        assert opening[..|visits|] == visits;
      }
    }
  }

  lemma {:induction false} AllBalance(bundle: Bundle, blocks: seq<Block>, source: string, stack: seq<string>, visits: seq<Key>)
    returns (acc: Account)
    requires StackOk(bundle, stack) && ExpandAll(bundle, blocks, source, stack, visits).Done?
    requires PartOf(bundle, blocks, source) && Opened(visits, source)
    ensures Balanced(bundle, blocks, visits, ExpandAll(bundle, blocks, source, stack, visits), acc)
    decreases |bundle| - |stack|, 1, blocks, 0
  {
    StackFits(bundle, stack);
    var r := ExpandAll(bundle, blocks, source, stack, visits);
    if blocks == [] {
      acc := Account([], []);
      assert forall x :: BalancedAt(bundle, blocks, visits, r, acc, x);
    } else {
      var first := ExpandOne(bundle, blocks[0], source, stack, visits);
      var rest := ExpandAll(bundle, blocks[1..], source, stack, first.visits);
      assert ImportsOf(blocks) == ImportsIn(blocks[0]) + ImportsOf(blocks[1..]);
      assert r == Done(first.blocks + rest.blocks, rest.visits);
      ExpandOneResult(bundle, blocks[0], source, stack, visits);
      ExpandAllResult(bundle, blocks[1..], source, stack, first.visits);
      hide ExpandOne, ExpandAll, ImportsIn, ImportsOf, Balanced;
      var a := OneBalance(bundle, blocks[0], source, stack, visits);
      var b := AllBalance(bundle, blocks[1..], source, stack, first.visits);
      acc := Both(a, b);
      JoinBalance(bundle, blocks, visits, first, rest, a, b);
    }
  }

  lemma JoinBalance(bundle: Bundle, blocks: seq<Block>, visits: seq<Key>, first: Loaded, rest: Loaded, a: Account, b: Account)
    requires blocks != [] && first.Done? && rest.Done? && first.visits <= rest.visits
    requires Balanced(bundle, [blocks[0]], visits, first, a) && Balanced(bundle, blocks[1..], first.visits, rest, b)
    ensures Balanced(bundle, blocks, visits, Done(first.blocks + rest.blocks, rest.visits), Both(a, b))
  {
    var acc, r := Both(a, b), Done(first.blocks + rest.blocks, rest.visits);
    hide Count, OwnCountIn, OpenedCount, LostCount, WrapCount, Justified;
    JustifiedLater(bundle, first.visits, rest.visits, a);
    JustifiedBoth(bundle, rest.visits, a, b);
    forall x
      ensures BalancedAt(bundle, blocks, visits, r, acc, x)
    {
      assert BalancedAt(bundle, [blocks[0]], visits, first, a, x);
      assert BalancedAt(bundle, blocks[1..], first.visits, rest, b, x);
      CountConcat(first.blocks, rest.blocks, x);
      LostConcat(a.lost, b.lost, x);
      WrapsConcat(a.wraps, b.wraps, x);
      OwnSingle(blocks[0], x);
    }
  }

  lemma OwnSingle(b: Block, x: Node)
    ensures OwnCount([b], x) == OwnCountIn(b, x)
  {
    assert [b][1..] == [];
    assert OwnCount([b], x) == OwnCountIn(b, x) + OwnCount([], x);
  }

  lemma {:induction false} OneBalance(bundle: Bundle, b: Block, source: string, stack: seq<string>, visits: seq<Key>)
    returns (acc: Account)
    requires StackOk(bundle, stack) && ExpandOne(bundle, b, source, stack, visits).Done?
    requires Readable(bundle, source) && Opened(visits, source)
    requires forall i :: i in ImportsIn(b) ==> i in ImportsOf(bundle[source].value)
    ensures Balanced(bundle, [b], visits, ExpandOne(bundle, b, source, stack, visits), acc)
    decreases |bundle| - |stack|, 1, b, 1
  {
    StackFits(bundle, stack);
    var r := ExpandOne(bundle, b, source, stack, visits);
    if b.name == "import" {
      var request := Check(b, source).request;
      assert b in ImportsIn(b);
      var key := Instance(request.alias, request.only);
      var loaded := LoadFile(bundle, request.target, key, stack, visits);
      assert r == Done(Placed(loaded.blocks, request), loaded.visits);
      LoadResult(bundle, request.target, key, stack, visits);
      assert forall k :: k in visits ==> k in loaded.visits;
      hide LoadFile, ExpandOne, Placed, Check, Instance, Count, OpenedCount, Justified, ImportsOf;
      var before := LoadBalance(bundle, request.target, key, stack, visits);
      acc := PlacedBalance(bundle, visits, loaded, request, source, b, before);
      assert Balanced(bundle, [], visits, r, acc);
      forall x
        ensures BalancedAt(bundle, [b], visits, r, acc, x)
      {
        assert BalancedAt(bundle, [], visits, r, acc, x);
        OwnSingle(b, x);
      }
    } else {
      var inner := ExpandAll(bundle, b.blocks, source, stack, visits);
      assert r == Done([b.(blocks := inner.blocks)], inner.visits);
      hide ExpandAll, ExpandOne, OpenedCount, Count, Justified;
      acc := AllBalance(bundle, b.blocks, source, stack, visits);
      forall x
        ensures BalancedAt(bundle, [b], visits, r, acc, x)
      {
        assert BalancedAt(bundle, b.blocks, visits, inner, acc, x);
        CountSingle(b.(blocks := inner.blocks), x);
        OwnSingle(b, x);
      }
    }
  }

  /** Filtering and wrapping move nodes between the sides of the balance. */
  lemma PlacedBalance(bundle: Bundle, visits: seq<Key>, r: Loaded, request: Request, file: string, cause: Block, before: Account)
    returns (acc: Account)
    requires r.Done? && Balanced(bundle, [], visits, r, before)
    requires Check(cause, file) == Accepted(request) && ImportOfOpened(bundle, r.visits, file, cause)
    ensures Balanced(bundle, [], visits, Done(Placed(r.blocks, request), r.visits), acc)
  {
    var here := Account(DroppedBy(r.blocks, request, file, cause), WrapsOf(request, file, cause));
    RequestJustified(bundle, r.visits, r.blocks, request, file, cause);
    JustifiedBoth(bundle, r.visits, before, here);
    hide Count, OwnCount, OpenedCount, Placed, DroppedBy, WrapsOf, LostCount, WrapCount, Justified, Check;
    acc := Both(before, here);
    var placed := Done(Placed(r.blocks, request), r.visits);
    forall x
      ensures BalancedAt(bundle, [], visits, placed, acc, x)
    {
      assert BalancedAt(bundle, [], visits, r, before, x);
      LostConcat(before.lost, here.lost, x);
      WrapsConcat(before.wraps, here.wraps, x);
      PlacedCount(r.blocks, request, file, cause, x);
    }
  }

  /** Every node of every file opened comes out exactly as often as the file was
      opened, apart from what lies in dropped blocks; what comes out beyond that are
      modules.  Every dropped block is a protocol or case table that some import of an
      opened file does not ask for, and every module is named by the alias of one. */
  lemma LoadingConserves(bundle: Bundle, root: string) returns (acc: Account)
    requires LoadRoot(bundle, root).Done?
    ensures var r := LoadRoot(bundle, root);
            forall x :: Count(r.blocks, x) + LostCount(acc.lost, x) == OpenedCount(bundle, r.visits, x) + WrapCount(acc.wraps, x)
    ensures forall l :: l in acc.lost ==>
              && ImportOfOpened(bundle, LoadRoot(bundle, root).visits, l.file, l.cause)
              && (l.block.name == "protocol" || l.block.name == "cases")
              && "only" in l.cause.attributes && l.cause.attributes["only"].Array?
              && (l.block.labels == [] || Str(l.block.labels[0]) !in l.cause.attributes["only"].items)
    ensures forall w :: w in acc.wraps ==>
              && ImportOfOpened(bundle, LoadRoot(bundle, root).visits, w.file, w.cause)
              && if "as" in w.cause.attributes && w.cause.attributes["as"].Str? then w.alias == w.cause.attributes["as"].s
                 else |w.cause.labels| > 1 && w.alias == w.cause.labels[1]
  {
    var r := LoadRoot(bundle, root);
    acc := LoadBalance(bundle, root, "root", [], []);
    forall x
      ensures Count(r.blocks, x) + LostCount(acc.lost, x) == OpenedCount(bundle, r.visits, x) + WrapCount(acc.wraps, x)
    {
      assert BalancedAt(bundle, [], [], r, acc, x);
    }
  }

  /** In particular nothing is dropped where no import says `only`, and nothing is added
      where none has an `as` or a second label. */
  lemma LoadingIsExact(bundle: Bundle, root: string) returns (acc: Account)
    requires LoadRoot(bundle, root).Done?
    ensures var r := LoadRoot(bundle, root);
            forall x :: Count(r.blocks, x) + LostCount(acc.lost, x) == OpenedCount(bundle, r.visits, x) + WrapCount(acc.wraps, x)
    ensures (forall p, b :: Readable(bundle, p) && b in ImportsOf(bundle[p].value) ==> "only" !in b.attributes) ==> acc.lost == []
    ensures (forall p, b :: Readable(bundle, p) && b in ImportsOf(bundle[p].value) ==> "as" !in b.attributes && |b.labels| <= 1) ==>
              acc.wraps == []
  {
    acc := LoadingConserves(bundle, root);
    assert acc.lost != [] ==> acc.lost[0] in acc.lost;
    assert acc.wraps != [] ==> acc.wraps[0] in acc.wraps;
  }

  // ------------------------------------------------------------------
  // One import, and the order of blocks
  // ------------------------------------------------------------------

  /** The loaded blocks themselves, or the one module around them. */
  ghost predicate StandsFor(blocks: seq<Block>, kept: seq<Block>, b: Block) {
    if "as" in b.attributes && b.attributes["as"].Str? then
      b.attributes["as"].s != "" && blocks == [Block("module", [b.attributes["as"].s], map[], kept)]
    else if |b.labels| > 1 then b.labels[1] != "" && blocks == [Block("module", [b.labels[1]], map[], kept)]
    else blocks == kept
  }

  /** An import stands for the blocks of the file it names, of which it keeps the
      protocols and case tables it asks for and all others. */
  lemma ImportMeaning(bundle: Bundle, b: Block, source: string, stack: seq<string>, visits: seq<Key>)
    returns (target: string, instance: string, kept: seq<Block>)
    requires StackOk(bundle, stack) && b.name == "import" && ExpandOne(bundle, b, source, stack, visits).Done?
    ensures b.labels != [] && Target(Base(source), b.labels[0]) == Path(target)
    ensures var r, loaded := ExpandOne(bundle, b, source, stack, visits), LoadFile(bundle, target, instance, stack, visits);
            && loaded.Done? && r.visits == loaded.visits && StandsFor(r.blocks, kept, b)
            && ("only" !in b.attributes ==> kept == loaded.blocks)
            && ("only" in b.attributes ==>
                  && b.attributes["only"].Array?
                  && forall x :: multiset(kept)[x] ==
                                 if (x.name == "protocol" || x.name == "cases")
                                    && (x.labels == [] || Str(x.labels[0]) !in b.attributes["only"].items) then 0
                                 else multiset(loaded.blocks)[x])
  {
    var request := Check(b, source).request;
    target, instance := request.target, Instance(request.alias, request.only);
    var loaded := LoadFile(bundle, target, instance, stack, visits);
    kept := if request.only.Some? then Retain(loaded.blocks, request.only.value) else loaded.blocks;
    hide LoadFile, Retain, Target, Instance;
    if "only" in b.attributes {
      var items := b.attributes["only"].items;
      forall x
        ensures multiset(kept)[x] ==
                if (x.name == "protocol" || x.name == "cases") && (x.labels == [] || Str(x.labels[0]) !in items) then 0
                else multiset(loaded.blocks)[x]
      {
        StringsMeaning(items, if x.labels == [] then "" else x.labels[0]);
        RetainExact(loaded.blocks, request.only.value, x);
      }
    }
  }

  /** Blocks are expanded in their order, each in the place of the original. */
  lemma {:induction false} ExpandInOrder(bundle: Bundle, a: seq<Block>, b: seq<Block>, source: string, stack: seq<string>, visits: seq<Key>)
    requires StackOk(bundle, stack)
    ensures var first := ExpandAll(bundle, a, source, stack, visits);
            ExpandAll(bundle, a + b, source, stack, visits)
            == if first.Failed? then first
               else
                 var rest := ExpandAll(bundle, b, source, stack, first.visits);
                 if rest.Failed? then rest else Done(first.blocks + rest.blocks, rest.visits)
    decreases |a|
  {
    hide ExpandOne;
    if a == [] {
      assert a + b == b;
      var rest := ExpandAll(bundle, b, source, stack, visits);
      assert rest.Done? ==> [] + rest.blocks == rest.blocks;
    } else {
      assert (a + b)[1..] == a[1..] + b && (a + b)[0] == a[0];
      var one := ExpandOne(bundle, a[0], source, stack, visits);
      if one.Done? {
        ExpandInOrder(bundle, a[1..], b, source, stack, one.visits);
        var first := ExpandAll(bundle, a[1..], source, stack, one.visits);
        if first.Done? {
          PrependTwice(one.blocks, first.blocks, ExpandAll(bundle, b, source, stack, first.visits));
        }
      }
    }
  }
}
