/** The recursive import loader. */
module Loader {
  import opened Protocols
  import opened Syntax
  import opened Collections
  import opened Paths
  import opened Imports

  /** A file under one instance key. */
  type Key = (string, string)

  /** The expanded blocks and every file opened so far, in order. */
  datatype Loaded = Done(blocks: seq<Block>, visits: seq<Key>) | Failed(error: Error)

  /** The files being expanded, outermost first. */
  ghost predicate StackOk(bundle: Bundle, stack: seq<string>) {
    Distinct(stack) && forall p :: p in stack ==> p in bundle
  }

  lemma StackFits(bundle: Bundle, stack: seq<string>)
    requires StackOk(bundle, stack)
    ensures |stack| <= |bundle|
  {
    ElemsSize(stack);
    SubsetSize((set p | p in stack), bundle.Keys);
    assert |bundle.Keys| == |bundle|;
  }

  function IndexOf(stack: seq<string>, path: string): (i: nat)
    requires path in stack
    ensures i < |stack| && stack[i] == path && path !in stack[..i]
  {
    if stack[0] == path then 0 else 1 + IndexOf(stack[1..], path)
  }

  predicate Retained(b: Block, only: seq<string>) {
    !(b.name == "protocol" || b.name == "cases") || (b.labels != [] && b.labels[0] in only)
  }

  function Retain(blocks: seq<Block>, only: seq<string>): seq<Block> {
    if blocks == [] then []
    else (if Retained(blocks[0], only) then [blocks[0]] else []) + Retain(blocks[1..], only)
  }

  /** Of the protocols and case tables exactly those with a first label among the names
      asked for stay; of everything else all. */
  lemma {:induction false} RetainExact(blocks: seq<Block>, only: seq<string>, b: Block)
    ensures (b.name != "protocol" && b.name != "cases") || (|b.labels| > 0 && b.labels[0] in only) ==>
              multiset(Retain(blocks, only))[b] == multiset(blocks)[b]
    ensures (b.name == "protocol" || b.name == "cases") && (b.labels == [] || b.labels[0] !in only) ==>
              b !in Retain(blocks, only)
  {
    if blocks != [] {
      RetainExact(blocks[1..], only, b);
      assert blocks == [blocks[0]] + blocks[1..];
    }
  }

  /** What stays stays in its order. */
  lemma {:induction false} RetainInOrder(a: seq<Block>, b: seq<Block>, only: seq<string>)
    ensures Retain(a + b, only) == Retain(a, only) + Retain(b, only)
  {
    hide Retained;
    if a == [] {
      assert a + b == b;
      assert [] + Retain(b, only) == Retain(b, only);
    } else {
      RetainInOrder(a[1..], b, only);
      var first := if Retained(a[0], only) then [a[0]] else [];
      assert (a + b)[1..] == a[1..] + b && (a + b)[0] == a[0];
      assert first + (Retain(a[1..], only) + Retain(b, only)) == first + Retain(a[1..], only) + Retain(b, only);
    }
  }

  /** What an import puts in its place: the blocks kept, wrapped if aliased. */
  function Placed(blocks: seq<Block>, request: Request): seq<Block> {
    var kept := if request.only.Some? then Retain(blocks, request.only.value) else blocks;
    if request.alias.Some? then [Block("module", [request.alias.value], map[], kept)] else kept
  }

  // ------------------------------------------------------------------
  // Specification functions
  // ------------------------------------------------------------------

  ghost function LoadFile(bundle: Bundle, path: string, instance: string, stack: seq<string>, visits: seq<Key>): Loaded
    requires StackOk(bundle, stack)
    decreases |bundle| - |stack|, 0
  {
    StackFits(bundle, stack);
    if path in stack then Failed(Cycle(stack[IndexOf(stack, path)..] + [path]))
    else if (path, instance) in visits then Done([], visits)
    else if path !in bundle then Failed(Missing(path))
    else if bundle[path].None? then Failed(Unparsed(path))
    else
      StackFits(bundle, stack + [path]);
      ExpandAll(bundle, bundle[path].value, path, stack + [path], visits + [(path, instance)])
  }

  ghost function ExpandAll(bundle: Bundle, blocks: seq<Block>, source: string, stack: seq<string>, visits: seq<Key>): Loaded
    requires StackOk(bundle, stack)
    decreases |bundle| - |stack|, 1, blocks, 0
  {
    StackFits(bundle, stack);
    if blocks == [] then Done([], visits)
    else
      var first := ExpandOne(bundle, blocks[0], source, stack, visits);
      if first.Failed? then first
      else Prepend(first.blocks, ExpandAll(bundle, blocks[1..], source, stack, first.visits))
  }

  ghost function ExpandOne(bundle: Bundle, b: Block, source: string, stack: seq<string>, visits: seq<Key>): Loaded
    requires StackOk(bundle, stack)
    decreases |bundle| - |stack|, 1, b, 1
  {
    StackFits(bundle, stack);
    if b.name == "import" then
      var checked := Check(b, source);
      if checked.Refused? then Failed(BadImport(source, checked.defect))
      else
        var request := checked.request;
        var r := LoadFile(bundle, request.target, Instance(request.alias, request.only), stack, visits);
        if r.Failed? then r
        else if request.alias == Some("") then Failed(BadImport(source, EmptyAlias))
        else Done(Placed(r.blocks, request), r.visits)
    else
      var r := ExpandAll(bundle, b.blocks, source, stack, visits);
      if r.Failed? then r else Done([b.(blocks := r.blocks)], r.visits)
  }

  function Prepend(front: seq<Block>, r: Loaded): Loaded {
    if r.Failed? then r else Done(front + r.blocks, r.visits)
  }

  // ------------------------------------------------------------------
  // The loader object
  // ------------------------------------------------------------------

  datatype Outcome = Ok(blocks: seq<Block>) | Err(error: Error)

  method CheckImport(b: Block, source: string) returns (c: Checked)
    ensures c == Check(b, source)
  {
    if b.labels == [] {
      return Refused(NoPath);
    }
    if !(forall k :: k in b.attributes ==> k == "as" || k == "only") {
      return Refused(UnknownAttribute);
    }
    var only: Option<seq<string>> := None;
    if "only" in b.attributes {
      var value := b.attributes["only"];
      if !value.Array? {
        return Refused(OnlyNotArray);
      }
      only := Strings(value.items);
      if only.None? {
        return Refused(OnlyNotStrings);
      }
    }
    var target := Normalize(Base(source), b.labels[0]);
    match target
    case Bad(error) => c := Refused(BadTarget(error));
    case Path(path) => c := Accepted(Request(path, only, Alias(b)));
  }

  class ImportLoader {
    const bundle: Bundle
    var loaded: set<Key>
    var stack: seq<string>
    ghost var visits: seq<Key>

    ghost predicate Valid()
      reads this
    {
      StackOk(bundle, stack) && loaded == set k | k in visits
    }

    constructor (bundle: Bundle)
      ensures Valid() && this.bundle == bundle && stack == [] && visits == []
    {
      this.bundle := bundle;
      loaded, stack, visits := {}, [], [];
    }

    /** The stack is as before; the result and the files opened are as specified. */
    ghost predicate Met(r: Outcome, spec: Loaded, stack0: seq<string>)
      reads this
    {
      && Valid() && stack == stack0
      && match r
         case Ok(blocks) => spec == Done(blocks, visits)
         case Err(error) => spec == Failed(error)
    }

    method Load(path: string, instance: string) returns (r: Outcome)
      requires Valid()
      modifies this
      ensures Met(r, LoadFile(bundle, path, instance, old(stack), old(visits)), old(stack))
      decreases |bundle| - |stack|, 0
    {
      StackFits(bundle, stack);
      if path in stack {
        var start := IndexOf(stack, path);
        return Err(Cycle(stack[start..] + [path]));
      }
      if (path, instance) in loaded {
        return Ok([]);
      }
      loaded, visits := loaded + {(path, instance)}, visits + [(path, instance)];
      if path !in bundle {
        return Err(Missing(path));
      }
      if bundle[path].None? {
        return Err(Unparsed(path));
      }
      ghost var before := stack;
      stack := stack + [path];
      StackFits(bundle, stack);
      r := Expand(bundle[path].value, path);
      stack := stack[..|stack| - 1];
      assert stack == before;
    }

    method Expand(blocks: seq<Block>, source: string) returns (r: Outcome)
      requires Valid()
      modifies this
      ensures Met(r, ExpandAll(bundle, blocks, source, old(stack), old(visits)), old(stack))
      decreases |bundle| - |stack|, 1, blocks, 0
    {
      StackFits(bundle, stack);
      ghost var spec := ExpandAll(bundle, blocks, source, stack, visits);
      var out: seq<Block> := [];
      var i := 0;
      while i < |blocks|
        invariant 0 <= i <= |blocks| && Valid() && stack == old(stack)
        invariant spec == Prepend(out, ExpandAll(bundle, blocks[i..], source, stack, visits))
      {
        assert blocks[i..][0] == blocks[i] && blocks[i..][1..] == blocks[i + 1..];
        var more := ExpandBlock(blocks[i], source);
        match more {
          case Err(error) => return Err(error);
          case Ok(expanded) =>
            PrependTwice(out, expanded, ExpandAll(bundle, blocks[i + 1..], source, stack, visits));
            out := out + expanded;
        }
        i := i + 1;
      }
      assert out + [] == out;
      r := Ok(out);
    }

    /** One turn of the loop over the blocks. */
    method ExpandBlock(b: Block, source: string) returns (r: Outcome)
      requires Valid()
      modifies this
      ensures Met(r, ExpandOne(bundle, b, source, old(stack), old(visits)), old(stack))
      decreases |bundle| - |stack|, 1, b, 1
    {
      StackFits(bundle, stack);
      if b.name == "import" {
        var checked := CheckImport(b, source);
        if checked.Refused? {
          return Err(BadImport(source, checked.defect));
        }
        var request := checked.request;
        r := Load(request.target, Instance(request.alias, request.only));
        if r.Ok? {
          if request.alias == Some("") {
            return Err(BadImport(source, EmptyAlias));
          }
          r := Ok(Placed(r.blocks, request));
        }
      } else {
        r := Expand(b.blocks, source);
        if r.Ok? {
          r := Ok([b.(blocks := r.blocks)]);
        }
      }
    }
  }

  lemma PrependTwice(a: seq<Block>, b: seq<Block>, r: Loaded)
    ensures Prepend(a, Prepend(b, r)) == Prepend(a + b, r)
  {
    if r.Done? {
      assert a + (b + r.blocks) == a + b + r.blocks;
    }
  }
}
