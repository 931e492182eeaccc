/** Import blocks: their checks, their instance key and the graph they span. */
module Imports {
  import opened Protocols
  import opened Syntax
  import opened Paths

  /** A bundle: each normal path with its parsed blocks, or none if the source
      does not parse. */
  type Bundle = map<string, Option<seq<Block>>>

  datatype Defect = NoPath | UnknownAttribute | OnlyNotArray | OnlyNotStrings | BadTarget(error: PathError) | EmptyAlias

  datatype Error =
    | Cycle(chain: seq<string>)
    | Missing(path: string)
    | Unparsed(path: string)
    | BadImport(source: string, defect: Defect)

  /** A checked import: where it leads, which names it keeps and its alias. */
  datatype Request = Request(target: string, only: Option<seq<string>>, alias: Option<string>)

  datatype Checked = Accepted(request: Request) | Refused(defect: Defect)

  /** The directory of a path: everything before the last slash. */
  function Base(path: string): string {
    if path == "" then ""
    else if path[|path| - 1] == '/' then path[..|path| - 1]
    else Base(path[..|path| - 1])
  }

  lemma {:induction false} BaseMeaning(dir: string, file: string)
    requires '/' !in file
    ensures Base(dir + "/" + file) == dir && Base(file) == ""
    decreases |file|
  {
    var path := dir + "/" + file;
    if file == "" {
      assert path[..|path| - 1] == dir;
    } else {
      var n := |file| - 1;
      assert path[|path| - 1] == file[n] && file[n] in file;
      assert path[..|path| - 1] == dir + "/" + file[..n];
      BaseMeaning(dir, file[..n]);
    }
  }

  function Strings(vs: seq<Value>): (r: Option<seq<string>>) {
    if vs == [] then Some([])
    else if !vs[0].Str? then None
    else
      var rest := Strings(vs[1..]);
      if rest.None? then None else Some([vs[0].s] + rest.value)
  }

  /** A list of values is a list of names iff all of them are strings. */
  lemma {:induction false} StringsMeaning(vs: seq<Value>, name: string)
    ensures Strings(vs).Some? <==> forall i :: 0 <= i < |vs| ==> vs[i].Str?
    ensures Strings(vs).Some? ==> (name in Strings(vs).value <==> Str(name) in vs)
  {
    if vs != [] {
      StringsMeaning(vs[1..], name);
      assert vs == [vs[0]] + vs[1..];
    }
  }

  function Alias(b: Block): Option<string> {
    if "as" in b.attributes && b.attributes["as"].Str? then Some(b.attributes["as"].s)
    else if |b.labels| > 1 then Some(b.labels[1])
    else None
  }

  ghost predicate KnownAttributes(b: Block) {
    forall k :: k in b.attributes ==> k == "as" || k == "only"
  }

  /** The checks made before the target is loaded, in their order. */
  ghost function Check(b: Block, source: string): Checked {
    if b.labels == [] then Refused(NoPath)
    else if !KnownAttributes(b) then Refused(UnknownAttribute)
    else if "only" in b.attributes && !b.attributes["only"].Array? then Refused(OnlyNotArray)
    else if "only" in b.attributes && Strings(b.attributes["only"].items).None? then Refused(OnlyNotStrings)
    else
      var target := Target(Base(source), b.labels[0]);
      if target.Bad? then Refused(BadTarget(target.error))
      else
        var only := if "only" in b.attributes then Strings(b.attributes["only"].items) else None;
        Accepted(Request(target.path, only, Alias(b)))
  }

  /** Each refusal exactly when it applies, in their order; an import that is accepted
      leads where its first label leads from its file's directory. */
  lemma CheckMeaning(b: Block, source: string)
    ensures var c := Check(b, source);
            var strange := exists k :: k in b.attributes && k != "as" && k != "only";
            var noArray := "only" in b.attributes && !b.attributes["only"].Array?;
            var noNames := "only" in b.attributes && b.attributes["only"].Array?
                           && exists i :: 0 <= i < |b.attributes["only"].items| && !b.attributes["only"].items[i].Str?;
            && (c == Refused(NoPath) <==> b.labels == [])
            && (c == Refused(UnknownAttribute) <==> b.labels != [] && strange)
            && (c == Refused(OnlyNotArray) <==> b.labels != [] && !strange && noArray)
            && (c == Refused(OnlyNotStrings) <==> b.labels != [] && !strange && noNames)
            && (c.Refused? && c.defect.BadTarget? <==>
                  b.labels != [] && !strange && !noArray && !noNames && Target(Base(source), b.labels[0]).Bad?)
            && (c.Accepted? ==> b.labels != [] && Target(Base(source), b.labels[0]) == Path(c.request.target))
  {
    hide Target, Base;
    if "only" in b.attributes && b.attributes["only"].Array? {
      StringsMeaning(b.attributes["only"].items, "");
    }
  }

  // ------------------------------------------------------------------
  // Instance keys
  // ------------------------------------------------------------------

  /** Strings in the order of their characters. */
  predicate Less(a: string, b: string) {
    b != "" && (a == "" || a[0] < b[0] || (a[0] == b[0] && Less(a[1..], b[1..])))
  }

  lemma {:induction false} LessTotal(a: string, b: string)
    ensures a == b || Less(a, b) || Less(b, a)
    ensures !(Less(a, b) && Less(b, a)) && !Less(a, a)
  {
    if a != "" && b != "" {
      LessTotal(a[1..], b[1..]);
      assert a == [a[0]] + a[1..] && b == [b[0]] + b[1..];
    } else if a != "" {
      LessTotal(a[1..], a[1..]);
    }
  }

  lemma {:induction false} LessTransitive(a: string, b: string, c: string)
    requires Less(a, b) && Less(b, c)
    ensures Less(a, c)
  {
    if a != "" && a[0] == b[0] && b[0] == c[0] {
      LessTransitive(a[1..], b[1..], c[1..]);
    }
  }

  /** Adds a name to a sorted list unless it is there. */
  function Insert(sorted: seq<string>, name: string): seq<string> {
    if sorted == [] || Less(name, sorted[0]) then [name] + sorted
    else if sorted[0] == name then sorted
    else [sorted[0]] + Insert(sorted[1..], name)
  }

  function Sorted(names: seq<string>): seq<string> {
    if names == [] then [] else Insert(Sorted(names[1..]), names[0])
  }

  ghost predicate Ascending(s: seq<string>) {
    forall i, j :: 0 <= i < j < |s| ==> Less(s[i], s[j])
  }

  lemma AscendingCons(x: string, s: seq<string>)
    requires Ascending(s) && forall y :: y in s ==> Less(x, y)
    ensures Ascending([x] + s)
  {
    hide Less;
    var r := [x] + s;
    forall i, j | 0 <= i < j < |r|
      ensures Less(r[i], r[j])
    {
      assert r[j] == s[j - 1] && s[j - 1] in s;
      if i > 0 {
        assert r[i] == s[i - 1];
      }
    }
  }

  lemma {:induction false} InsertMeaning(sorted: seq<string>, name: string)
    requires Ascending(sorted)
    ensures Ascending(Insert(sorted, name))
    ensures forall x :: x in Insert(sorted, name) <==> x == name || x in sorted
  {
    hide Less;
    if sorted == [] {
    } else if Less(name, sorted[0]) {
      forall y | y in sorted
        ensures Less(name, y)
      {
        if y != sorted[0] {
          LessTransitive(name, sorted[0], y);
        }
      }
      AscendingCons(name, sorted);
    } else if sorted[0] != name {
      LessTotal(name, sorted[0]);
      var rest := sorted[1..];
      assert sorted == [sorted[0]] + rest;
      InsertMeaning(rest, name);
      AscendingCons(sorted[0], Insert(rest, name));
    }
  }

  lemma {:induction false} SortedMeaning(names: seq<string>)
    ensures Ascending(Sorted(names)) && forall x :: x in Sorted(names) <==> x in names
  {
    if names != [] {
      SortedMeaning(names[1..]);
      InsertMeaning(Sorted(names[1..]), names[0]);
    }
  }

  /** A set of names has one ascending list. */
  lemma {:induction false} AscendingUnique(a: seq<string>, b: seq<string>)
    requires Ascending(a) && Ascending(b) && forall x :: x in a <==> x in b
    ensures a == b
  {
    assert b != [] ==> b[0] in b;
    if a != [] {
      assert a[0] in b && b != [];
      assert b[0] in a;
      var i :| 0 <= i < |a| && a[i] == b[0];
      var j :| 0 <= j < |b| && b[j] == a[0];
      LessTotal(a[0], b[0]);
      assert a[0] == b[0];
      LessTotal(a[0], a[0]);
      assert a[0] !in a[1..] && b[0] !in b[1..];
      AscendingTails(a, b);
      AscendingUnique(a[1..], b[1..]);
      assert a == [a[0]] + a[1..] && b == [b[0]] + b[1..];
    }
  }

  lemma AscendingTails(a: seq<string>, b: seq<string>)
    requires a != [] && b != [] && a[0] == b[0] && a[0] !in a[1..] && b[0] !in b[1..]
    requires forall x :: x in a <==> x in b
    ensures forall x :: x in a[1..] <==> x in b[1..]
  {
    forall x
      ensures x in a[1..] <==> x in b[1..]
    {
      assert a == [a[0]] + a[1..] && b == [b[0]] + b[1..];
      assert x in a <==> x == a[0] || x in a[1..];
      assert x in b <==> x == b[0] || x in b[1..];
    }
  }

  function JoinNames(names: seq<string>): string {
    if names == [] then "" else if |names| == 1 then names[0] else names[0] + "," + JoinNames(names[1..])
  }

  const ONLY_MARK := ";only="

  function AliasText(alias: Option<string>): string {
    if alias.Some? then alias.value else ""
  }

  function OnlyNames(only: Option<seq<string>>): seq<string> {
    if only.Some? then Sorted(only.value) else []
  }

  function Instance(alias: Option<string>, only: Option<seq<string>>): string {
    "alias=" + AliasText(alias) + ONLY_MARK + JoinNames(OnlyNames(only))
  }

  /** The key does not depend on the order or repetition of the names kept. */
  lemma InstanceIsOfTheSet(alias: Option<string>, a: seq<string>, b: seq<string>)
    requires forall x :: x in a <==> x in b
    ensures Instance(alias, Some(a)) == Instance(alias, Some(b))
  {
    SortedMeaning(a);
    SortedMeaning(b);
    AscendingUnique(Sorted(a), Sorted(b));
  }

  /** A text split at its commas. */
  function Pieces(s: string): (r: seq<string>)
    ensures |r| > 0
  {
    if s == "" then [""]
    else
      var rest := Pieces(s[1..]);
      if s[0] == ',' then [""] + rest else [[s[0]] + rest[0]] + rest[1..]
  }

  /** All names split at their commas; no name at all is one empty piece. */
  function AllPieces(names: seq<string>): (r: seq<string>)
    ensures |r| > 0
  {
    if names == [] then [""]
    else if |names| == 1 then Pieces(names[0])
    else Pieces(names[0]) + AllPieces(names[1..])
  }

  lemma {:induction false} PiecesOfJoined(name: string, rest: string)
    ensures Pieces(name + "," + rest) == Pieces(name) + Pieces(rest)
  {
    hide Pieces;
    var s := name + "," + rest;
    PiecesStep(s);
    if name == "" {
      assert s[1..] == rest;
      NoPieces();
    } else {
      assert s[1..] == name[1..] + "," + rest && s[0] == name[0];
      PiecesOfJoined(name[1..], rest);
      PiecesStep(name);
      FirstPiece(name[0], Pieces(name[1..]), Pieces(rest));
    }
  }

  lemma FirstPiece(c: char, p: seq<string>, q: seq<string>)
    requires |p| > 0
    ensures [[c] + (p + q)[0]] + (p + q)[1..] == ([[c] + p[0]] + p[1..]) + q
    ensures [""] + (p + q) == ([""] + p) + q
  {
  }

  lemma NoPieces()
    ensures Pieces("") == [""]
  {
  }

  lemma PiecesStep(s: string)
    requires s != ""
    ensures var rest := Pieces(s[1..]);
            Pieces(s) == if s[0] == ',' then [""] + rest else [[s[0]] + rest[0]] + rest[1..]
  {
  }

  lemma {:induction false} JoinedPieces(names: seq<string>)
    ensures Pieces(JoinNames(names)) == AllPieces(names)
  {
    if |names| > 1 {
      JoinedPieces(names[1..]);
      PiecesOfJoined(names[0], JoinNames(names[1..]));
    }
  }

  lemma {:induction false} PiecesBack(s: string)
    ensures JoinNames(Pieces(s)) == s
  {
    if s != "" {
      PiecesBack(s[1..]);
      var rest := Pieces(s[1..]);
      if s[0] == ',' {
        assert ([""] + rest)[1..] == rest;
      } else {
        var r := [[s[0]] + rest[0]] + rest[1..];
        assert r[1..] == rest[1..];
        assert JoinNames(r) == [s[0]] + JoinNames(rest);
      }
    }
  }

  /** Two lists of names read alike iff they split into the same pieces. */
  lemma JoinedEqualIff(a: seq<string>, b: seq<string>)
    ensures JoinNames(a) == JoinNames(b) <==> AllPieces(a) == AllPieces(b)
  {
    JoinedPieces(a);
    JoinedPieces(b);
    PiecesBack(JoinNames(a));
    PiecesBack(JoinNames(b));
  }

  /** The first alias ends where the mark stands inside the second one. */
  ghost predicate Overlaps(alias1: string, text1: string, alias2: string, text2: string) {
    exists x: string :: alias2 == alias1 + ONLY_MARK + x && text1 == x + ONLY_MARK + text2
  }

  lemma InsideMark(alias: string, text: string, n: nat)
    requires |alias| < n < |alias| + 6
    ensures (alias + ONLY_MARK + text)[n] != ';'
  {
    assert (alias + ONLY_MARK + text)[n] == ONLY_MARK[n - |alias|];
  }

  lemma OverlapIff(alias1: string, text1: string, alias2: string, text2: string)
    requires |alias1| < |alias2|
    ensures alias1 + ONLY_MARK + text1 == alias2 + ONLY_MARK + text2 <==> Overlaps(alias1, text1, alias2, text2)
  {
    var s, t := alias1 + ONLY_MARK + text1, alias2 + ONLY_MARK + text2;
    if s == t {
      var d := |alias2| - |alias1|;
      assert t[|alias2|] == ';';
      if d < 6 {
        InsideMark(alias1, text1, |alias2|);
      }
      assert d >= 6;
      var x := alias2[|alias1| + 6..];
      assert alias2 == t[..|alias2|] && s[..|alias1| + 6] == alias1 + ONLY_MARK;
      assert alias2 == alias1 + ONLY_MARK + x;
      assert text1 == s[|alias1| + 6..] && t[|alias1| + 6..] == x + ONLY_MARK + text2;
    }
    if Overlaps(alias1, text1, alias2, text2) {
      var x: string :| alias2 == alias1 + ONLY_MARK + x && text1 == x + ONLY_MARK + text2;
      assert s == alias1 + ONLY_MARK + (x + ONLY_MARK + text2);
      assert t == (alias1 + ONLY_MARK + x) + ONLY_MARK + text2;
    }
  }

  /** Two imports share a key iff their aliases agree and their names split into the
      same pieces, or one alias runs over the mark into the names of the other. */
  lemma SameKeyIff(a1: Option<string>, o1: Option<seq<string>>, a2: Option<string>, o2: Option<seq<string>>)
    ensures Instance(a1, o1) == Instance(a2, o2) <==>
            var x1, x2 := if a1.Some? then a1.value else "", if a2.Some? then a2.value else "";
            var t1, t2 := JoinNames(OnlyNames(o1)), JoinNames(OnlyNames(o2));
            || (x1 == x2 && AllPieces(OnlyNames(o1)) == AllPieces(OnlyNames(o2)))
            || Overlaps(x1, t1, x2, t2)
            || Overlaps(x2, t2, x1, t1)
  {
    hide Sorted, JoinNames, AllPieces;
    var x1, x2, t1, t2 := AliasText(a1), AliasText(a2), JoinNames(OnlyNames(o1)), JoinNames(OnlyNames(o2));
    JoinedEqualIff(OnlyNames(o1), OnlyNames(o2));
    WithoutPrefix(x1 + ONLY_MARK + t1, x2 + ONLY_MARK + t2);
    assert Instance(a1, o1) == "alias=" + (x1 + ONLY_MARK + t1) && Instance(a2, o2) == "alias=" + (x2 + ONLY_MARK + t2);
    assert Overlaps(x1, t1, x2, t2) ==> |x1| < |x2|;
    assert Overlaps(x2, t2, x1, t1) ==> |x2| < |x1|;
    if |x1| < |x2| {
      OverlapIff(x1, t1, x2, t2);
    } else if |x2| < |x1| {
      OverlapIff(x2, t2, x1, t1);
    } else {
      SameLengthAlias(x1, t1, x2, t2);
    }
  }

  lemma WithoutPrefix(a: string, b: string)
    ensures "alias=" + a == "alias=" + b <==> a == b
  {
    assert ("alias=" + a)[6..] == a && ("alias=" + b)[6..] == b;
  }

  lemma SameLengthAlias(x1: string, t1: string, x2: string, t2: string)
    requires |x1| == |x2|
    ensures x1 + ONLY_MARK + t1 == x2 + ONLY_MARK + t2 <==> x1 == x2 && t1 == t2
  {
    var s, t := x1 + ONLY_MARK + t1, x2 + ONLY_MARK + t2;
    assert s[..|x1|] == x1 && t[..|x2|] == x2 && s[|x1| + 6..] == t1 && t[|x2| + 6..] == t2;
  }

  /** For aliases without semicolon and plain, nonempty names, keys are equal iff
      aliases and sets of names are. */
  lemma PlainKeysIff(a1: Option<string>, o1: Option<seq<string>>, a2: Option<string>, o2: Option<seq<string>>)
    requires ';' !in AliasText(a1) && ';' !in AliasText(a2) && PlainOnly(o1) && PlainOnly(o2)
    ensures Instance(a1, o1) == Instance(a2, o2) <==>
            && (if a1.Some? then a1.value else "") == (if a2.Some? then a2.value else "")
            && forall x :: (o1.Some? && x in o1.value) <==> (o2.Some? && x in o2.value)
  {
    NamesMeaning(o1);
    NamesMeaning(o2);
    SameKeyIff(a1, o1, a2, o2);
    NoOverlap(AliasText(a1), JoinNames(OnlyNames(o1)), AliasText(a2), JoinNames(OnlyNames(o2)));
    NoOverlap(AliasText(a2), JoinNames(OnlyNames(o2)), AliasText(a1), JoinNames(OnlyNames(o1)));
    OnlyIsAscending(o1);
    OnlyIsAscending(o2);
    PlainPieces(OnlyNames(o1));
    PlainPieces(OnlyNames(o2));
    hide OnlyNames, JoinNames, AllPieces, Overlaps;
    if forall x :: x in OnlyNames(o1) <==> x in OnlyNames(o2) {
      AscendingUnique(OnlyNames(o1), OnlyNames(o2));
    }
  }

  lemma NamesMeaning(only: Option<seq<string>>)
    ensures forall x :: x in OnlyNames(only) <==> only.Some? && x in only.value
  {
    if only.Some? {
      SortedMeaning(only.value);
    }
  }

  predicate PlainOnly(only: Option<seq<string>>) {
    only.Some? ==> forall x :: x in only.value ==> x != "" && ',' !in x
  }

  lemma OnlyIsAscending(only: Option<seq<string>>)
    requires PlainOnly(only)
    ensures Ascending(OnlyNames(only)) && forall x :: x in OnlyNames(only) ==> x != "" && ',' !in x
  {
    if only.Some? {
      SortedMeaning(only.value);
    }
  }

  lemma NoOverlap(alias1: string, text1: string, alias2: string, text2: string)
    requires ';' !in alias2
    ensures !Overlaps(alias1, text1, alias2, text2)
  {
    forall x: string
      ensures alias2 != alias1 + ONLY_MARK + x
    {
      assert (alias1 + ONLY_MARK + x)[|alias1|] == ';';
    }
  }

  lemma {:induction false} OnePiece(s: string)
    requires ',' !in s
    ensures Pieces(s) == [s]
  {
    if s != "" {
      OnePiece(s[1..]);
      assert s == [s[0]] + s[1..];
    }
  }

  lemma {:induction false} PlainPieces(names: seq<string>)
    requires forall x :: x in names ==> x != "" && ',' !in x
    ensures AllPieces(names) == if names == [] then [""] else names
  {
    if names != [] {
      OnePiece(names[0]);
      assert forall x :: x in names[1..] ==> x in names;
      PlainPieces(names[1..]);
      assert names == [names[0]] + names[1..];
    }
  }

  /** Distinct requests may share a key: an empty list and none, a name with a comma
      and the two names it looks like. */
  lemma KeysCollide(alias: Option<string>)
    ensures Instance(alias, None) == Instance(alias, Some([]))
    ensures Instance(alias, Some(["a,b"])) == Instance(alias, Some(["a", "b"]))
  {
    var two := ["a", "b"];
    assert two[1..] == ["b"] && ["b"][1..] == [];
    assert Sorted([]) == [] && Sorted(["b"]) == ["b"];
    assert Less("a", "b");
    assert Sorted(two) == ["a"] + ["b"];
    assert ["a,b"][1..] == [];
    assert Sorted(["a,b"]) == ["a,b"];
    assert (["a"] + ["b"])[1..] == ["b"];
    assert JoinNames(["a"] + ["b"]) == "a" + "," + "b" == "a,b";
  }

  // ------------------------------------------------------------------
  // The import graph
  // ------------------------------------------------------------------

  /** The import blocks at any depth, in order.  What an import block itself
      contains is never looked at. */
  function ImportsOf(blocks: seq<Block>): seq<Block>
    decreases blocks, 0
  {
    if blocks == [] then [] else ImportsIn(blocks[0]) + ImportsOf(blocks[1..])
  }

  function ImportsIn(b: Block): seq<Block>
    decreases b, 1
  {
    if b.name == "import" then [b] else ImportsOf(b.blocks)
  }

  ghost predicate Readable(bundle: Bundle, p: string) {
    p in bundle && bundle[p].Some?
  }

  ghost predicate LeadsTo(source: string, b: Block, q: string) {
    b.labels != [] && Target(Base(source), b.labels[0]) == Path(q)
  }

  /** Some import of file `p` names file `q`. */
  ghost predicate Edge(bundle: Bundle, p: string, q: string) {
    Readable(bundle, p) && exists b :: b in ImportsOf(bundle[p].value) && LeadsTo(p, b, q)
  }

  ghost predicate Walk(bundle: Bundle, w: seq<string>) {
    |w| > 0 && forall i :: 0 < i < |w| ==> Edge(bundle, w[i - 1], w[i])
  }

  ghost predicate WalkFromTo(bundle: Bundle, w: seq<string>, p: string, q: string) {
    Walk(bundle, w) && w[0] == p && w[|w| - 1] == q
  }

  ghost predicate Reaches(bundle: Bundle, p: string, q: string) {
    exists w :: WalkFromTo(bundle, w, p, q)
  }

  /** A walk of at least one step back to its start. */
  ghost predicate ClosedWalk(bundle: Bundle, w: seq<string>) {
    |w| > 1 && Walk(bundle, w) && w[0] == w[|w| - 1]
  }

  ghost predicate HasDefect(source: string, b: Block, d: Defect) {
    Check(b, source) == Refused(d) || (d == EmptyAlias && Check(b, source).Accepted? && Alias(b) == Some(""))
  }

  ghost predicate SoundImport(source: string, b: Block) {
    Check(b, source).Accepted? && Alias(b) != Some("")
  }

  /** A file that is there, parses, and whose imports are all in order. */
  ghost predicate SoundFile(bundle: Bundle, p: string) {
    Readable(bundle, p) && forall b :: b in ImportsOf(bundle[p].value) ==> SoundImport(p, b)
  }

  /** Everything reachable from `root` is sound and lies on no import cycle. */
  ghost predicate SoundBundle(bundle: Bundle, root: string) {
    && (forall p :: Reaches(bundle, root, p) ==> SoundFile(bundle, p))
    && (forall w :: ClosedWalk(bundle, w) ==> !Reaches(bundle, root, w[0]))
  }

  /** What an error claims is there. */
  ghost predicate Real(bundle: Bundle, root: string, e: Error) {
    match e
    case Cycle(chain) => ClosedWalk(bundle, chain) && Reaches(bundle, root, chain[0])
    case Missing(p) => Reaches(bundle, root, p) && p !in bundle
    case Unparsed(p) => Reaches(bundle, root, p) && p in bundle && bundle[p].None?
    case BadImport(p, d) =>
      Reaches(bundle, root, p) && Readable(bundle, p) && exists b :: b in ImportsOf(bundle[p].value) && HasDefect(p, b, d)
  }

  lemma RealErrorsAreUnsound(bundle: Bundle, root: string, e: Error)
    requires Real(bundle, root, e)
    ensures !SoundBundle(bundle, root)
  {
  }
}
