/** `normalize_virtual_path`: bundle paths resolved against the importing file. */
module Paths {
  import opened Protocols

  datatype PathError = Escapes | Invalid | Empty

  datatype Resolved = Path(path: string) | Bad(error: PathError)

  predicate IsSeparator(c: char) {
    c == '/' || c == '\\'
  }

  /** The pieces between separators; always at least one. */
  function Split(s: string): (parts: seq<string>)
    ensures |parts| > 0
  {
    if s == "" then [""]
    else
      var rest := Split(s[1..]);
      if IsSeparator(s[0]) then [""] + rest else [[s[0]] + rest[0]] + rest[1..]
  }

  function Join(parts: seq<string>): string
    requires |parts| > 0
  {
    if |parts| == 1 then parts[0] else parts[0] + "/" + Join(parts[1..])
  }

  function Joined(base: string, path: string): string {
    if base == "" then path else base + "/" + path
  }

  predicate Skipped(part: string) {
    part == "" || part == "."
  }

  /** One step of the loop over the pieces. */
  function Take(parts: seq<string>, part: string): (r: Option<seq<string>>) {
    if Skipped(part) then Some(parts)
    else if part == ".." then (if parts == [] then None else Some(parts[..|parts| - 1]))
    else if ':' in part then None
    else Some(parts + [part])
  }

  /** The pieces kept after the first `k`, if none of them was refused. */
  ghost function Kept(pieces: seq<string>, k: nat): (r: Option<seq<string>>)
    requires k <= |pieces|
  {
    if k == 0 then Some([])
    else
      var before := Kept(pieces, k - 1);
      if before.None? then None else Take(before.value, pieces[k - 1])
  }

  method Normalize(base: string, path: string) returns (r: Resolved)
    ensures r == Target(base, path)
  {
    var pieces := Split(Joined(base, path));
    var parts: seq<string> := [];
    var k := 0;
    while k < |pieces|
      invariant 0 <= k <= |pieces| && Kept(pieces, k) == Some(parts)
    {
      var piece := pieces[k];
      if Skipped(piece) {
      } else if piece == ".." {
        if parts == [] {
          RefusedStays(pieces, k + 1, |pieces|);
          FirstRefused(pieces, k);
          return Bad(Escapes);
        }
        parts := parts[..|parts| - 1];
      } else if ':' in piece {
        RefusedStays(pieces, k + 1, |pieces|);
        FirstRefused(pieces, k);
        return Bad(Invalid);
      } else {
        parts := parts + [piece];
      }
      k := k + 1;
    }
    if parts == [] {
      r := Bad(Empty);
    } else {
      r := Path(Join(parts));
    }
  }

  /** What the call returns, from the pieces kept. */
  ghost function Target(base: string, path: string): Resolved {
    var pieces := Split(Joined(base, path));
    var kept := Kept(pieces, |pieces|);
    if kept.None? then Bad(if pieces[Refusal(pieces)] == ".." then Escapes else Invalid)
    else if kept.value == [] then Bad(Empty)
    else Path(Join(kept.value))
  }

  /** The first piece that is refused. */
  ghost function Refusal(pieces: seq<string>): (k: nat)
    requires Kept(pieces, |pieces|).None?
    ensures k < |pieces| && Kept(pieces, k).Some? && Kept(pieces, k + 1).None?
  {
    RefusalFrom(pieces, 0)
  }

  ghost function RefusalFrom(pieces: seq<string>, i: nat): (k: nat)
    requires i <= |pieces| && Kept(pieces, i).Some? && Kept(pieces, |pieces|).None?
    ensures k < |pieces| && Kept(pieces, k).Some? && Kept(pieces, k + 1).None?
    decreases |pieces| - i
  {
    if Kept(pieces, i + 1).None? then i else RefusalFrom(pieces, i + 1)
  }

  lemma {:induction false} RefusedStays(pieces: seq<string>, i: nat, j: nat)
    requires i <= j <= |pieces| && Kept(pieces, i).None?
    ensures Kept(pieces, j).None?
    decreases j
  {
    if i < j {
      RefusedStays(pieces, i, j - 1);
    }
  }

  lemma FirstRefused(pieces: seq<string>, k: nat)
    requires k < |pieces| && Kept(pieces, k).Some? && Kept(pieces, k + 1).None? && Kept(pieces, |pieces|).None?
    ensures Refusal(pieces) == k
  {
    var r := Refusal(pieces);
    if r < k {
      RefusedStays(pieces, r + 1, k);
    } else if k < r {
      RefusedStays(pieces, k + 1, r);
    }
  }

  // ------------------------------------------------------------------
  // What normalization means
  // ------------------------------------------------------------------

  /** How deep below the bundle root the first `k` pieces lead. */
  ghost function Depth(pieces: seq<string>, k: nat): int
    requires k <= |pieces|
  {
    if k == 0 then 0
    else Depth(pieces, k - 1) + (if pieces[k - 1] == "" || pieces[k - 1] == "." then 0 else if pieces[k - 1] == ".." then -1 else 1)
  }

  /** No prefix climbs above the root and no name holds a colon. */
  ghost predicate Stays(pieces: seq<string>, n: nat)
    requires n <= |pieces|
  {
    && (forall k :: 0 <= k <= n ==> Depth(pieces, k) >= 0)
    && (forall k :: 0 <= k < n ==> ':' !in pieces[k])
  }

  lemma {:induction false} KeptMeaning(pieces: seq<string>, n: nat)
    requires n <= |pieces|
    ensures Kept(pieces, n).Some? <==> Stays(pieces, n)
    ensures Kept(pieces, n).Some? ==> |Kept(pieces, n).value| == Depth(pieces, n)
  {
    if n > 0 {
      KeptMeaning(pieces, n - 1);
      assert Stays(pieces, n) <==> Stays(pieces, n - 1) && Depth(pieces, n) >= 0 && ':' !in pieces[n - 1];
    }
  }

  /** A path resolves exactly when it stays inside the bundle and names something. */
  lemma ResolvesIffInside(base: string, path: string)
    ensures var pieces := Split(Joined(base, path));
            Target(base, path).Path? <==> Stays(pieces, |pieces|) && Depth(pieces, |pieces|) > 0
  {
    var pieces := Split(Joined(base, path));
    KeptMeaning(pieces, |pieces|);
  }

  /** A name as it may stand in a normal path. */
  predicate PlainName(s: string) {
    s != "" && s != "." && s != ".." && ':' !in s && NoSeparator(s)
  }

  ghost predicate PlainNames(parts: seq<string>) {
    forall i :: 0 <= i < |parts| ==> PlainName(parts[i])
  }

  /** A normal path is plain names joined by slashes. */
  ghost predicate Normal(path: string) {
    exists parts: seq<string> :: |parts| > 0 && PlainNames(parts) && path == Join(parts)
  }

  predicate NoSeparator(s: string) {
    '/' !in s && '\\' !in s
  }

  lemma {:induction false} SplitHasNoSeparator(s: string)
    ensures forall k :: 0 <= k < |Split(s)| ==> NoSeparator(Split(s)[k])
  {
    if s != "" {
      SplitHasNoSeparator(s[1..]);
    }
  }

  lemma {:induction false} KeptPlain(pieces: seq<string>, k: nat)
    requires k <= |pieces| && Kept(pieces, k).Some? && forall i :: 0 <= i < |pieces| ==> NoSeparator(pieces[i])
    ensures PlainNames(Kept(pieces, k).value)
  {
    if k > 0 {
      KeptPlain(pieces, k - 1);
    }
  }

  lemma TargetIsNormal(base: string, path: string)
    requires Target(base, path).Path?
    ensures Normal(Target(base, path).path)
  {
    var pieces := Split(Joined(base, path));
    SplitHasNoSeparator(Joined(base, path));
    KeptPlain(pieces, |pieces|);
  }

  /** Splitting takes a name off the front. */
  lemma {:induction false} SplitName(name: string, rest: string)
    requires NoSeparator(name)
    ensures Split(name + "/" + rest) == [name] + Split(rest)
    ensures Split(name) == [name]
  {
    if name == "" {
      assert (name + "/" + rest)[1..] == rest;
    } else {
      SplitName(name[1..], rest);
      assert (name + "/" + rest)[1..] == name[1..] + "/" + rest;
      assert name == [name[0]] + name[1..];
    }
  }

  lemma {:induction false} SplitJoin(parts: seq<string>)
    requires |parts| > 0 && forall i :: 0 <= i < |parts| ==> NoSeparator(parts[i])
    ensures Split(Join(parts)) == parts
  {
    SplitName(parts[0], "");
    if |parts| > 1 {
      SplitJoin(parts[1..]);
      SplitName(parts[0], Join(parts[1..]));
      assert parts == [parts[0]] + parts[1..];
    } else {
      assert parts == [parts[0]];
    }
  }

  lemma {:induction false} PlainIsKept(parts: seq<string>, k: nat)
    requires k <= |parts| && PlainNames(parts)
    ensures Kept(parts, k) == Some(parts[..k])
  {
    if k > 0 {
      PlainIsKept(parts, k - 1);
      assert parts[..k] == parts[..k - 1] + [parts[k - 1]];
    }
  }

  /** A normal path resolves to itself, so normalizing twice changes nothing. */
  lemma NormalIsFixed(path: string)
    requires Normal(path)
    ensures Target("", path) == Path(path)
  {
    var parts: seq<string> :| |parts| > 0 && PlainNames(parts) && path == Join(parts);
    SplitJoin(parts);
    PlainIsKept(parts, |parts|);
    assert parts[..|parts|] == parts;
  }

  // ------------------------------------------------------------------
  // The whole meaning, on the pieces alone
  // ------------------------------------------------------------------

  function Slashed(s: string): (r: string) {
    seq(|s|, i requires 0 <= i < |s| => if s[i] == '\\' then '/' else s[i])
  }

  /** The text is these pieces with slashes, of either kind, between them. */
  ghost predicate Cut(text: string, pieces: seq<string>) {
    |pieces| > 0 && (forall i :: 0 <= i < |pieces| ==> NoSeparator(pieces[i])) && Join(pieces) == Slashed(text)
  }

  lemma {:induction false} SplitSlashed(s: string)
    ensures Split(Slashed(s)) == Split(s)
  {
    if s != "" {
      SplitSlashed(s[1..]);
      assert Slashed(s)[1..] == Slashed(s[1..]);
    }
  }

  /** Every text can be cut. */
  lemma {:induction false} TextIsCut(s: string)
    ensures Cut(s, Split(s))
  {
    SplitHasNoSeparator(s);
    if s != "" {
      TextIsCut(s[1..]);
      var rest := Split(s[1..]);
      assert Slashed(s) == [Slashed(s)[0]] + Slashed(s[1..]);
      if IsSeparator(s[0]) {
        assert ([""] + rest)[1..] == rest;
      } else {
        var parts := [[s[0]] + rest[0]] + rest[1..];
        assert parts[1..] == rest[1..];
        assert Join(parts) == [s[0]] + Join(rest);
      }
    }
  }

  /** A text is cut in one way. */
  lemma CutIsSplit(text: string, pieces: seq<string>)
    requires Cut(text, pieces)
    ensures Split(text) == pieces
  {
    SplitSlashed(text);
    SplitJoin(pieces);
  }

  /** The name at `i` leads down and nothing before `n` leads back up past it. */
  ghost predicate Stands(pieces: seq<string>, i: nat, n: nat)
    requires n <= |pieces|
  {
    i < n && Depth(pieces, i + 1) == Depth(pieces, i) + 1 && forall j :: i < j <= n ==> Depth(pieces, j) > Depth(pieces, i)
  }

  ghost predicate NameAt(pieces: seq<string>, n: nat, d: nat, name: string)
    requires n <= |pieces|
  {
    exists i: nat :: Stands(pieces, i, n) && Depth(pieces, i) == d && pieces[i] == name
  }

  /** The names that stand, each at its depth. */
  ghost predicate Lasting(pieces: seq<string>, names: seq<string>, n: nat)
    requires n <= |pieces|
  {
    |names| == Depth(pieces, n) && forall d :: 0 <= d < |names| ==> NameAt(pieces, n, d, names[d])
  }

  lemma StillThere(pieces: seq<string>, n: nat, d: nat, name: string)
    requires 0 < n <= |pieces| && NameAt(pieces, n - 1, d, name) && Depth(pieces, n) > d
    ensures NameAt(pieces, n, d, name)
  {
    hide Depth;
    var i: nat :| Stands(pieces, i, n - 1) && Depth(pieces, i) == d && pieces[i] == name;
    assert Stands(pieces, i, n);
  }

  lemma {:induction false} KeptLasts(pieces: seq<string>, n: nat)
    requires n <= |pieces| && Kept(pieces, n).Some?
    ensures Lasting(pieces, Kept(pieces, n).value, n)
  {
    KeptMeaning(pieces, n);
    if n > 0 {
      KeptLasts(pieces, n - 1);
      KeptMeaning(pieces, n - 1);
      var before, names := Kept(pieces, n - 1).value, Kept(pieces, n).value;
      assert |names| > |before| ==> Stands(pieces, n - 1, n) && names == before + [pieces[n - 1]];
      assert |names| <= |before| ==> names == before[..|names|];
      hide Depth, Kept, Stays, Stands;
      forall d | 0 <= d < |names|
        ensures NameAt(pieces, n, d, names[d])
      {
        if d < |before| {
          assert NameAt(pieces, n - 1, d, before[d]);
          StillThere(pieces, n, d, names[d]);
        }
      }
    }
  }

  lemma OneNameAt(pieces: seq<string>, n: nat, d: nat, a: string, b: string)
    requires n <= |pieces| && NameAt(pieces, n, d, a) && NameAt(pieces, n, d, b)
    ensures a == b
  {
    hide Depth;
    var i: nat :| Stands(pieces, i, n) && Depth(pieces, i) == d && pieces[i] == a;
    var j: nat :| Stands(pieces, j, n) && Depth(pieces, j) == d && pieces[j] == b;
    assert i == j;
  }

  /** They are the only ones. */
  lemma LastingUnique(pieces: seq<string>, a: seq<string>, b: seq<string>, n: nat)
    requires n <= |pieces| && Lasting(pieces, a, n) && Lasting(pieces, b, n)
    ensures a == b
  {
    hide NameAt;
    forall d | 0 <= d < |a|
      ensures a[d] == b[d]
    {
      OneNameAt(pieces, n, d, a[d], b[d]);
    }
  }

  /** What a path resolves to: empty and single-dot pieces do nothing, a double dot leads
      up, any other piece leads down; the result are the names never left again.  It
      escapes if a piece first leads above the root, is invalid if a name first holds a
      colon, and is empty if nothing is left. */
  lemma PathMeaning(base: string, path: string, pieces: seq<string>)
    requires Cut(if base == "" then path else base + "/" + path, pieces)
    ensures var n, t := |pieces|, Target(base, path);
            && (t.Path? <==> Stays(pieces, n) && Depth(pieces, n) > 0)
            && (t.Path? ==> exists names :: |names| > 0 && Lasting(pieces, names, n) && t.path == Join(names))
            && (t == Bad(Empty) <==> Stays(pieces, n) && Depth(pieces, n) == 0)
            && (t == Bad(Escapes) <==> exists k :: 0 <= k < n && Stays(pieces, k) && Depth(pieces, k + 1) < 0)
            && (t == Bad(Invalid) <==> exists k :: 0 <= k < n && Stays(pieces, k) && Depth(pieces, k + 1) >= 0 && ':' in pieces[k])
  {
    var n := |pieces|;
    CutIsSplit(if base == "" then path else base + "/" + path, pieces);
    KeptMeaning(pieces, n);
    if Kept(pieces, n).Some? {
      KeptLasts(pieces, n);
      StaysBelow(pieces, n);
    } else {
      var k := Refusal(pieces);
      KeptMeaning(pieces, k);
      FirstLeaving(pieces, k);
    }
  }

  lemma StaysBelow(pieces: seq<string>, n: nat)
    requires n <= |pieces| && Stays(pieces, n)
    ensures forall k :: 0 <= k < n ==> Depth(pieces, k + 1) >= 0 && ':' !in pieces[k]
  {
    hide Depth;
  }

  /** The piece refused is the only one of its kind. */
  lemma FirstLeaving(pieces: seq<string>, k: nat)
    requires k < |pieces| && Kept(pieces, k).Some? && Kept(pieces, k + 1).None? && Stays(pieces, k)
    ensures pieces[k] == ".." <==> Depth(pieces, k + 1) < 0
    ensures Depth(pieces, k + 1) < 0 || ':' in pieces[k]
    ensures forall j :: 0 <= j < |pieces| && Stays(pieces, j) && (Depth(pieces, j + 1) < 0 || ':' in pieces[j]) ==> j == k
  {
    KeptMeaning(pieces, k);
    KeptMeaning(pieces, k + 1);
    assert pieces[k] == ".." ==> ':' !in pieces[k];
    StaysBelow(pieces, k);
    hide Depth;
    forall j | 0 <= j < |pieces| && Stays(pieces, j) && (Depth(pieces, j + 1) < 0 || ':' in pieces[j])
      ensures j == k
    {
      StaysBelow(pieces, j);
    }
  }
}
