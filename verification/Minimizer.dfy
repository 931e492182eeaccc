/** `native_fuzz::minimize_bytes`: delta debugging of a failure-inducing input. */
module Minimizer {
  import opened Bytes

  /** `at` picks the bytes of `part` out of `whole`, left to right. */
  ghost predicate Embeds(at: seq<nat>, part: seq<Byte>, whole: seq<Byte>) {
    && |at| == |part|
    && (forall i :: 0 <= i < |at| ==> at[i] < |whole| && part[i] == whole[at[i]])
    && forall i, j :: 0 <= i < j < |at| ==> at[i] < at[j]
  }

  ghost predicate IsSubsequence(part: seq<Byte>, whole: seq<Byte>) {
    exists at :: Embeds(at, part, whole)
  }

  function Without(s: seq<Byte>, start: nat, end: nat): (r: seq<Byte>)
    requires start <= end <= |s|
  {
    s[..start] + s[end..]
  }

  function WithoutOne(s: seq<Byte>, i: nat): (r: seq<Byte>)
    requires i < |s|
  {
    Without(s, i, i + 1)
  }

  /** No single byte can be dropped. */
  ghost predicate OneMinimal(s: seq<Byte>, preserves: seq<Byte> -> bool) {
    forall i :: 0 <= i < |s| ==> !preserves(WithoutOne(s, i))
  }

  lemma CutEmbeds(at: seq<nat>, part: seq<Byte>, whole: seq<Byte>, start: nat, end: nat)
    requires Embeds(at, part, whole) && start <= end <= |part|
    ensures Embeds(at[..start] + at[end..], Without(part, start, end), whole)
  {
  }

  lemma MulMono(a: int, b: int, g: nat)
    requires a <= b
    ensures a * g <= b * g
  {
  }

  lemma QuotientBounds(n: nat, g: nat, c: int)
    requires n >= 2 && g >= 2 && c * g <= n + g - 1 < c * g + g
    ensures 1 <= c < n
    ensures g >= n ==> c == 1
  {
    if c <= 0 {
      MulMono(c, 0, g);
    }
    if c >= 2 {
      MulMono(2, c, g);
    }
    if c >= n {
      MulMono(n, c, g);
      assert n * g == n + n * (g - 1);
      MulMono(2, n, g - 1);
    }
  }

  lemma CeilingFacts(n: nat, g: nat)
    requires n >= 2 && g >= 2
    ensures 1 <= (n + g - 1) / g < n
    ensures g >= n ==> (n + g - 1) / g == 1
  {
    var c := (n + g - 1) / g;
    assert n + g - 1 == c * g + (n + g - 1) % g;
    QuotientBounds(n, g, c);
  }

  /** Try the cuts of one granularity, left to right, until one preserves. */
  method TryCuts(current: seq<Byte>, chunk: nat, preserves: seq<Byte> -> bool) returns (found: bool, start: nat, end: nat)
    requires 1 <= chunk < |current|
    ensures found ==> start < end <= |current| && end - start <= chunk && preserves(Without(current, start, end))
    ensures !found && chunk == 1 ==> OneMinimal(current, preserves)
  {
    start, end := 0, 0;
    while start < |current|
      invariant chunk == 1 ==> forall i :: 0 <= i < start && i < |current| ==> !preserves(WithoutOne(current, i))
      decreases |current| - start
    {
      end := if start + chunk <= |current| then start + chunk else |current|;
      if preserves(Without(current, start, end)) {
        return true, start, end;
      }
      start := start + chunk;
    }
    found := false;
  }

  method MinimizeBytes(input: seq<Byte>, preserves: seq<Byte> -> bool) returns (current: seq<Byte>)
    ensures IsSubsequence(current, input)
    ensures current == input || preserves(current)
    ensures preserves(input) ==> preserves(current)
    ensures |current| >= 2 ==> OneMinimal(current, preserves)
    ensures input != [] ==> current != []
  {
    current := input;
    var granularity := 2;
    ghost var at: seq<nat> := seq(|input|, i => i);
    while |current| >= 2
      invariant Embeds(at, current, input)
      invariant current == input || preserves(current)
      invariant granularity >= 2 && (|current| >= 2 ==> granularity <= |current|)
      invariant input != [] ==> current != []
      decreases |current|, |current| - granularity
    {
      var chunk := (|current| + granularity - 1) / granularity;
      CeilingFacts(|current|, granularity);
      var reduced, start, end := TryCuts(current, chunk, preserves);
      if reduced {
        CutEmbeds(at, current, input, start, end);
        at := at[..start] + at[end..];
        current := Without(current, start, end);
        granularity := 2;
      } else {
        if granularity >= |current| {
          break;
        }
        granularity := if granularity * 2 < |current| then granularity * 2 else |current|;
      }
    }
  }
}
