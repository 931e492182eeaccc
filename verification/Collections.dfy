/** Counting facts about finite sets and duplicate-free sequences. */
module Collections {

  ghost predicate Distinct<T>(s: seq<T>) {
    forall a, b :: 0 <= a < b < |s| ==> s[a] != s[b]
  }

  ghost function Below(n: nat): (r: set<nat>)
    ensures |r| == n
    ensures forall x: nat :: x in r <==> x < n
  {
    if n == 0 then {} else Below(n - 1) + {n - 1}
  }

  lemma {:induction false} SubsetSize<T>(a: set<T>, b: set<T>)
    requires a <= b
    ensures |a| <= |b|
    ensures |a| == |b| ==> a == b
  {
    assert b == a + (b - a);
  }

  lemma {:induction false} ElemsSize<T>(s: seq<T>)
    requires Distinct(s)
    ensures |set x | x in s| == |s|
  {
    if s != [] {
      var init := s[..|s| - 1];
      ElemsSize(init);
      assert (set x | x in s) == (set x | x in init) + {s[|s| - 1]};
    }
  }

  /** Pigeonhole: a duplicate-free list of numbers below `n` has at most `n`
      entries, and with `n` entries it misses none. */
  lemma Pigeonhole(s: seq<nat>, n: nat)
    requires Distinct(s) && forall k :: 0 <= k < |s| ==> s[k] < n
    ensures |s| <= n
    ensures |s| == n ==> forall x: nat :: x < n ==> x in s
  {
    var elems := set x | x in s;
    ElemsSize(s);
    SubsetSize(elems, Below(n));
    if |s| == n {
      forall x: nat | x < n
        ensures x in s
      {
        assert x in Below(n);
        assert x in elems;
      }
    }
  }
}
