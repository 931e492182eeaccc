/** `reassembleTcpStreams` for the segments of one flow: sort by sequence number,
    then concatenate what each segment adds and note the gaps. */
module Reassembly {
  import opened Bytes

  /** One captured segment; the source drops empty payloads before grouping. */
  datatype Segment = Segment(seqNo: nat, payload: seq<Byte>)

  datatype Gap = Gap(fromSeq: nat, toSeq: nat)

  function End(s: Segment): nat {
    s.seqNo + |s.payload|
  }

  predicate Covers(s: Segment, x: nat) {
    s.seqNo <= x < End(s)
  }

  ghost predicate Covered(segs: seq<Segment>, x: nat) {
    exists k :: 0 <= k < |segs| && Covers(segs[k], x)
  }

  ghost predicate NonEmpty(segs: seq<Segment>) {
    forall k :: 0 <= k < |segs| ==> segs[k].payload != []
  }

  ghost predicate Sorted(segs: seq<Segment>) {
    forall a, b :: 0 <= a < b < |segs| ==> segs[a].seqNo <= segs[b].seqNo
  }

  // ------------------------------------------------------------------
  // The stable sort
  // ------------------------------------------------------------------

  function Insert(s: Segment, segs: seq<Segment>): (r: seq<Segment>) {
    if segs == [] then [s]
    else if s.seqNo <= segs[0].seqNo then [s] + segs
    else [segs[0]] + Insert(s, segs[1..])
  }

  function SortSegments(segs: seq<Segment>): (r: seq<Segment>) {
    if segs == [] then [] else Insert(segs[0], SortSegments(segs[1..]))
  }

  lemma {:induction false} InsertElements(s: Segment, segs: seq<Segment>)
    ensures multiset(Insert(s, segs)) == multiset(segs) + multiset{s}
    ensures forall x :: x in Insert(s, segs) <==> x in segs || x == s
  {
    if segs != [] && segs[0].seqNo < s.seqNo {
      InsertElements(s, segs[1..]);
      assert segs == [segs[0]] + segs[1..];
    }
  }

  lemma {:induction false} InsertSorts(s: Segment, segs: seq<Segment>)
    requires Sorted(segs)
    ensures Sorted(Insert(s, segs))
  {
    if segs != [] && segs[0].seqNo < s.seqNo {
      InsertSorts(s, segs[1..]);
      var rest := Insert(s, segs[1..]);
      InsertElements(s, segs[1..]);
      forall k | 0 <= k < |rest|
        ensures segs[0].seqNo <= rest[k].seqNo
      {
        assert rest[k] in rest;
      }
    }
  }

  lemma {:induction false} SortIsSorted(segs: seq<Segment>)
    ensures Sorted(SortSegments(segs)) && multiset(SortSegments(segs)) == multiset(segs)
  {
    if segs != [] {
      SortIsSorted(segs[1..]);
      InsertSorts(segs[0], SortSegments(segs[1..]));
      InsertElements(segs[0], SortSegments(segs[1..]));
      assert segs == [segs[0]] + segs[1..];
    }
  }

  lemma SameSegments(a: seq<Segment>, b: seq<Segment>)
    requires multiset(a) == multiset(b)
    ensures forall x: nat :: Covered(a, x) <==> Covered(b, x)
    ensures NonEmpty(a) <==> NonEmpty(b)
  {
    SameElements(a, b);
    forall x: nat
      ensures Covered(a, x) <==> Covered(b, x)
    {
      CoveredTransfer(a, b, x);
      CoveredTransfer(b, a, x);
    }
    if NonEmpty(a) {
      forall k | 0 <= k < |b|
        ensures b[k].payload != []
      {
        assert b[k] in a;
      }
    }
    if NonEmpty(b) {
      forall k | 0 <= k < |a|
        ensures a[k].payload != []
      {
        assert a[k] in b;
      }
    }
  }

  lemma CoveredTransfer(a: seq<Segment>, b: seq<Segment>, x: nat)
    requires forall s :: s in a ==> s in b
    ensures Covered(a, x) ==> Covered(b, x)
  {
    if Covered(a, x) {
      var k :| 0 <= k < |a| && Covers(a[k], x);
      assert a[k] in b;
    }
  }

  // ------------------------------------------------------------------
  // What reassembly should yield
  // ------------------------------------------------------------------

  /** The byte at position `x` of the first segment that covers it. */
  function ByteAt(segs: seq<Segment>, x: nat): (r: Byte) {
    if segs == [] then 0
    else if Covers(segs[0], x) then segs[0].payload[x - segs[0].seqNo]
    else ByteAt(segs[1..], x)
  }

  /** Segment `i` covers `x`, and any other that does starts later or, starting at the
      same place, arrived later. */
  ghost predicate Wins(segs: seq<Segment>, i: nat, x: nat) {
    && i < |segs| && Covers(segs[i], x)
    && forall j :: 0 <= j < |segs| && Covers(segs[j], x) ==>
         segs[i].seqNo < segs[j].seqNo || (segs[i].seqNo == segs[j].seqNo && i <= j)
  }

  lemma ByteCons(s: Segment, rest: seq<Segment>, x: nat)
    ensures ByteAt([s] + rest, x) == if Covers(s, x) then s.payload[x - s.seqNo] else ByteAt(rest, x)
  {
    assert ([s] + rest)[1..] == rest;
  }

  ghost predicate NoneBefore(segs: seq<Segment>, s: Segment, x: nat) {
    forall t :: t in segs && Covers(t, x) ==> s.seqNo <= t.seqNo
  }

  lemma {:induction false} InsertByte(s: Segment, segs: seq<Segment>, x: nat)
    requires Sorted(segs)
    ensures ByteAt(Insert(s, segs), x) ==
            if Covers(s, x) && NoneBefore(segs, s, x) then s.payload[x - s.seqNo] else ByteAt(segs, x)
  {
    if segs == [] || s.seqNo <= segs[0].seqNo {
      assert Insert(s, segs) == [s] + segs;
      assert NoneBefore(segs, s, x);
      ByteCons(s, segs, x);
    } else {
      var rest := segs[1..];
      assert segs == [segs[0]] + rest;
      assert Sorted(rest) && Insert(s, segs) == [segs[0]] + Insert(s, rest);
      assert !Covers(segs[0], x) ==> (NoneBefore(segs, s, x) <==> NoneBefore(rest, s, x));
      assert Covers(segs[0], x) ==> !NoneBefore(segs, s, x);
      hide ByteAt, Insert, Sorted, NoneBefore;
      InsertByte(s, rest, x);
      ByteCons(segs[0], rest, x);
      ByteCons(segs[0], Insert(s, rest), x);
    }
  }

  lemma FrontWins(segs: seq<Segment>, x: nat)
    requires segs != [] && Covers(segs[0], x) && NoneBefore(segs[1..], segs[0], x)
    ensures Wins(segs, 0, x)
  {
    assert forall j :: 0 < j < |segs| ==> segs[j] == segs[1..][j - 1] && segs[1..][j - 1] in segs[1..];
  }

  lemma LaterWins(segs: seq<Segment>, k: nat, x: nat)
    requires segs != [] && Wins(segs[1..], k, x) && !(Covers(segs[0], x) && NoneBefore(segs[1..], segs[0], x))
    ensures Wins(segs, k + 1, x) && segs[k + 1] == segs[1..][k]
  {
    assert forall j :: 0 < j < |segs| ==> segs[j] == segs[1..][j - 1];
    if Covers(segs[0], x) {
      var t :| t in segs[1..] && Covers(t, x) && t.seqNo < segs[0].seqNo;
    }
  }

  lemma NoneBeforeSame(a: seq<Segment>, b: seq<Segment>, s: Segment, x: nat)
    requires multiset(a) == multiset(b)
    ensures NoneBefore(a, s, x) <==> NoneBefore(b, s, x)
  {
    SameElements(a, b);
  }

  /** Where segments overlap, the one that starts first has its byte taken, and of those
      that start together the one that arrived first. */
  lemma {:induction false} FirstWins(segs: seq<Segment>, x: nat) returns (i: nat)
    requires Covered(segs, x)
    ensures Wins(segs, i, x) && ByteAt(SortSegments(segs), x) == segs[i].payload[x - segs[i].seqNo]
  {
    var s, rest := segs[0], segs[1..];
    assert segs == [s] + rest;
    var sorted := SortSegments(rest);
    assert SortSegments(segs) == Insert(s, sorted);
    var front := Covers(s, x) && NoneBefore(rest, s, x);
    assert !front ==> Covered(rest, x) by {
      if !Covered(rest, x) {
        assert forall t :: t in rest ==> !Covers(t, x);
      }
    }
    hide ByteAt, Insert, Sorted, Wins, SortSegments, NoneBefore, Covered;
    SortIsSorted(rest);
    NoneBeforeSame(sorted, rest, s, x);
    InsertByte(s, sorted, x);
    if front {
      FrontWins(segs, x);
      i := 0;
    } else {
      var k := FirstWins(rest, x);
      LaterWins(segs, k, x);
      i := k + 1;
    }
  }

  lemma SameElements(a: seq<Segment>, b: seq<Segment>)
    requires multiset(a) == multiset(b)
    ensures forall s :: s in a <==> s in b
  {
    forall s
      ensures s in a <==> s in b
    {
      assert s in multiset(a) <==> s in a;
      assert s in multiset(b) <==> s in b;
    }
  }

  /** The covered positions of `[lo, hi)`, in order, read by `byteAt`. */
  ghost function Collect(segs: seq<Segment>, byteAt: nat -> Byte, lo: nat, hi: nat): (r: seq<Byte>)
    decreases hi
  {
    if hi <= lo then []
    else Collect(segs, byteAt, lo, hi - 1) + if Covered(segs, hi - 1) then [byteAt(hi - 1)] else []
  }

  ghost predicate InGap(gaps: seq<Gap>, x: nat) {
    exists g :: 0 <= g < |gaps| && gaps[g].fromSeq <= x < gaps[g].toSeq
  }

  /** The gaps are exactly the maximal uncovered ranges of `[lo, hi)`, in order. */
  ghost predicate GapsExact(segs: seq<Segment>, gaps: seq<Gap>, lo: nat, hi: nat) {
    && (forall x: nat :: lo <= x < hi ==> (InGap(gaps, x) <==> !Covered(segs, x)))
    && GapsMaximal(segs, gaps, lo, hi)
  }

  ghost predicate GapsMaximal(segs: seq<Segment>, gaps: seq<Gap>, lo: nat, hi: nat) {
    && (forall g :: 0 <= g < |gaps| ==>
          && lo < gaps[g].fromSeq < gaps[g].toSeq < hi
          && Covered(segs, gaps[g].fromSeq - 1) && Covered(segs, gaps[g].toSeq))
    && forall g, h :: 0 <= g < h < |gaps| ==> gaps[g].toSeq < gaps[h].fromSeq
  }

  // ------------------------------------------------------------------
  // Loop lemmas
  // ------------------------------------------------------------------

  /** `next` is the end of everything seen so far. */
  ghost predicate Frontier(segs: seq<Segment>, next: nat) {
    && (forall k :: 0 <= k < |segs| ==> End(segs[k]) <= next)
    && (segs != [] ==> exists k :: 0 <= k < |segs| && End(segs[k]) == next)
  }

  lemma CoveredAppend(segs: seq<Segment>, s: Segment, x: nat)
    ensures Covered(segs + [s], x) <==> Covered(segs, x) || Covers(s, x)
  {
    var segs' := segs + [s];
    if Covered(segs, x) {
      var k :| 0 <= k < |segs| && Covers(segs[k], x);
      assert Covers(segs'[k], x);
    }
    if Covers(s, x) {
      assert Covers(segs'[|segs|], x);
    }
  }

  /** Below the frontier a later segment covers nothing new. */
  lemma NothingNewBelow(segs: seq<Segment>, s: Segment, next: nat, x: nat)
    requires Frontier(segs, next) && Sorted(segs + [s]) && NonEmpty(segs) && x < next && segs != []
    ensures Covered(segs + [s], x) <==> Covered(segs, x)
  {
    CoveredAppend(segs, s, x);
    if Covers(s, x) {
      var k :| 0 <= k < |segs| && End(segs[k]) == next;
      assert (segs + [s])[k].seqNo <= (segs + [s])[|segs|].seqNo;
      assert Covers(segs[k], x);
    }
  }

  lemma {:induction false} ByteAtAppend(segs: seq<Segment>, s: Segment, x: nat)
    ensures Covered(segs, x) ==> ByteAt(segs + [s], x) == ByteAt(segs, x)
    ensures !Covered(segs, x) && Covers(s, x) ==> ByteAt(segs + [s], x) == s.payload[x - s.seqNo]
  {
    if segs != [] {
      assert (segs + [s])[1..] == segs[1..] + [s];
      if !Covers(segs[0], x) {
        ByteAtAppend(segs[1..], s, x);
        if Covered(segs, x) {
          var k :| 0 <= k < |segs| && Covers(segs[k], x);
          assert Covers(segs[1..][k - 1], x);
        }
        if Covered(segs[1..], x) {
          var k :| 0 <= k < |segs| - 1 && Covers(segs[1..][k], x);
          assert Covers(segs[k + 1], x);
        }
      }
    }
  }

  lemma {:induction false} CollectKept(segs: seq<Segment>, s: Segment, next: nat, lo: nat, hi: nat)
    requires Frontier(segs, next) && Sorted(segs + [s]) && NonEmpty(segs) && segs != [] && hi <= next
    ensures Collect(segs + [s], x => ByteAt(segs + [s], x), lo, hi) == Collect(segs, x => ByteAt(segs, x), lo, hi)
    decreases hi
  {
    hide Frontier, Sorted;
    if lo < hi {
      CollectKept(segs, s, next, lo, hi - 1);
      NothingNewBelow(segs, s, next, hi - 1);
      ByteAtAppend(segs, s, hi - 1);
    }
  }

  /** Nothing is covered between the frontier and a later segment's start. */
  lemma {:induction false} CollectGap(segs: seq<Segment>, s: Segment, next: nat, lo: nat, hi: nat)
    requires Frontier(segs, next) && lo <= next <= hi <= s.seqNo
    ensures Collect(segs + [s], x => ByteAt(segs + [s], x), lo, hi)
            == Collect(segs + [s], x => ByteAt(segs + [s], x), lo, next)
    decreases hi
  {
    if next < hi {
      CollectGap(segs, s, next, lo, hi - 1);
      CoveredAppend(segs, s, hi - 1);
    }
  }

  lemma NewPoint(segs: seq<Segment>, s: Segment, next: nat, x: nat)
    requires Frontier(segs, next) && next <= x && Covers(s, x)
    ensures Covered(segs + [s], x) && ByteAt(segs + [s], x) == s.payload[x - s.seqNo]
  {
    CoveredAppend(segs, s, x);
    ByteAtAppend(segs, s, x);
    assert !Covered(segs, x);
  }

  /** From the frontier on, the new segment supplies every byte it covers. */
  lemma {:induction false} CollectNew(segs: seq<Segment>, s: Segment, next: nat, lo: nat, from: nat, hi: nat)
    requires Frontier(segs, next) && lo <= next <= from && s.seqNo <= from <= hi <= End(s)
    ensures Collect(segs + [s], x => ByteAt(segs + [s], x), lo, hi)
            == Collect(segs + [s], x => ByteAt(segs + [s], x), lo, from) + s.payload[from - s.seqNo..hi - s.seqNo]
    decreases hi
  {
    hide ByteAt, Covered, Frontier;
    if from < hi {
      CollectNew(segs, s, next, lo, from, hi - 1);
      NewPoint(segs, s, next, hi - 1);
      var a, b := from - s.seqNo, hi - s.seqNo;
      assert s.payload[a..b] == s.payload[a..b - 1] + [s.payload[b - 1]];
    }
  }

  function Max(a: nat, b: nat): nat {
    if a >= b then a else b
  }

  /** State of the loop after the segments `segs`. */
  ghost predicate LoopState(segs: seq<Segment>, lo: nat, next: nat, bytes: seq<Byte>, gaps: seq<Gap>) {
    && lo <= next
    && Frontier(segs, next)
    && (segs == [] ==> next == lo)
    && (segs != [] ==> segs[0].seqNo == lo < next)
    && bytes == Collect(segs, x => ByteAt(segs, x), lo, next)
    && GapsExact(segs, gaps, lo, next)
  }

  function Added(s: Segment, next: nat): (r: seq<Byte>) {
    var overlap := if next > s.seqNo then next - s.seqNo else 0;
    if overlap <= |s.payload| then s.payload[overlap..] else []
  }

  lemma BytesStep(segs: seq<Segment>, s: Segment, lo: nat, next: nat)
    requires Frontier(segs, next) && Sorted(segs + [s]) && NonEmpty(segs) && lo <= next
    requires segs == [] ==> lo == next == s.seqNo
    ensures Collect(segs + [s], x => ByteAt(segs + [s], x), lo, Max(next, End(s)))
            == Collect(segs, x => ByteAt(segs, x), lo, next) + Added(s, Max(next, s.seqNo))
  {
    hide Sorted, NonEmpty;
    if segs == [] {
      assert Collect(segs + [s], x => ByteAt(segs + [s], x), lo, next) == [];
    } else {
      CollectKept(segs, s, next, lo, next);
    }
    var from := Max(next, s.seqNo);
    if next < s.seqNo {
      CollectGap(segs, s, next, lo, from);
    }
    if from <= End(s) {
      CollectNew(segs, s, next, lo, from, End(s));
      assert s.payload[from - s.seqNo..|s.payload|] == s.payload[from - s.seqNo..];
    }
  }

  lemma FrontierStep(segs: seq<Segment>, s: Segment, next: nat)
    requires Frontier(segs, next) && (segs == [] ==> next == s.seqNo)
    ensures Frontier(segs + [s], Max(next, End(s)))
  {
    var segs' := segs + [s];
    if segs != [] && End(s) < next {
      var k :| 0 <= k < |segs| && End(segs[k]) == next;
      assert End(segs'[k]) == next;
    } else {
      assert End(segs'[|segs|]) == Max(next, End(s));
    }
  }

  lemma GapPoint(segs: seq<Segment>, s: Segment, lo: nat, next: nat, gaps: seq<Gap>, x: nat)
    requires Frontier(segs, next) && Sorted(segs + [s]) && NonEmpty(segs) && lo <= x < Max(next, End(s))
    requires segs == [] ==> lo == next == s.seqNo
    requires GapsExact(segs, gaps, lo, next)
    ensures InGap(if s.seqNo > next then gaps + [Gap(next, s.seqNo)] else gaps, x) <==> !Covered(segs + [s], x)
  {
    InGapAppend(gaps, Gap(next, s.seqNo), x);
    CoveredAppend(segs, s, x);
    hide Sorted, NonEmpty;
    if x < next {
      NothingNewBelow(segs, s, next, x);
    } else {
      assert !Covered(segs, x);
      assert !InGap(gaps, x);
    }
  }

  lemma NewGapEnds(segs: seq<Segment>, s: Segment, next: nat)
    requires Frontier(segs, next) && NonEmpty(segs) && segs != [] && s.payload != []
    ensures next > 0 && Covered(segs + [s], next - 1) && Covered(segs + [s], s.seqNo)
  {
    var k :| 0 <= k < |segs| && End(segs[k]) == next;
    assert Covers(segs[k], next - 1);
    CoveredAppend(segs, s, next - 1);
    CoveredAppend(segs, s, s.seqNo);
  }

  lemma GapsStep(segs: seq<Segment>, s: Segment, lo: nat, next: nat, gaps: seq<Gap>)
    requires Frontier(segs, next) && Sorted(segs + [s]) && NonEmpty(segs) && s.payload != [] && lo <= next
    requires segs == [] ==> lo == next == s.seqNo
    requires segs != [] ==> lo < next
    requires GapsExact(segs, gaps, lo, next)
    ensures GapsExact(segs + [s], if s.seqNo > next then gaps + [Gap(next, s.seqNo)] else gaps, lo, Max(next, End(s)))
  {
    hide Frontier, Sorted, NonEmpty, InGap, Covered, GapsMaximal;
    forall x: nat | lo <= x < Max(next, End(s))
      ensures InGap(if s.seqNo > next then gaps + [Gap(next, s.seqNo)] else gaps, x) <==> !Covered(segs + [s], x)
    {
      GapPoint(segs, s, lo, next, gaps, x);
    }
    MaximalStep(segs, s, lo, next, gaps);
  }

  lemma MaximalStep(segs: seq<Segment>, s: Segment, lo: nat, next: nat, gaps: seq<Gap>)
    requires Frontier(segs, next) && NonEmpty(segs) && s.payload != []
    requires segs == [] ==> next == s.seqNo
    requires segs != [] ==> lo < next
    requires GapsMaximal(segs, gaps, lo, next)
    ensures GapsMaximal(segs + [s], if s.seqNo > next then gaps + [Gap(next, s.seqNo)] else gaps, lo, Max(next, End(s)))
  {
    hide Frontier, NonEmpty, Covered;
    if segs != [] {
      NewGapEnds(segs, s, next);
    }
    forall g | 0 <= g < |gaps|
      ensures Covered(segs + [s], gaps[g].fromSeq - 1) && Covered(segs + [s], gaps[g].toSeq)
    {
      CoveredAppend(segs, s, gaps[g].fromSeq - 1);
      CoveredAppend(segs, s, gaps[g].toSeq);
    }
  }

  lemma InGapAppend(gaps: seq<Gap>, g: Gap, x: nat)
    ensures InGap(gaps + [g], x) <==> InGap(gaps, x) || g.fromSeq <= x < g.toSeq
  {
    var gaps' := gaps + [g];
    if InGap(gaps, x) {
      var k :| 0 <= k < |gaps| && gaps[k].fromSeq <= x < gaps[k].toSeq;
      assert gaps'[k] == gaps[k];
    }
    if g.fromSeq <= x < g.toSeq {
      assert gaps'[|gaps|] == g;
    }
  }

  lemma StepState(segs: seq<Segment>, s: Segment, lo: nat, next: nat, bytes: seq<Byte>, gaps: seq<Gap>)
    requires LoopState(segs, lo, next, bytes, gaps) && Sorted(segs + [s]) && NonEmpty(segs + [s])
    requires segs == [] ==> s.seqNo == lo
    ensures LoopState(segs + [s], lo, Max(next, End(s)), bytes + Added(s, Max(next, s.seqNo)),
                      if s.seqNo > next then gaps + [Gap(next, s.seqNo)] else gaps)
  {
    assert NonEmpty(segs) && s.payload != [] by {
      assert s == (segs + [s])[|segs|];
      assert forall k :: 0 <= k < |segs| ==> (segs + [s])[k] == segs[k];
    }
    hide Frontier, GapsExact, Collect, Sorted, NonEmpty;
    BytesStep(segs, s, lo, next);
    FrontierStep(segs, s, next);
    GapsStep(segs, s, lo, next, gaps);
  }

  datatype Result = Result(bytes: seq<Byte>, gaps: seq<Gap>, first: nat, next: nat)

  /** The reassembled bytes are the covered positions in order, each read from the
      first covering segment in sorted order; the gaps are the maximal uncovered
      ranges between the first and the last covered position. */
  ghost predicate Reassembled(segments: seq<Segment>, r: Result) {
    && (var sorted := SortSegments(segments); r.bytes == Collect(segments, x => ByteAt(sorted, x), r.first, r.next))
    && GapsExact(segments, r.gaps, r.first, r.next)
    && (forall x: nat :: Covered(segments, x) ==> r.first <= x < r.next)
    && (if segments == [] then r.first == r.next == 0
        else r.first < r.next && Covered(segments, r.first) && Covered(segments, r.next - 1))
  }

  method Reassemble(segments: seq<Segment>) returns (r: Result)
    requires NonEmpty(segments)
    ensures Reassembled(segments, r)
  {
    hide LoopState, GapsExact, Covered, Collect, ByteAt, Sorted, NonEmpty, SortSegments;
    var sorted := SortSegments(segments);
    SortIsSorted(segments);
    SameSegments(sorted, segments);
    var bytes: seq<Byte>, gaps: seq<Gap> := [], [];
    var first: nat := if |sorted| > 0 then sorted[0].seqNo else 0;
    var next: nat := first;
    EmptyState(first);
    for k := 0 to |sorted|
      invariant LoopState(sorted[..k], first, next, bytes, gaps)
      invariant k == 0 ==> next == first
    {
      var s := sorted[k];
      assert sorted[..k] + [s] == sorted[..k + 1];
      PrefixFacts(sorted, k + 1);
      StepState(sorted[..k], s, first, next, bytes, gaps);
      if s.seqNo > next {
        gaps := gaps + [Gap(next, s.seqNo)];
        next := s.seqNo;
      }
      bytes := bytes + Added(s, next);
      next := Max(next, End(s));
    }
    assert sorted[..|sorted|] == sorted;
    assert |sorted| == |segments| by {
      assert |multiset(sorted)| == |multiset(segments)|;
    }
    FinalFacts(sorted, segments, first, next, bytes, gaps);
    r := Result(bytes, gaps, first, next);
  }

  lemma EmptyState(first: nat)
    ensures LoopState([], first, first, [], [])
  {
  }

  lemma PrefixFacts(segs: seq<Segment>, k: nat)
    requires k <= |segs| && Sorted(segs) && NonEmpty(segs)
    ensures Sorted(segs[..k]) && NonEmpty(segs[..k])
  {
  }

  lemma FinalFacts(sorted: seq<Segment>, segments: seq<Segment>, first: nat, next: nat, bytes: seq<Byte>, gaps: seq<Gap>)
    requires LoopState(sorted, first, next, bytes, gaps) && Sorted(sorted) && NonEmpty(sorted)
    requires forall x: nat :: Covered(sorted, x) <==> Covered(segments, x)
    ensures bytes == Collect(segments, x => ByteAt(sorted, x), first, next)
    ensures GapsExact(segments, gaps, first, next)
    ensures forall x: nat :: Covered(segments, x) ==> first <= x < next
    ensures sorted != [] ==> first < next && Covered(segments, first) && Covered(segments, next - 1)
  {
    SameCollect(sorted, segments, x => ByteAt(sorted, x), x => ByteAt(sorted, x), first, next);
    forall x: nat | Covered(sorted, x)
      ensures first <= x < next
    {
      var k :| 0 <= k < |sorted| && Covers(sorted[k], x);
    }
    if sorted != [] {
      assert Covers(sorted[0], first);
      var k :| 0 <= k < |sorted| && End(sorted[k]) == next;
      assert Covers(sorted[k], next - 1);
    }
  }

  lemma {:induction false} SameCollect(a: seq<Segment>, b: seq<Segment>, f: nat -> Byte, g: nat -> Byte, lo: nat, hi: nat)
    requires forall x: nat :: Covered(a, x) <==> Covered(b, x)
    requires forall x: nat :: Covered(a, x) ==> f(x) == g(x)
    ensures Collect(a, f, lo, hi) == Collect(b, g, lo, hi)
    decreases hi
  {
    if lo < hi {
      SameCollect(a, b, f, g, lo, hi - 1);
    }
  }

  // ------------------------------------------------------------------
  // Slices of one stream
  // ------------------------------------------------------------------

  ghost predicate SlicesOf(segs: seq<Segment>, stream: nat -> Byte) {
    forall k, i :: 0 <= k < |segs| && 0 <= i < |segs[k].payload| ==> segs[k].payload[i] == stream(segs[k].seqNo + i)
  }

  lemma {:induction false} SlicesAgree(segs: seq<Segment>, stream: nat -> Byte, x: nat)
    requires SlicesOf(segs, stream) && Covered(segs, x)
    ensures ByteAt(segs, x) == stream(x)
  {
    var k :| 0 <= k < |segs| && Covers(segs[k], x);
    if Covers(segs[0], x) {
      assert segs[0].payload[x - segs[0].seqNo] == stream(segs[0].seqNo + (x - segs[0].seqNo));
    } else {
      assert Covers(segs[1..][k - 1], x);
      SlicesAgree(segs[1..], stream, x);
    }
  }

  /** For slices of one stream, duplicated, overlapping and in any arrival order,
      reassembly yields the stream restricted to the covered positions. */
  lemma StreamRestored(segments: seq<Segment>, stream: nat -> Byte, lo: nat, hi: nat)
    requires SlicesOf(segments, stream)
    ensures var sorted := SortSegments(segments);
            Collect(segments, x => ByteAt(sorted, x), lo, hi) == Collect(segments, stream, lo, hi)
  {
    var sorted := SortSegments(segments);
    SortIsSorted(segments);
    SameSegments(sorted, segments);
    SlicesPermute(segments, sorted, stream);
    forall x: nat | Covered(segments, x)
      ensures ByteAt(sorted, x) == stream(x)
    {
      SlicesAgree(sorted, stream, x);
    }
    SameCollect(segments, segments, x => ByteAt(sorted, x), stream, lo, hi);
  }

  // ------------------------------------------------------------------
  // The result is determined by what was captured
  // ------------------------------------------------------------------

  /** A gap of one exact list is in the other. */
  lemma GapIsShared(a: seq<Segment>, b: seq<Segment>, ga: seq<Gap>, gb: seq<Gap>, lo: nat, hi: nat, g: nat)
    requires forall x: nat :: Covered(a, x) <==> Covered(b, x)
    requires GapsExact(a, ga, lo, hi) && GapsExact(b, gb, lo, hi) && g < |ga|
    ensures ga[g] in gb
  {
    hide Covered;
    var f, t := ga[g].fromSeq, ga[g].toSeq;
    var last: nat := f - 1;
    assert InGap(ga, f) && !Covered(b, f);
    assert InGap(gb, f);
    var h :| 0 <= h < |gb| && gb[h].fromSeq <= f < gb[h].toSeq;
    var from, to := gb[h].fromSeq, gb[h].toSeq;
    assert from < f ==> InGap(gb, last);
    assert to > t ==> InGap(gb, t);
    assert to < t ==> InGap(ga, to);
    assert gb[h] == ga[g];
  }

  ghost predicate Rising(gaps: seq<Gap>) {
    forall g, h :: 0 <= g < h < |gaps| ==> gaps[g].fromSeq < gaps[h].fromSeq
  }

  lemma {:induction false} RisingUnique(a: seq<Gap>, b: seq<Gap>)
    requires Rising(a) && Rising(b) && forall x :: x in a <==> x in b
    ensures a == b
  {
    assert b != [] ==> b[0] in b;
    if a != [] {
      assert a[0] in b && b[0] in a;
      var i :| 0 <= i < |a| && a[i] == b[0];
      var j :| 0 <= j < |b| && b[j] == a[0];
      assert i == 0 && j == 0;
      forall x
        ensures x in a[1..] <==> x in b[1..]
      {
        assert a == [a[0]] + a[1..] && b == [b[0]] + b[1..];
        assert x in a <==> x == a[0] || x in a[1..];
        assert x in b <==> x == b[0] || x in b[1..];
        assert a[0] !in a[1..] && b[0] !in b[1..];
      }
      RisingUnique(a[1..], b[1..]);
      assert a == [a[0]] + a[1..] && b == [b[0]] + b[1..];
    }
  }

  lemma GapsUnique(a: seq<Segment>, b: seq<Segment>, ga: seq<Gap>, gb: seq<Gap>, lo: nat, hi: nat)
    requires forall x: nat :: Covered(a, x) <==> Covered(b, x)
    requires GapsExact(a, ga, lo, hi) && GapsExact(b, gb, lo, hi)
    ensures ga == gb
  {
    forall x
      ensures x in ga <==> x in gb
    {
      if x in ga {
        var g :| 0 <= g < |ga| && ga[g] == x;
        GapIsShared(a, b, ga, gb, lo, hi, g);
      }
      if x in gb {
        var g :| 0 <= g < |gb| && gb[g] == x;
        GapIsShared(b, a, gb, ga, lo, hi, g);
      }
    }
    hide Covered;
    RisingUnique(ga, gb);
  }

  /** Arrival order does not matter: two results for the same slices of one stream
      are equal. */
  lemma OrderIrrelevant(a: seq<Segment>, b: seq<Segment>, stream: nat -> Byte, ra: Result, rb: Result)
    requires multiset(a) == multiset(b) && SlicesOf(a, stream)
    requires Reassembled(a, ra) && Reassembled(b, rb)
    ensures ra == rb
  {
    SameSegments(a, b);
    SlicesPermute(a, b, stream);
    SameEmptiness(a, b);
    assert ra.first == rb.first && ra.next == rb.next;
    StreamRestored(a, stream, ra.first, ra.next);
    StreamRestored(b, stream, ra.first, ra.next);
    SameCollect(a, b, stream, stream, ra.first, ra.next);
    GapsUnique(a, b, ra.gaps, rb.gaps, ra.first, ra.next);
  }

  lemma SameEmptiness(a: seq<Segment>, b: seq<Segment>)
    requires multiset(a) == multiset(b)
    ensures a == [] <==> b == []
  {
    assert |multiset(a)| == |a| && |multiset(b)| == |b|;
  }

  lemma SlicesPermute(a: seq<Segment>, b: seq<Segment>, stream: nat -> Byte)
    requires multiset(a) == multiset(b) && SlicesOf(a, stream)
    ensures SlicesOf(b, stream)
  {
    forall k, i | 0 <= k < |b| && 0 <= i < |b[k].payload|
      ensures b[k].payload[i] == stream(b[k].seqNo + i)
    {
      assert b[k] in multiset(a);
      var j :| 0 <= j < |a| && a[j] == b[k];
    }
  }
}
