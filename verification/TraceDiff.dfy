/** `diffTraces`: the longest-common-subsequence table over event keys and the
    alignment walk. */
module TraceDiff {

  datatype TraceEvent = TraceEvent(role: string, step: string, action: string, ok: bool, detail: string,
                                   wireHex: string, timestamp: int)

  datatype Row =
    | Matched(left: TraceEvent, right: TraceEvent, changed: bool)
    | Added(right: TraceEvent)
    | Removed(left: TraceEvent)

  datatype Diff = Diff(rows: seq<Row>, added: nat, removed: nat, changed: nat)

  datatype Kind = SameRow | ChangedRow | AddedRow | RemovedRow

  function KindOf(row: Row): Kind {
    match row
    case Matched(_, _, changed) => if changed then ChangedRow else SameRow
    case Added(_) => AddedRow
    case Removed(_) => RemovedRow
  }

  type Headers = map<string, string>

  function EventKey(e: TraceEvent): string {
    e.role + "|" + e.step + "|" + e.action
  }

  function HeadersOf(e: TraceEvent, decode: string -> Headers): Headers {
    if e.wireHex == "" then map[] else decode(e.wireHex)
  }

  /** The `changed` test of a matched row. */
  predicate Changed(a: TraceEvent, b: TraceEvent, decode: string -> Headers) {
    || a.ok != b.ok
    || a.detail != b.detail
    || a.wireHex != b.wireHex
    || HeadersOf(a, decode) != HeadersOf(b, decode)
    || b.timestamp - a.timestamp != 0
  }

  // ------------------------------------------------------------------
  // Alignments
  // ------------------------------------------------------------------

  ghost predicate SameKey(l: seq<TraceEvent>, r: seq<TraceEvent>, i: nat, j: nat) {
    i < |l| && j < |r| && EventKey(l[i]) == EventKey(r[j])
  }

  /** An order-preserving pairing of events with equal keys, from `(i, j)` on. */
  ghost predicate IsPairing(l: seq<TraceEvent>, r: seq<TraceEvent>, i: nat, j: nat, ps: seq<(nat, nat)>) {
    && (forall a :: 0 <= a < |ps| ==> i <= ps[a].0 && j <= ps[a].1 && SameKey(l, r, ps[a].0, ps[a].1))
    && forall a, b :: 0 <= a < b < |ps| ==> ps[a].0 < ps[b].0 && ps[a].1 < ps[b].1
  }

  /** The table entry for the suffixes from `(i, j)`. */
  ghost function Best(l: seq<TraceEvent>, r: seq<TraceEvent>, i: nat, j: nat): nat
    decreases |l| - i, |r| - j
  {
    if i >= |l| || j >= |r| then 0
    else if EventKey(l[i]) == EventKey(r[j]) then 1 + Best(l, r, i + 1, j + 1)
    else Larger(Best(l, r, i + 1, j), Best(l, r, i, j + 1))
  }

  function Larger(a: nat, b: nat): nat {
    if a >= b then a else b
  }

  /** No pairing of the suffixes is longer than the table entry. */
  lemma {:induction false} BestIsBound(l: seq<TraceEvent>, r: seq<TraceEvent>, i: nat, j: nat, ps: seq<(nat, nat)>)
    requires IsPairing(l, r, i, j, ps)
    ensures |ps| <= Best(l, r, i, j)
    decreases |l| - i, |r| - j
  {
    if ps != [] {
      assert SameKey(l, r, ps[0].0, ps[0].1);
      if EventKey(l[i]) == EventKey(r[j]) {
        assert IsPairing(l, r, i + 1, j + 1, ps[1..]);
        BestIsBound(l, r, i + 1, j + 1, ps[1..]);
      } else if ps[0].0 > i {
        assert IsPairing(l, r, i + 1, j, ps);
        BestIsBound(l, r, i + 1, j, ps);
      } else {
        assert IsPairing(l, r, i, j + 1, ps);
        BestIsBound(l, r, i, j + 1, ps);
      }
    }
  }

  // ------------------------------------------------------------------
  // Reading an alignment
  // ------------------------------------------------------------------

  function LeftOf(rows: seq<Row>): (r: seq<TraceEvent>) {
    if rows == [] then []
    else LeftOf(rows[..|rows| - 1]) + if rows[|rows| - 1].Added? then [] else [rows[|rows| - 1].left]
  }

  function RightOf(rows: seq<Row>): (r: seq<TraceEvent>) {
    if rows == [] then []
    else RightOf(rows[..|rows| - 1]) + if rows[|rows| - 1].Removed? then [] else [rows[|rows| - 1].right]
  }

  function Count(rows: seq<Row>, kind: Kind): (n: nat) {
    if rows == [] then 0
    else Count(rows[..|rows| - 1], kind) + if KindOf(rows[|rows| - 1]) == kind then 1 else 0
  }

  ghost function MatchedCount(rows: seq<Row>): nat {
    Count(rows, SameRow) + Count(rows, ChangedRow)
  }

  /** The index pairs of the matched rows. */
  ghost function Pairs(rows: seq<Row>): (ps: seq<(nat, nat)>)
    ensures |ps| == MatchedCount(rows)
  {
    if rows == [] then []
    else
      var before := rows[..|rows| - 1];
      Pairs(before) + if rows[|rows| - 1].Matched? then [(|LeftOf(before)|, |RightOf(before)|)] else []
  }

  ghost predicate RowsOk(rows: seq<Row>, decode: string -> Headers) {
    forall k :: 0 <= k < |rows| && rows[k].Matched? ==>
      && EventKey(rows[k].left) == EventKey(rows[k].right)
      && rows[k].changed == Changed(rows[k].left, rows[k].right, decode)
  }

  lemma AppendRow(rows: seq<Row>, row: Row)
    ensures LeftOf(rows + [row]) == LeftOf(rows) + if row.Added? then [] else [row.left]
    ensures RightOf(rows + [row]) == RightOf(rows) + if row.Removed? then [] else [row.right]
    ensures MatchedCount(rows + [row]) == MatchedCount(rows) + if row.Matched? then 1 else 0
  {
    assert (rows + [row])[..|rows|] == rows;
  }

  /** The matches plus the rest account for every event of either trace. */
  lemma {:induction false} Conservation(rows: seq<Row>)
    ensures |LeftOf(rows)| == MatchedCount(rows) + Count(rows, RemovedRow)
    ensures |RightOf(rows)| == MatchedCount(rows) + Count(rows, AddedRow)
  {
    if rows != [] {
      Conservation(rows[..|rows| - 1]);
    }
  }

  /** The matched rows are themselves a pairing of the two traces. */
  lemma {:induction false} RowsPair(rows: seq<Row>, decode: string -> Headers)
    requires RowsOk(rows, decode)
    ensures IsPairing(LeftOf(rows), RightOf(rows), 0, 0, Pairs(rows))
    ensures forall a :: 0 <= a < |Pairs(rows)| ==> Pairs(rows)[a].0 < |LeftOf(rows)| && Pairs(rows)[a].1 < |RightOf(rows)|
  {
    if rows != [] {
      var before, row := rows[..|rows| - 1], rows[|rows| - 1];
      RowsPair(before, decode);
      var l, r := LeftOf(rows), RightOf(rows);
      forall a | 0 <= a < |Pairs(rows)|
        ensures SameKey(l, r, Pairs(rows)[a].0, Pairs(rows)[a].1)
      {
        if a < |Pairs(before)| {
          assert SameKey(LeftOf(before), RightOf(before), Pairs(before)[a].0, Pairs(before)[a].1);
        }
      }
    }
  }

  // ------------------------------------------------------------------
  // The algorithm
  // ------------------------------------------------------------------

  ghost predicate RowFilled(dp: array2<nat>, l: seq<TraceEvent>, r: seq<TraceEvent>, i: nat)
    requires dp.Length0 == |l| + 1 && dp.Length1 == |r| + 1 && i <= |l|
    reads dp
  {
    forall b :: 0 <= b <= |r| ==> dp[i, b] == Best(l, r, i, b)
  }

  method FillTable(l: seq<TraceEvent>, r: seq<TraceEvent>) returns (dp: array2<nat>)
    ensures fresh(dp) && dp.Length0 == |l| + 1 && dp.Length1 == |r| + 1
    ensures forall i :: 0 <= i <= |l| ==> RowFilled(dp, l, r, i)
  {
    dp := new nat[|l| + 1, |r| + 1]((_, _) => 0);
    for i := |l| downto 0
      invariant forall a :: i <= a <= |l| ==> RowFilled(dp, l, r, a)
      invariant forall a, b :: 0 <= a < i && 0 <= b <= |r| ==> dp[a, b] == 0
    {
      label before:
      FillRow(dp, l, r, i);
      forall a | i < a <= |l|
        ensures RowFilled(dp, l, r, a)
      {
        assert old@before(RowFilled(dp, l, r, a));
      }
    }
  }

  method FillRow(dp: array2<nat>, l: seq<TraceEvent>, r: seq<TraceEvent>, i: nat)
    requires dp.Length0 == |l| + 1 && dp.Length1 == |r| + 1 && i < |l|
    requires RowFilled(dp, l, r, i + 1) && dp[i, |r|] == 0
    modifies dp
    ensures RowFilled(dp, l, r, i)
    ensures forall a, b :: 0 <= a <= |l| && 0 <= b <= |r| && a != i ==> dp[a, b] == old(dp[a, b])
  {
    for j := |r| downto 0
      invariant forall b :: j <= b <= |r| ==> dp[i, b] == Best(l, r, i, b)
      invariant forall a, b :: 0 <= a <= |l| && 0 <= b <= |r| && a != i ==> dp[a, b] == old(dp[a, b])
    {
      assert dp[i + 1, j] == Best(l, r, i + 1, j) && dp[i + 1, j + 1] == Best(l, r, i + 1, j + 1);
      dp[i, j] := if EventKey(l[i]) == EventKey(r[j]) then dp[i + 1, j + 1] + 1 else Larger(dp[i + 1, j], dp[i, j + 1]);
    }
  }

  method CountRows(rows: seq<Row>, kind: Kind) returns (n: nat)
    ensures n == Count(rows, kind)
  {
    n := 0;
    for i := 0 to |rows|
      invariant n == Count(rows[..i], kind)
    {
      assert rows[..i + 1][..i] == rows[..i];
      if KindOf(rows[i]) == kind {
        n := n + 1;
      }
    }
    assert rows[..|rows|] == rows;
  }

  function LeftStep(row: Row): nat {
    if row.Added? then 0 else 1
  }

  function RightStep(row: Row): nat {
    if row.Removed? then 0 else 1
  }

  /** The row due at `(i, j)`: a match where the keys agree; else the side is taken whose
      rest pairs at least as well, the right one on a tie. */
  ghost predicate Due(l: seq<TraceEvent>, r: seq<TraceEvent>, i: nat, j: nat, row: Row) {
    && i <= |l| && j <= |r|
    && if SameKey(l, r, i, j) then row.Matched? && row.left == l[i] && row.right == r[j]
       else if j < |r| && (i == |l| || Best(l, r, i, j + 1) >= Best(l, r, i + 1, j)) then row == Added(r[j])
       else i < |l| && row == Removed(l[i])
  }

  /** Every row is the one due where it stands. */
  ghost predicate AllDue(l: seq<TraceEvent>, r: seq<TraceEvent>, rows: seq<Row>) {
    forall k :: 0 <= k < |rows| ==> Due(l, r, |LeftOf(rows[..k])|, |RightOf(rows[..k])|, rows[k])
  }

  lemma OneMoreDue(l: seq<TraceEvent>, r: seq<TraceEvent>, rows: seq<Row>, row: Row)
    requires AllDue(l, r, rows) && Due(l, r, |LeftOf(rows)|, |RightOf(rows)|, row)
    ensures AllDue(l, r, rows + [row])
  {
    hide Due;
    var more := rows + [row];
    forall k | 0 <= k < |more|
      ensures Due(l, r, |LeftOf(more[..k])|, |RightOf(more[..k])|, more[k])
    {
      assert more[..k] == rows[..k];
      assert k == |rows| ==> rows[..k] == rows;
    }
  }

  /** The row for the pair of positions `(i, j)`, one of them not at its end. */
  method NextRow(l: seq<TraceEvent>, r: seq<TraceEvent>, dp: array2<nat>, i: nat, j: nat, decode: string -> Headers)
    returns (row: Row)
    requires dp.Length0 == |l| + 1 && dp.Length1 == |r| + 1 && i <= |l| && j <= |r| && (i < |l| || j < |r|)
    requires forall k :: 0 <= k <= |l| ==> RowFilled(dp, l, r, k)
    ensures i + LeftStep(row) <= |l| && j + RightStep(row) <= |r|
    ensures !row.Added? ==> row.left == l[i]
    ensures !row.Removed? ==> row.right == r[j]
    ensures row.Matched? ==> EventKey(row.left) == EventKey(row.right) && row.changed == Changed(row.left, row.right, decode)
    ensures Best(l, r, i, j) == (if row.Matched? then 1 else 0) + Best(l, r, i + LeftStep(row), j + RightStep(row))
    ensures Due(l, r, i, j, row)
  {
    hide EventKey, Changed;
    assert RowFilled(dp, l, r, i) && (i < |l| ==> RowFilled(dp, l, r, i + 1));
    if i < |l| && j < |r| && EventKey(l[i]) == EventKey(r[j]) {
      row := Matched(l[i], r[j], Changed(l[i], r[j], decode));
    } else if j < |r| && (i == |l| || dp[i, j + 1] >= dp[i + 1, j]) {
      row := Added(r[j]);
    } else {
      row := Removed(l[i]);
    }
  }

  method Align(l: seq<TraceEvent>, r: seq<TraceEvent>, dp: array2<nat>, decode: string -> Headers) returns (rows: seq<Row>)
    requires dp.Length0 == |l| + 1 && dp.Length1 == |r| + 1
    requires forall i :: 0 <= i <= |l| ==> RowFilled(dp, l, r, i)
    ensures LeftOf(rows) == l && RightOf(rows) == r && RowsOk(rows, decode)
    ensures MatchedCount(rows) == Best(l, r, 0, 0) && AllDue(l, r, rows)
  {
    hide EventKey, Changed, Best, RowFilled, Due, AllDue;
    NoneDue(l, r);
    rows := [];
    var i, j := 0, 0;
    while i < |l| || j < |r|
      invariant 0 <= i <= |l| && 0 <= j <= |r|
      invariant LeftOf(rows) == l[..i] && RightOf(rows) == r[..j] && RowsOk(rows, decode)
      invariant MatchedCount(rows) + Best(l, r, i, j) == Best(l, r, 0, 0) && AllDue(l, r, rows)
      decreases |l| - i + |r| - j
    {
      var row := NextRow(l, r, dp, i, j, decode);
      AppendRow(rows, row);
      OneMoreDue(l, r, rows, row);
      rows := rows + [row];
      i, j := i + LeftStep(row), j + RightStep(row);
    }
    NothingLeft(l, r);
  }

  lemma NoneDue(l: seq<TraceEvent>, r: seq<TraceEvent>)
    ensures AllDue(l, r, [])
  {
  }

  lemma NothingLeft(l: seq<TraceEvent>, r: seq<TraceEvent>)
    ensures Best(l, r, |l|, |r|) == 0
  {
  }

  method DiffTraces(l: seq<TraceEvent>, r: seq<TraceEvent>, decode: string -> Headers) returns (d: Diff)
    ensures LeftOf(d.rows) == l && RightOf(d.rows) == r && RowsOk(d.rows, decode)
    ensures d.added == |r| - MatchedCount(d.rows) && d.removed == |l| - MatchedCount(d.rows)
    ensures d.changed == Count(d.rows, ChangedRow) && AllDue(l, r, d.rows)
    ensures IsPairing(l, r, 0, 0, Pairs(d.rows))
    ensures forall ps :: IsPairing(l, r, 0, 0, ps) ==> |ps| <= MatchedCount(d.rows)
  {
    var dp := FillTable(l, r);
    var rows := Align(l, r, dp, decode);
    var added := CountRows(rows, AddedRow);
    var removed := CountRows(rows, RemovedRow);
    var changed := CountRows(rows, ChangedRow);
    Conservation(rows);
    RowsPair(rows, decode);
    d := Diff(rows, added, removed, changed);
    forall ps | IsPairing(l, r, 0, 0, ps)
      ensures |ps| <= MatchedCount(rows)
    {
      BestIsBound(l, r, 0, 0, ps);
    }
  }

  // ------------------------------------------------------------------
  // What a matched row says about its events
  // ------------------------------------------------------------------

  /** Equal keys split alike iff the separators stand at the same places. */
  lemma KeyParts(a: TraceEvent, b: TraceEvent)
    requires EventKey(a) == EventKey(b)
    ensures a.role == b.role && a.step == b.step && a.action == b.action <==> |a.role| == |b.role| && |a.step| == |b.step|
  {
    if |a.role| == |b.role| && |a.step| == |b.step| {
      var k, n, m := EventKey(a), |a.role|, |a.role| + 1 + |a.step|;
      assert k[..n] == a.role && k[..n] == b.role;
      assert k[n + 1..m] == a.step && k[n + 1..m] == b.step;
      assert k[m + 1..] == a.action && k[m + 1..] == b.action;
    }
  }

  /** Without a separator in roles and step names the places are the same. */
  lemma PlainKeysSplitAlike(a: TraceEvent, b: TraceEvent)
    requires EventKey(a) == EventKey(b)
    requires '|' !in a.role && '|' !in b.role && '|' !in a.step && '|' !in b.step
    ensures |a.role| == |b.role| && |a.step| == |b.step|
  {
    var x, y := a.step + "|" + a.action, b.step + "|" + b.action;
    assert EventKey(a) == a.role + "|" + x && EventKey(b) == b.role + "|" + y;
    FirstBar(a.role, b.role, x, y);
    FirstBar(a.step, b.step, a.action, b.action);
  }

  lemma {:induction false} FirstBar(p: string, q: string, x: string, y: string)
    requires p + "|" + x == q + "|" + y && '|' !in p && '|' !in q
    ensures |p| == |q| && x == y
  {
    var s, t := p + "|" + x, q + "|" + y;
    assert s[0] == (if p == "" then '|' else p[0]) && t[0] == (if q == "" then '|' else q[0]);
    if p != "" && q != "" {
      assert s[1..] == p[1..] + "|" + x && t[1..] == q[1..] + "|" + y;
      FirstBar(p[1..], q[1..], x, y);
    } else {
      assert p == "" && q == "";
      assert s[1..] == x && t[1..] == y;
    }
  }

  /** The events of a matched row are equal iff the row is unchanged and their keys
      split alike. */
  lemma UnchangedMeansEqual(a: TraceEvent, b: TraceEvent, decode: string -> Headers)
    requires EventKey(a) == EventKey(b)
    ensures a == b <==> !Changed(a, b, decode) && |a.role| == |b.role| && |a.step| == |b.step|
  {
    KeyParts(a, b);
  }

  /** Keys may split differently: then an unchanged row joins two unlike events. */
  lemma UnlikeEventsMatch(decode: string -> Headers) returns (a: TraceEvent, b: TraceEvent)
    ensures EventKey(a) == EventKey(b) && !Changed(a, b, decode) && a != b
  {
    a := TraceEvent("a|b", "c", "send", true, "", "", 0);
    b := TraceEvent("a", "b|c", "send", true, "", "", 0);
    assert EventKey(a) == "a|b|c|send" == EventKey(b);
  }

  /** A table entry never exceeds the shorter suffix, so that 32 bits hold it for
      every trace an array can hold. */
  lemma {:induction false} EntryFits(l: seq<TraceEvent>, r: seq<TraceEvent>, i: nat, j: nat)
    requires i <= |l| && j <= |r|
    ensures Best(l, r, i, j) <= |l| - i && Best(l, r, i, j) <= |r| - j
    ensures |l| < 0x1_0000_0000 ==> Best(l, r, i, j) < 0x1_0000_0000
    decreases |l| - i, |r| - j
  {
    hide EventKey;
    if i < |l| && j < |r| {
      if EventKey(l[i]) == EventKey(r[j]) {
        EntryFits(l, r, i + 1, j + 1);
      } else {
        EntryFits(l, r, i + 1, j);
        EntryFits(l, r, i, j + 1);
      }
    }
  }
}
