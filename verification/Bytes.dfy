/** Octets. */
module Bytes {
  type Byte = x: int | 0 <= x < 256

  /** Repeated end-around carry on exact integers: section 1 of RFC 1071. */
  function EndAround(x: nat): (r: nat)
    ensures r <= 0xffff
  {
    if x <= 0xffff then x else EndAround(x % 0x1_0000 + x / 0x1_0000)
  }

  lemma {:induction false} EndAroundParts(x: nat) returns (k: nat)
    ensures x == EndAround(x) + 0xffff * k
    ensures EndAround(x) == 0 ==> x == 0
  {
    if x <= 0xffff {
      k := 0;
    } else {
      var y := x % 0x1_0000 + x / 0x1_0000;
      k := EndAroundParts(y);
      k := k + x / 0x1_0000;
    }
  }

  /** Two sums fold to the same value iff they agree modulo 0xffff and are both
      zero or both not. */
  lemma FoldsEqualIff(x: nat, y: nat)
    ensures EndAround(x) == EndAround(y) <==> x % 0xffff == y % 0xffff && (x == 0 <==> y == 0)
  {
    hide EndAround;
    var i := EndAroundParts(x);
    var j := EndAroundParts(y);
    FoldedZero();
    assert x % 0xffff == EndAround(x) % 0xffff;
    assert y % 0xffff == EndAround(y) % 0xffff;
  }

  lemma FoldedZero()
    ensures EndAround(0) == 0
  {
  }
}
