/** Bit fields that share their bytes: the encoder merges them with a bitwise or. */
module BitFields {
  import opened Bytes
  import opened Protocols
  import opened Integers
  import opened Schemas
  import opened Codec

  /** Byte by byte. */
  function Merged(a: seq<Byte>, b: seq<Byte>): (r: seq<Byte>)
    requires |a| == |b|
    ensures |r| == |a|
  {
    seq(|a|, (i: nat) requires i < |a| => Or(a[i], b[i]))
  }

  /** What the buffer holds after a narrow field was placed at `at`. */
  lemma PlacedMerges(f: Field, out: seq<Byte>, at: nat, raw: seq<Byte>)
    requires f.bits < f.length * 8 && at + |raw| <= |out|
    ensures |Placed(f, out, at, raw)| == |out|
    ensures Placed(f, out, at, raw)[at..at + |raw|] == Merged(out[at..at + |raw|], raw)
    ensures forall i :: 0 <= i < |out| && !(at <= i < at + |raw|) ==> Placed(f, out, at, raw)[i] == out[i]
  {
    hide Or;
  }

  // ------------------------------------------------------------------
  // The or of two numbers
  // ------------------------------------------------------------------

  lemma OrStep(a: nat, b: nat, n: nat)
    requires n > 0
    ensures OrBits(a, b, n) == 2 * OrBits(a / 2, b / 2, n - 1) + if a % 2 == 1 || b % 2 == 1 then 1 else 0
  {
  }

  lemma HalfParts(a: nat, k: nat)
    requires k > 0
    ensures HighPart(a, k) == HighPart(a / 2, k - 1)
    ensures LowPart(a, k) == 2 * LowPart(a / 2, k - 1) + a % 2
  {
    var h := Pow2(k - 1);
    var x, q, r := a / 2, a / 2 / h, a / 2 % h;
    Division(x, h);
    assert Pow2(k) * q == 2 * (h * q);
    assert a == Pow2(k) * q + (2 * r + a % 2);
    Quotient(q, 2 * r + a % 2, Pow2(k));
  }

  /** An or can be cut at any bit. */
  lemma {:induction false} OrCut(a: nat, b: nat, k: nat, n: nat)
    requires k <= n
    ensures HighPart(OrBits(a, b, n), k) == OrBits(HighPart(a, k), HighPart(b, k), n - k)
    ensures LowPart(OrBits(a, b, n), k) == OrBits(LowPart(a, k), LowPart(b, k), k)
  {
    hide OrBits, HighPart, LowPart;
    if k == 0 {
      PartsAtZero(a);
      PartsAtZero(b);
      PartsAtZero(OrBits(a, b, n));
      OrOfNothing(LowPart(a, 0), LowPart(b, 0));
    } else {
      var whole, rest := OrBits(a, b, n), OrBits(a / 2, b / 2, n - 1);
      var bit := if a % 2 == 1 || b % 2 == 1 then 1 else 0;
      OrStep(a, b, n);
      assert whole / 2 == rest && whole % 2 == bit;
      OrCut(a / 2, b / 2, k - 1, n - 1);
      HalfParts(a, k);
      HalfParts(b, k);
      HalfParts(whole, k);
      assert n - 1 - (k - 1) == n - k;
      LowStep(a, b, k);
    }
  }

  lemma LowStep(a: nat, b: nat, k: nat)
    requires k > 0
    ensures OrBits(LowPart(a, k), LowPart(b, k), k)
         == 2 * OrBits(LowPart(a / 2, k - 1), LowPart(b / 2, k - 1), k - 1) + if a % 2 == 1 || b % 2 == 1 then 1 else 0
  {
    hide OrBits, HighPart, LowPart;
    HalfParts(a, k);
    HalfParts(b, k);
    OrStep(LowPart(a, k), LowPart(b, k), k);
    assert LowPart(a, k) / 2 == LowPart(a / 2, k - 1) && LowPart(a, k) % 2 == a % 2;
    assert LowPart(b, k) / 2 == LowPart(b / 2, k - 1) && LowPart(b, k) % 2 == b % 2;
  }

  lemma PartsAtZero(a: nat)
    ensures HighPart(a, 0) == a && LowPart(a, 0) == 0
  {
    assert Pow2(0) == 1;
  }

  lemma OrOfNothing(a: nat, b: nat)
    ensures OrBits(a, b, 0) == 0
  {
  }

  /** The or of two byte strings is the or of the numbers they spell. */
  lemma {:induction false} MergedNumber(a: seq<Byte>, b: seq<Byte>, little: bool)
    requires |a| == |b|
    ensures FromBytes(Merged(a, b), little) == OrBits(FromBytes(a, little), FromBytes(b, little), 8 * |a|)
  {
    hide Or;
    var n := |a|;
    if n > 0 {
      var r := Merged(a, b);
      if little {
        assert r[1..] == Merged(a[1..], b[1..]);
        MergedNumber(a[1..], b[1..], little);
        OneMoreByte(FromLittle(a[1..]), a[0], FromLittle(b[1..]), b[0], n - 1);
      } else {
        assert r[..n - 1] == Merged(a[..n - 1], b[..n - 1]);
        MergedNumber(a[..n - 1], b[..n - 1], little);
        OneMoreByte(FromBig(a[..n - 1]), a[n - 1], FromBig(b[..n - 1]), b[n - 1], n - 1);
      }
    }
  }

  lemma OneMoreByte(p: nat, q: Byte, r: nat, s: Byte, n: nat)
    ensures OrBits(256 * p + q, 256 * r + s, 8 * (n + 1)) == 256 * OrBits(p, r, 8 * n) + Or(q, s)
  {
    var a, b, k := 256 * p + q, 256 * r + s, 8 * (n + 1);
    hide OrBits, Pow2, LowPart, HighPart;
    ByteParts(p, q);
    ByteParts(r, s);
    OrCut(a, b, 8, k);
    ByteWhole(OrBits(a, b, k));
    assert k - 8 == 8 * n;
  }

  lemma ByteParts(p: nat, q: Byte)
    ensures HighPart(256 * p + q, 8) == p && LowPart(256 * p + q, 8) == q
  {
    Pow2Is256();
  }

  lemma ByteWhole(x: nat)
    ensures x == 256 * HighPart(x, 8) + LowPart(x, 8)
  {
    Pow2Is256();
  }

  // ------------------------------------------------------------------
  // Slices of an or
  // ------------------------------------------------------------------

  /** A slice of an or depends on the two slices only. */
  lemma SliceOfOr(a: nat, b: nat, bitOffset: nat, bits: nat, n: nat)
    requires bitOffset + bits <= n
    ensures Slice(OrBits(a, b, n), bitOffset, bits) == OrBits(Slice(a, bitOffset, bits), Slice(b, bitOffset, bits), bits)
  {
    hide OrBits, HighPart, LowPart;
    OrCut(a, b, bitOffset, n);
    OrCut(HighPart(a, bitOffset), HighPart(b, bitOffset), bits, n - bitOffset);
  }

  lemma Division(a: nat, d: nat)
    requires d > 0
    ensures a == d * (a / d) + a % d && a % d < d
  {
  }

  lemma Quotient(q: nat, r: nat, d: nat)
    requires r < d
    ensures (d * q + r) / d == q && (d * q + r) % d == r
  {
    var x := d * q + r;
    Division(x, d);
    if x / d < q {
      Scaled(x / d + 1, q, d);
    } else if x / d > q {
      Scaled(q + 1, x / d, d);
    }
  }

  lemma SliceBound(v: nat, bitOffset: nat, bits: nat)
    ensures Slice(v, bitOffset, bits) < Pow2(bits)
  {
  }

  /** Two bit ranges without a common bit. */
  predicate Disjoint(o1: nat, b1: nat, o2: nat, b2: nat) {
    o1 + b1 <= o2 || o2 + b2 <= o1
  }

  /** A shifted value is zero outside its own bits. */
  lemma ShiftedElsewhere(v: nat, o1: nat, b1: nat, o2: nat, b2: nat)
    requires v < Pow2(b1) && Disjoint(o1, b1, o2, b2)
    ensures Slice(v * Pow2(o1), o2, b2) == 0
  {
    hide Pow2;
    if o1 + b1 <= o2 {
      Pow2Add(b1, o1);
      Pow2Mono(b1 + o1, o2);
      LessTimes(v, Pow2(b1), Pow2(o1));
      SmallSlice(v * Pow2(o1), Pow2(o2), Pow2(b2));
    } else {
      var gap := o1 - o2 - b2;
      Pow2Add(o2, b2 + gap);
      Pow2Add(b2, gap);
      HighSlice(v, Pow2(o2), Pow2(b2), Pow2(gap));
    }
  }

  lemma SmallSlice(x: nat, d: nat, m: nat)
    requires x < d && m > 0
    ensures x / d % m == 0
  {
    assert x / d == 0;
  }

  lemma HighSlice(v: nat, a: nat, b: nat, c: nat)
    requires a > 0 && b > 0
    ensures v * (a * (b * c)) / a % b == 0
  {
    Rearranged(v, a, b, c);
    Quotient(b * (c * v), 0, a);
    Quotient(c * v, 0, b);
  }

  lemma Rearranged(v: nat, a: nat, b: nat, c: nat)
    ensures v * (a * (b * c)) == a * (b * (c * v))
  {
  }

  /** A field merged into bytes whose bits in its place are clear reads back. */
  lemma MergedFieldReads(have: seq<Byte>, v: nat, bitOffset: nat, bits: nat, little: bool)
    requires 1 <= |have| <= 8 && 1 <= bits <= 64 && bitOffset + bits <= 8 * |have| && v < Pow2(bits)
    requires ReadField(have, little, bitOffset, bits) == Some(0)
    ensures var raw := WriteField(Shifted(v, bitOffset), |have|, little);
            raw.Some? && ReadField(Merged(have, raw.value), little, bitOffset, bits) == Some(v)
  {
    hide Pow2, FromBytes, OrBits, Merged, Slice, WriteField, Shifted;
    FieldBack(v, bitOffset, bits, |have|, little);
    var raw := WriteField(Shifted(v, bitOffset), |have|, little).value;
    WrittenLength(Shifted(v, bitOffset), |have|, little);
    MergedNumber(have, raw, little);
    SliceOfOr(FromBytes(have, little), FromBytes(raw, little), bitOffset, bits, 8 * |have|);
    OrWithZero(v, bits);
  }

  lemma WrittenLength(v: nat, length: nat, little: bool)
    requires WriteField(v, length, little).Some?
    ensures |WriteField(v, length, little).value| == length
  {
  }

  /** And it leaves every field on other bits of the same bytes as it was. */
  lemma MergedFieldKeeps(have: seq<Byte>, v: nat, o1: nat, b1: nat, o2: nat, b2: nat, little: bool)
    requires 1 <= |have| <= 8 && 1 <= b1 <= 64 && o1 + b1 <= 8 * |have| && v < Pow2(b1)
    requires 1 <= b2 <= 64 && o2 + b2 <= 8 * |have| && Disjoint(o1, b1, o2, b2)
    ensures var raw := WriteField(Shifted(v, o1), |have|, little);
            raw.Some? && ReadField(Merged(have, raw.value), little, o2, b2) == ReadField(have, little, o2, b2)
  {
    hide Pow2, FromBytes, OrBits, Merged, Slice, WriteField, Shifted, Disjoint;
    FieldBack(v, o1, b1, |have|, little);
    var raw := WriteField(Shifted(v, o1), |have|, little).value;
    WrittenLength(Shifted(v, o1), |have|, little);
    WrittenNumber(v, o1, b1, |have|, little);
    ShiftedElsewhere(v, o1, b1, o2, b2);
    MergedNumber(have, raw, little);
    SliceOfOr(FromBytes(have, little), FromBytes(raw, little), o2, b2, 8 * |have|);
    SliceBound(FromBytes(have, little), o2, b2);
    OrWithZero(Slice(FromBytes(have, little), o2, b2), b2);
  }

  lemma WrittenNumber(v: nat, bitOffset: nat, bits: nat, length: nat, little: bool)
    requires 1 <= length <= 8 && bitOffset + bits <= 8 * length && v < Pow2(bits)
    ensures var raw := WriteField(Shifted(v, bitOffset), length, little);
            raw.Some? && FromBytes(raw.value, little) == v * Pow2(bitOffset)
  {
    hide Pow2, FromBytes, ToBytes, Shifted;
    ShiftFits(v, bitOffset, bits, 8 * length);
    BytesBack(v * Pow2(bitOffset), length, little);
  }
}
