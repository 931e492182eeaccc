/** Integers in bit fields: `integer_from_bytes` and `integer_bytes`. */
module Integers {
  import opened Bytes
  import opened Protocols

  function Pow2(n: nat): (p: nat)
    ensures p > 0
  {
    if n == 0 then 1 else 2 * Pow2(n - 1)
  }

  lemma {:induction false} Pow2Add(a: nat, b: nat)
    ensures Pow2(a + b) == Pow2(a) * Pow2(b)
  {
    if a > 0 {
      Pow2Add(a - 1, b);
      assert Pow2(a + b) == 2 * Pow2(a - 1 + b);
    }
  }

  lemma Pow2Mono(a: nat, b: nat)
    requires a <= b
    ensures Pow2(a) <= Pow2(b)
  {
    Pow2Add(a, b - a);
    Larger(Pow2(a), Pow2(b - a));
  }

  lemma Larger(p: nat, q: nat)
    requires q > 0
    ensures p <= p * q
  {
  }

  lemma Pow2Is256()
    ensures Pow2(8) == 256
  {
    assert Pow2(4) == 16;
    Pow2Add(4, 4);
  }

  lemma Pow2Bytes(n: nat)
    ensures Pow2(8 * (n + 1)) == 256 * Pow2(8 * n)
  {
    Pow2Add(8, 8 * n);
    Pow2Is256();
  }

  // ------------------------------------------------------------------
  // Byte strings as numbers
  // ------------------------------------------------------------------

  function FromBig(bytes: seq<Byte>): nat {
    if bytes == [] then 0 else 256 * FromBig(bytes[..|bytes| - 1]) + bytes[|bytes| - 1]
  }

  function FromLittle(bytes: seq<Byte>): nat {
    if bytes == [] then 0 else 256 * FromLittle(bytes[1..]) + bytes[0]
  }

  function FromBytes(bytes: seq<Byte>, little: bool): nat {
    if little then FromLittle(bytes) else FromBig(bytes)
  }

  function ToBytes(v: nat, n: nat, little: bool): (r: seq<Byte>)
    ensures |r| == n
  {
    if n == 0 then []
    else if little then [v % 256] + ToBytes(v / 256, n - 1, little)
    else ToBytes(v / 256, n - 1, little) + [v % 256]
  }

  lemma {:induction false} BytesBack(v: nat, n: nat, little: bool)
    requires v < Pow2(8 * n)
    ensures FromBytes(ToBytes(v, n, little), little) == v
  {
    if n > 0 {
      Pow2Bytes(n - 1);
      BytesBack(v / 256, n - 1, little);
      var r := ToBytes(v, n, little);
      var rest := ToBytes(v / 256, n - 1, little);
      assert if little then r[1..] == rest else r[..n - 1] == rest;
    }
  }

  lemma {:induction false} BytesBound(bytes: seq<Byte>, little: bool)
    ensures FromBytes(bytes, little) < Pow2(8 * |bytes|)
  {
    if bytes != [] {
      Pow2Bytes(|bytes| - 1);
      BytesBound(if little then bytes[1..] else bytes[..|bytes| - 1], little);
    }
  }

  /** Big-endian: what comes first weighs more. */
  lemma {:induction false} BigIsPositional(a: seq<Byte>, b: seq<Byte>)
    ensures FromBig(a + b) == FromBig(a) * Pow2(8 * |b|) + FromBig(b)
  {
    if b == [] {
      assert a + b == a;
      assert Pow2(0) == 1;
    } else {
      var n := |b| - 1;
      BigIsPositional(a, b[..n]);
      Pow2Bytes(n);
      assert (a + b)[..|a| + n] == a + b[..n];
      Scales(FromBig(a), Pow2(8 * n));
    }
  }

  lemma Scales(x: nat, p: nat)
    ensures x * (256 * p) == 256 * (x * p)
  {
  }

  function Reversed(bytes: seq<Byte>): (r: seq<Byte>)
    ensures |r| == |bytes|
  {
    seq(|bytes|, (k: nat) requires k < |bytes| => bytes[|bytes| - 1 - k])
  }

  /** Little-endian is big-endian back to front. */
  lemma {:induction false} LittleIsReversedBig(bytes: seq<Byte>)
    ensures FromLittle(bytes) == FromBig(Reversed(bytes))
  {
    if bytes != [] {
      LittleIsReversedBig(bytes[1..]);
      var r := Reversed(bytes);
      assert r[..|r| - 1] == Reversed(bytes[1..]);
    }
  }

  // ------------------------------------------------------------------
  // Bit fields
  // ------------------------------------------------------------------

  /** The bits from `n` on, and the bits below `n`. */
  function HighPart(v: nat, n: nat): nat {
    QuotientIsNatural(v, Pow2(n));
    v / Pow2(n)
  }

  lemma QuotientIsNatural(a: nat, d: nat)
    requires d > 0
    ensures a / d >= 0
  {
  }

  function LowPart(v: nat, n: nat): nat {
    v % Pow2(n)
  }

  function Slice(v: nat, bitOffset: nat, bits: nat): nat {
    LowPart(HighPart(v, bitOffset), bits)
  }

  /** A 64-bit shift to the left. */
  function Shifted(v: nat, bitOffset: nat): nat {
    v * Pow2(bitOffset) % Pow2(64)
  }

  function ReadField(bytes: seq<Byte>, little: bool, bitOffset: nat, bits: nat): (r: Option<nat>) {
    if |bytes| > 8 || bits == 0 || bits > 64 then None else Some(Slice(FromBytes(bytes, little), bitOffset, bits))
  }

  function WriteField(v: nat, length: nat, little: bool): (r: Option<seq<Byte>>) {
    if length == 0 || length > 8 || (length < 8 && v >= Pow2(8 * length)) then None else Some(ToBytes(v, length, little))
  }

  /** What is read and written at all: up to eight bytes and 64 bits, and numbers that fit. */
  lemma FieldLimits(bytes: seq<Byte>, little: bool, bitOffset: nat, bits: nat, v: nat, length: nat)
    requires v < Pow2(64)
    ensures ReadField(bytes, little, bitOffset, bits).Some? <==> |bytes| <= 8 && 1 <= bits <= 64
    ensures WriteField(v, length, little).Some? <==> 1 <= length <= 8 && v < Pow2(8 * length)
    ensures Shifted(v, bitOffset) < Pow2(64) && (v * Pow2(bitOffset) < Pow2(64) ==> Shifted(v, bitOffset) == v * Pow2(bitOffset))
  {
    hide Pow2, ToBytes, Slice;
    if v * Pow2(bitOffset) < Pow2(64) {
      Small(v * Pow2(bitOffset), Pow2(64));
    }
  }

  lemma ShiftFits(v: nat, bitOffset: nat, bits: nat, width: nat)
    requires v < Pow2(bits) && bitOffset + bits <= width <= 64
    ensures v * Pow2(bitOffset) < Pow2(width) && Shifted(v, bitOffset) == v * Pow2(bitOffset)
  {
    hide Pow2;
    Pow2Add(bits, bitOffset);
    Pow2Mono(bits + bitOffset, width);
    Pow2Mono(width, 64);
    LessTimes(v, Pow2(bits), Pow2(bitOffset));
    Small(v * Pow2(bitOffset), Pow2(64));
  }

  lemma LessTimes(a: nat, b: nat, c: nat)
    requires a < b && c > 0
    ensures a * c < b * c
  {
  }

  lemma Small(a: nat, m: nat)
    requires a < m
    ensures a % m == a
  {
  }

  lemma TimesBack(a: nat, c: nat)
    requires c > 0
    ensures a * c / c == a
  {
    var x := a * c;
    var q, r := x / c, x % c;
    assert x == q * c + r;
    if q < a {
      Scaled(q + 1, a, c);
    } else if q > a {
      Scaled(a + 1, q, c);
    }
  }

  lemma Scaled(a: nat, b: nat, c: nat)
    requires a <= b
    ensures a * c <= b * c && a * c == (a - 1) * c + c
  {
  }

  /** A value that fits its bits is written and read back unchanged. */
  lemma FieldBack(v: nat, bitOffset: nat, bits: nat, length: nat, little: bool)
    requires v < Pow2(bits) && 1 <= bits <= 64 && 1 <= length <= 8 && bitOffset + bits <= 8 * length
    ensures var w := WriteField(Shifted(v, bitOffset), length, little);
            w.Some? && ReadField(w.value, little, bitOffset, bits) == Some(v)
  {
    hide Pow2, FromBytes, ToBytes;
    ShiftFits(v, bitOffset, bits, 8 * length);
    BytesBack(v * Pow2(bitOffset), length, little);
    TimesBack(v, Pow2(bitOffset));
    Small(v, Pow2(bits));
  }

  /** A number that was written whole is read back whole. */
  lemma WholeBack(v: nat, length: nat, little: bool)
    requires v < Pow2(64) && WriteField(v, length, little).Some?
    ensures var w := WriteField(v, length, little).value;
            |w| == length && ReadField(w, little, 0, 8 * length) == Some(v)
  {
    hide FromBytes, ToBytes;
    BytesBack(v, length, little);
    assert Pow2(0) == 1;
    Small(v, Pow2(8 * length));
  }

  // ------------------------------------------------------------------
  // Two's complement
  // ------------------------------------------------------------------

  function ToSigned(u: nat, bits: nat): int
    requires bits > 0
  {
    if u >= Pow2(bits - 1) then u - Pow2(bits) else u
  }

  function FromSigned(v: int, bits: nat): nat {
    v % Pow2(bits)
  }

  lemma SignedBack(v: int, bits: nat)
    requires bits > 0 && 0 - Pow2(bits - 1) <= v < Pow2(bits - 1)
    ensures FromSigned(v, bits) < Pow2(bits) && ToSigned(FromSigned(v, bits), bits) == v
  {
    var half := Pow2(bits - 1);
    assert Pow2(bits) == 2 * half;
    if v < 0 {
      Wraps(v, 2 * half);
    } else {
      Small(v, 2 * half);
    }
  }

  lemma Wraps(v: int, m: nat)
    requires 0 - m <= v < 0
    ensures v % m == v + m
  {
    Small(v + m, m);
    assert (v + m) % m == v % m;
  }

  // ------------------------------------------------------------------
  // The loop
  // ------------------------------------------------------------------

  method IntegerFromBytes(bytes: seq<Byte>, little: bool, bitOffset: nat, bits: nat) returns (r: Option<nat>)
    ensures r == ReadField(bytes, little, bitOffset, bits)
  {
    if |bytes| > 8 || bits == 0 || bits > 64 {
      return None;
    }
    var value: nat := 0;
    if little {
      var i := |bytes|;
      while i > 0
        invariant 0 <= i <= |bytes| && value == FromLittle(bytes[i..])
      {
        i := i - 1;
        assert bytes[i..][1..] == bytes[i + 1..];
        value := 256 * value + bytes[i];
      }
      assert bytes[0..] == bytes;
    } else {
      var i := 0;
      while i < |bytes|
        invariant 0 <= i <= |bytes| && value == FromBig(bytes[..i])
      {
        assert bytes[..i + 1][..i] == bytes[..i];
        value := 256 * value + bytes[i];
        i := i + 1;
      }
      assert bytes[..i] == bytes;
    }
    r := Some(Slice(value, bitOffset, bits));
  }
}
