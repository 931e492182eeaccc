/** The checksums of schema fields: two cyclic redundancy checks and the
    Internet checksum. */
module Crc {
  import opened Bytes

  datatype Algorithm = Crc16 | Crc32 | Internet

  // ------------------------------------------------------------------
  // One bit of the register
  // ------------------------------------------------------------------

  function Step16(x: bv16): bv16 {
    if x & 0x8000 != 0 then (x << 1) ^ 0x1021 else x << 1
  }

  function Step32(x: bv32): bv32 {
    if x & 1 != 0 then (x >> 1) ^ 0xedb8_8320 else x >> 1
  }

  /** The polynomial's odd bit tells which branch was taken, so that a step can
      be taken back. */
  ghost function Undo16(y: bv16): bv16 {
    if y & 1 != 0 then ((y ^ 0x1021) >> 1) | 0x8000 else y >> 1
  }

  ghost function Undo32(y: bv32): bv32 {
    if y & 0x8000_0000 != 0 then ((y ^ 0xedb8_8320) << 1) | 1 else y << 1
  }

  lemma SetBranch16(x: bv16)
    requires x & 0x8000 != 0
    ensures ((x << 1) ^ 0x1021) & 1 != 0 && (((((x << 1) ^ 0x1021) ^ 0x1021) >> 1) | 0x8000) == x
  {
  }

  lemma ClearBranch16(x: bv16)
    requires x & 0x8000 == 0
    ensures (x << 1) & 1 == 0 && (x << 1) >> 1 == x
  {
  }

  lemma SetBranch32(x: bv32)
    requires x & 1 != 0
    ensures ((x >> 1) ^ 0xedb8_8320) & 0x8000_0000 != 0 && (((((x >> 1) ^ 0xedb8_8320) ^ 0xedb8_8320) << 1) | 1) == x
  {
  }

  lemma ClearBranch32(x: bv32)
    requires x & 1 == 0
    ensures (x >> 1) & 0x8000_0000 == 0 && (x >> 1) << 1 == x
  {
  }

  lemma StepCases16(x: bv16)
    ensures Step16(x) == if x & 0x8000 != 0 then (x << 1) ^ 0x1021 else x << 1
  {
  }

  lemma UndoCases16(y: bv16)
    ensures Undo16(y) == if y & 1 != 0 then ((y ^ 0x1021) >> 1) | 0x8000 else y >> 1
  {
  }

  lemma UndoneStep16(x: bv16)
    ensures Undo16(Step16(x)) == x
  {
    StepCases16(x);
    UndoCases16(Step16(x));
    hide Step16, Undo16;
    if x & 0x8000 != 0 {
      SetBranch16(x);
    } else {
      ClearBranch16(x);
    }
  }

  lemma StepCases32(x: bv32)
    ensures Step32(x) == if x & 1 != 0 then (x >> 1) ^ 0xedb8_8320 else x >> 1
  {
  }

  lemma UndoCases32(y: bv32)
    ensures Undo32(y) == if y & 0x8000_0000 != 0 then ((y ^ 0xedb8_8320) << 1) | 1 else y << 1
  {
  }

  lemma UndoneStep32(x: bv32)
    ensures Undo32(Step32(x)) == x
  {
    StepCases32(x);
    UndoCases32(Step32(x));
    hide Step32, Undo32;
    if x & 1 != 0 {
      SetBranch32(x);
    } else {
      ClearBranch32(x);
    }
  }

  function Steps16(x: bv16, n: nat): bv16 {
    if n == 0 then x else Step16(Steps16(x, n - 1))
  }

  function Steps32(x: bv32, n: nat): bv32 {
    if n == 0 then x else Step32(Steps32(x, n - 1))
  }

  lemma {:induction false} StepsInjective16(x: bv16, y: bv16, n: nat)
    requires x != y
    ensures Steps16(x, n) != Steps16(y, n)
  {
    hide Step16, Undo16;
    if n > 0 {
      StepsInjective16(x, y, n - 1);
      UndoneStep16(Steps16(x, n - 1));
      UndoneStep16(Steps16(y, n - 1));
    }
  }

  lemma {:induction false} StepsInjective32(x: bv32, y: bv32, n: nat)
    requires x != y
    ensures Steps32(x, n) != Steps32(y, n)
  {
    hide Step32, Undo32;
    if n > 0 {
      StepsInjective32(x, y, n - 1);
      UndoneStep32(Steps32(x, n - 1));
      UndoneStep32(Steps32(y, n - 1));
    }
  }

  // ------------------------------------------------------------------
  // One byte
  // ------------------------------------------------------------------

  function Pack(b7: bool, b6: bool, b5: bool, b4: bool, b3: bool, b2: bool, b1: bool, b0: bool): bv8 {
    (if b7 then 0x80 else 0) | (if b6 then 0x40 else 0) | (if b5 then 0x20 else 0) | (if b4 then 0x10 else 0)
    | (if b3 then 8 else 0) | (if b2 then 4 else 0) | (if b1 then 2 else 0) | (if b0 then 1 else 0)
  }

  function Halved(b: Byte, n: nat): nat {
    if n == 0 then b else Halved(b, n - 1) / 2
  }

  predicate BitOf(b: Byte, n: nat) {
    Halved(b, n) % 2 == 1
  }

  /** A byte as a register. */
  function Bits(b: Byte): bv8 {
    Pack(BitOf(b, 7), BitOf(b, 6), BitOf(b, 5), BitOf(b, 4), BitOf(b, 3), BitOf(b, 2), BitOf(b, 1), BitOf(b, 0))
  }

  function Mixed16(crc: bv16, b: bv8): bv16 {
    crc ^ ((b as bv16) << 8)
  }

  function Mixed32(crc: bv32, b: bv8): bv32 {
    crc ^ (b as bv32)
  }

  function Byte16(crc: bv16, b: Byte): bv16 {
    Steps16(Mixed16(crc, Bits(b)), 8)
  }

  function Byte32(crc: bv32, b: Byte): bv32 {
    Steps32(Mixed32(crc, Bits(b)), 8)
  }

  lemma Unpack(b7: bool, b6: bool, b5: bool, b4: bool, b3: bool, b2: bool, b1: bool, b0: bool)
    ensures var p := Pack(b7, b6, b5, b4, b3, b2, b1, b0);
            && (p & 0x80 != 0) == b7 && (p & 0x40 != 0) == b6 && (p & 0x20 != 0) == b5 && (p & 0x10 != 0) == b4
            && (p & 8 != 0) == b3 && (p & 4 != 0) == b2 && (p & 2 != 0) == b1 && (p & 1 != 0) == b0
  {
  }

  lemma BitsUnpacked(b: Byte)
    ensures (Bits(b) & 0x80 != 0) == BitOf(b, 7) && (Bits(b) & 0x40 != 0) == BitOf(b, 6)
    ensures (Bits(b) & 0x20 != 0) == BitOf(b, 5) && (Bits(b) & 0x10 != 0) == BitOf(b, 4)
    ensures (Bits(b) & 8 != 0) == BitOf(b, 3) && (Bits(b) & 4 != 0) == BitOf(b, 2)
    ensures (Bits(b) & 2 != 0) == BitOf(b, 1) && (Bits(b) & 1 != 0) == BitOf(b, 0)
  {
    hide Pack, BitOf;
    Unpack(BitOf(b, 7), BitOf(b, 6), BitOf(b, 5), BitOf(b, 4), BitOf(b, 3), BitOf(b, 2), BitOf(b, 1), BitOf(b, 0));
  }

  /** The number the bits from `n` on spell. */
  ghost function Spelled(b: Byte, n: nat): nat
    requires n <= 8
    decreases 8 - n
  {
    if n == 8 then 0 else 2 * Spelled(b, n + 1) + if BitOf(b, n) then 1 else 0
  }

  lemma {:induction false} HalvedIsSpelled(b: Byte, n: nat)
    requires n <= 8
    ensures Halved(b, 8) == 0 ==> Halved(b, n) == Spelled(b, n)
    decreases 8 - n
  {
    if n < 8 {
      HalvedIsSpelled(b, n + 1);
      assert Halved(b, n + 1) == Halved(b, n) / 2;
    }
  }

  lemma {:induction false} HalvedBound(b: Byte, n: nat, bound: nat)
    requires Halved(b, n) < 2 * bound
    ensures Halved(b, n + 1) < bound
  {
  }

  lemma SpelledWhole(b: Byte)
    ensures b == Spelled(b, 0)
  {
    hide Spelled;
    HalvedBound(b, 0, 128);
    HalvedBound(b, 1, 64);
    HalvedBound(b, 2, 32);
    HalvedBound(b, 3, 16);
    HalvedBound(b, 4, 8);
    HalvedBound(b, 5, 4);
    HalvedBound(b, 6, 2);
    HalvedBound(b, 7, 1);
    HalvedIsSpelled(b, 0);
  }

  lemma {:induction false} SameSpelling(a: Byte, b: Byte, n: nat)
    requires n <= 8 && forall i: nat :: n <= i < 8 ==> BitOf(a, i) == BitOf(b, i)
    ensures Spelled(a, n) == Spelled(b, n)
    decreases 8 - n
  {
    hide BitOf;
    if n < 8 {
      SameSpelling(a, b, n + 1);
    }
  }

  lemma BitsInjective(a: Byte, b: Byte)
    requires a != b
    ensures Bits(a) != Bits(b)
  {
    SpelledWhole(a);
    SpelledWhole(b);
    BitsUnpacked(a);
    BitsUnpacked(b);
    hide Bits, BitOf, Spelled;
    if Bits(a) == Bits(b) {
      forall i: nat | i < 8
        ensures BitOf(a, i) == BitOf(b, i)
      {
        assert i == 0 || i == 1 || i == 2 || i == 3 || i == 4 || i == 5 || i == 6 || i == 7;
      }
      SameSpelling(a, b, 0);
    }
  }

  lemma RegisterMatters16(c: bv16, d: bv16, b: bv8)
    requires c != d
    ensures Mixed16(c, b) != Mixed16(d, b)
  {
  }

  lemma ByteMatters16(c: bv16, a: bv8, b: bv8)
    requires a != b
    ensures Mixed16(c, a) != Mixed16(c, b)
  {
  }

  lemma RegisterMatters32(c: bv32, d: bv32, b: bv8)
    requires c != d
    ensures Mixed32(c, b) != Mixed32(d, b)
  {
  }

  lemma ByteMatters32(c: bv32, a: bv8, b: bv8)
    requires a != b
    ensures Mixed32(c, a) != Mixed32(c, b)
  {
  }

  /** For a fixed byte the register moves injectively; for a fixed register so
      does the byte. */
  lemma ByteInjective16(c: bv16, d: bv16, a: Byte, b: Byte)
    ensures c != d ==> Byte16(c, a) != Byte16(d, a)
    ensures a != b ==> Byte16(c, a) != Byte16(c, b)
  {
    hide Steps16, Bits, Mixed16;
    if c != d {
      RegisterMatters16(c, d, Bits(a));
      StepsInjective16(Mixed16(c, Bits(a)), Mixed16(d, Bits(a)), 8);
    }
    if a != b {
      BitsInjective(a, b);
      ByteMatters16(c, Bits(a), Bits(b));
      StepsInjective16(Mixed16(c, Bits(a)), Mixed16(c, Bits(b)), 8);
    }
  }

  lemma ByteInjective32(c: bv32, d: bv32, a: Byte, b: Byte)
    ensures c != d ==> Byte32(c, a) != Byte32(d, a)
    ensures a != b ==> Byte32(c, a) != Byte32(c, b)
  {
    hide Steps32, Bits, Mixed32;
    if c != d {
      RegisterMatters32(c, d, Bits(a));
      StepsInjective32(Mixed32(c, Bits(a)), Mixed32(d, Bits(a)), 8);
    }
    if a != b {
      BitsInjective(a, b);
      ByteMatters32(c, Bits(a), Bits(b));
      StepsInjective32(Mixed32(c, Bits(a)), Mixed32(c, Bits(b)), 8);
    }
  }

  // ------------------------------------------------------------------
  // Whole messages
  // ------------------------------------------------------------------

  function Register16(bytes: seq<Byte>): bv16 {
    if bytes == [] then 0xffff else Byte16(Register16(bytes[..|bytes| - 1]), bytes[|bytes| - 1])
  }

  function Register32(bytes: seq<Byte>): bv32 {
    if bytes == [] then 0xffff_ffff else Byte32(Register32(bytes[..|bytes| - 1]), bytes[|bytes| - 1])
  }

  /** The padded big-endian words, summed. */
  function WordSum(bytes: seq<Byte>): nat
    decreases |bytes|
  {
    if bytes == [] then 0
    else if |bytes| % 2 == 1 then WordSum(bytes[..|bytes| - 1]) + 256 * (bytes[|bytes| - 1] as int)
    else WordSum(bytes[..|bytes| - 2]) + 256 * (bytes[|bytes| - 2] as int) + bytes[|bytes| - 1]
  }

  /** The number a sequence of binary digits spells, the highest first. */
  function BinaryNumber(bits: seq<bool>): (n: nat) {
    if bits == [] then 0 else 2 * BinaryNumber(bits[..|bits| - 1]) + if bits[|bits| - 1] then 1 else 0
  }

  /** The bit of weight 2^i. */
  function Mask16(i: nat): bv16
    requires i < 16
  {
    match i
    case 0 => 0x1 case 1 => 0x2 case 2 => 0x4 case 3 => 0x8
    case 4 => 0x10 case 5 => 0x20 case 6 => 0x40 case 7 => 0x80
    case 8 => 0x100 case 9 => 0x200 case 10 => 0x400 case 11 => 0x800
    case 12 => 0x1000 case 13 => 0x2000 case 14 => 0x4000 case _ => 0x8000
  }

  function Mask32(i: nat): bv32
    requires i < 32
  {
    match i
    case 0 => 0x1 case 1 => 0x2 case 2 => 0x4 case 3 => 0x8
    case 4 => 0x10 case 5 => 0x20 case 6 => 0x40 case 7 => 0x80
    case 8 => 0x100 case 9 => 0x200 case 10 => 0x400 case 11 => 0x800
    case 12 => 0x1000 case 13 => 0x2000 case 14 => 0x4000 case 15 => 0x8000
    case 16 => 0x0001_0000 case 17 => 0x0002_0000 case 18 => 0x0004_0000 case 19 => 0x0008_0000
    case 20 => 0x0010_0000 case 21 => 0x0020_0000 case 22 => 0x0040_0000 case 23 => 0x0080_0000
    case 24 => 0x0100_0000 case 25 => 0x0200_0000 case 26 => 0x0400_0000 case 27 => 0x0800_0000
    case 28 => 0x1000_0000 case 29 => 0x2000_0000 case 30 => 0x4000_0000 case _ => 0x8000_0000
  }

  predicate Has16(x: bv16, i: nat)
    requires i < 16
  {
    x & Mask16(i) != 0
  }

  function Digits16(x: bv16): (bits: seq<bool>)
    ensures |bits| == 16
  {
    seq(16, i requires 0 <= i < 16 => Has16(x, 15 - i))
  }

  predicate Has32(x: bv32, i: nat)
    requires i < 32
  {
    x & Mask32(i) != 0
  }

  function Digits32(x: bv32): (bits: seq<bool>)
    ensures |bits| == 32
  {
    seq(32, i requires 0 <= i < 32 => Has32(x, 31 - i))
  }

  function Number16(x: bv16): nat {
    BinaryNumber(Digits16(x))
  }

  function Number32(x: bv32): nat {
    BinaryNumber(Digits32(x))
  }

  function Checksum(algorithm: Algorithm, bytes: seq<Byte>): (c: nat) {
    match algorithm
    case Crc16 => Number16(Register16(bytes))
    case Crc32 => Number32(!Register32(bytes))
    case Internet => 0xffff - EndAround(WordSum(bytes))
  }

  /** Two messages of one length that differ in exactly the byte at `k`. */
  ghost predicate DifferAt(a: seq<Byte>, b: seq<Byte>, k: nat) {
    |a| == |b| && k < |a| && a[k] != b[k] && forall i :: 0 <= i < |a| && i != k ==> a[i] == b[i]
  }

  lemma {:induction false} RegistersDiffer16(a: seq<Byte>, b: seq<Byte>, k: nat)
    requires DifferAt(a, b, k)
    ensures Register16(a) != Register16(b)
  {
    hide Byte16;
    var n := |a| - 1;
    if k == n {
      assert a[..n] == b[..n];
      ByteInjective16(Register16(a[..n]), Register16(b[..n]), a[n], b[n]);
    } else {
      RegistersDiffer16(a[..n], b[..n], k);
      ByteInjective16(Register16(a[..n]), Register16(b[..n]), a[n], b[n]);
    }
  }

  lemma {:induction false} RegistersDiffer32(a: seq<Byte>, b: seq<Byte>, k: nat)
    requires DifferAt(a, b, k)
    ensures Register32(a) != Register32(b)
  {
    hide Byte32;
    var n := |a| - 1;
    if k == n {
      assert a[..n] == b[..n];
      ByteInjective32(Register32(a[..n]), Register32(b[..n]), a[n], b[n]);
    } else {
      RegistersDiffer32(a[..n], b[..n], k);
      ByteInjective32(Register32(a[..n]), Register32(b[..n]), a[n], b[n]);
    }
  }

  lemma {:induction false} BinaryInjective(a: seq<bool>, b: seq<bool>)
    requires |a| == |b| && a != b
    ensures BinaryNumber(a) != BinaryNumber(b)
    decreases |a|
  {
    var n := |a| - 1;
    if a[..n] != b[..n] {
      BinaryInjective(a[..n], b[..n]);
    } else {
      assert a == a[..n] + [a[n]] && b == b[..n] + [b[n]];
    }
  }

  lemma SameBits16(x: bv16, y: bv16)
    requires (x & 0x1 != 0) == (y & 0x1 != 0)
    requires (x & 0x2 != 0) == (y & 0x2 != 0)
    requires (x & 0x4 != 0) == (y & 0x4 != 0)
    requires (x & 0x8 != 0) == (y & 0x8 != 0)
    requires (x & 0x10 != 0) == (y & 0x10 != 0)
    requires (x & 0x20 != 0) == (y & 0x20 != 0)
    requires (x & 0x40 != 0) == (y & 0x40 != 0)
    requires (x & 0x80 != 0) == (y & 0x80 != 0)
    requires (x & 0x100 != 0) == (y & 0x100 != 0)
    requires (x & 0x200 != 0) == (y & 0x200 != 0)
    requires (x & 0x400 != 0) == (y & 0x400 != 0)
    requires (x & 0x800 != 0) == (y & 0x800 != 0)
    requires (x & 0x1000 != 0) == (y & 0x1000 != 0)
    requires (x & 0x2000 != 0) == (y & 0x2000 != 0)
    requires (x & 0x4000 != 0) == (y & 0x4000 != 0)
    requires (x & 0x8000 != 0) == (y & 0x8000 != 0)
    ensures x == y
  {
  }

  lemma SameDigit16(x: bv16, y: bv16, i: nat)
    requires i < 16 && Digits16(x) == Digits16(y)
    ensures (x & Mask16(i) != 0) == (y & Mask16(i) != 0)
  {
    assert Has16(x, i) == (x & Mask16(i) != 0) && Has16(y, i) == (y & Mask16(i) != 0);
    hide Has16, Mask16;
    assert Digits16(x)[15 - i] == Digits16(y)[15 - i];
  }

  lemma NumberInjective16(x: bv16, y: bv16)
    requires x != y
    ensures Number16(x) != Number16(y)
  {
    hide BinaryNumber, Digits16;
    if Digits16(x) == Digits16(y) {
      SameDigit16(x, y, 0); SameDigit16(x, y, 1); SameDigit16(x, y, 2); SameDigit16(x, y, 3);
      SameDigit16(x, y, 4); SameDigit16(x, y, 5); SameDigit16(x, y, 6); SameDigit16(x, y, 7);
      SameDigit16(x, y, 8); SameDigit16(x, y, 9); SameDigit16(x, y, 10); SameDigit16(x, y, 11);
      SameDigit16(x, y, 12); SameDigit16(x, y, 13); SameDigit16(x, y, 14); SameDigit16(x, y, 15);
      SameBits16(x, y);
    } else {
      BinaryInjective(Digits16(x), Digits16(y));
    }
  }

  lemma SameBits32(x: bv32, y: bv32)
    requires (x & 0x1 != 0) == (y & 0x1 != 0)
    requires (x & 0x2 != 0) == (y & 0x2 != 0)
    requires (x & 0x4 != 0) == (y & 0x4 != 0)
    requires (x & 0x8 != 0) == (y & 0x8 != 0)
    requires (x & 0x10 != 0) == (y & 0x10 != 0)
    requires (x & 0x20 != 0) == (y & 0x20 != 0)
    requires (x & 0x40 != 0) == (y & 0x40 != 0)
    requires (x & 0x80 != 0) == (y & 0x80 != 0)
    requires (x & 0x100 != 0) == (y & 0x100 != 0)
    requires (x & 0x200 != 0) == (y & 0x200 != 0)
    requires (x & 0x400 != 0) == (y & 0x400 != 0)
    requires (x & 0x800 != 0) == (y & 0x800 != 0)
    requires (x & 0x1000 != 0) == (y & 0x1000 != 0)
    requires (x & 0x2000 != 0) == (y & 0x2000 != 0)
    requires (x & 0x4000 != 0) == (y & 0x4000 != 0)
    requires (x & 0x8000 != 0) == (y & 0x8000 != 0)
    requires (x & 0x0001_0000 != 0) == (y & 0x0001_0000 != 0)
    requires (x & 0x0002_0000 != 0) == (y & 0x0002_0000 != 0)
    requires (x & 0x0004_0000 != 0) == (y & 0x0004_0000 != 0)
    requires (x & 0x0008_0000 != 0) == (y & 0x0008_0000 != 0)
    requires (x & 0x0010_0000 != 0) == (y & 0x0010_0000 != 0)
    requires (x & 0x0020_0000 != 0) == (y & 0x0020_0000 != 0)
    requires (x & 0x0040_0000 != 0) == (y & 0x0040_0000 != 0)
    requires (x & 0x0080_0000 != 0) == (y & 0x0080_0000 != 0)
    requires (x & 0x0100_0000 != 0) == (y & 0x0100_0000 != 0)
    requires (x & 0x0200_0000 != 0) == (y & 0x0200_0000 != 0)
    requires (x & 0x0400_0000 != 0) == (y & 0x0400_0000 != 0)
    requires (x & 0x0800_0000 != 0) == (y & 0x0800_0000 != 0)
    requires (x & 0x1000_0000 != 0) == (y & 0x1000_0000 != 0)
    requires (x & 0x2000_0000 != 0) == (y & 0x2000_0000 != 0)
    requires (x & 0x4000_0000 != 0) == (y & 0x4000_0000 != 0)
    requires (x & 0x8000_0000 != 0) == (y & 0x8000_0000 != 0)
    ensures x == y
  {
  }

  lemma SameDigit32(x: bv32, y: bv32, i: nat)
    requires i < 32 && Digits32(x) == Digits32(y)
    ensures (x & Mask32(i) != 0) == (y & Mask32(i) != 0)
  {
    assert Has32(x, i) == (x & Mask32(i) != 0) && Has32(y, i) == (y & Mask32(i) != 0);
    hide Has32, Mask32;
    assert Digits32(x)[31 - i] == Digits32(y)[31 - i];
  }

  lemma NumberInjective32(x: bv32, y: bv32)
    requires x != y
    ensures Number32(x) != Number32(y)
  {
    hide BinaryNumber, Digits32;
    if Digits32(x) == Digits32(y) {
      SameDigit32(x, y, 0); SameDigit32(x, y, 1); SameDigit32(x, y, 2); SameDigit32(x, y, 3);
      SameDigit32(x, y, 4); SameDigit32(x, y, 5); SameDigit32(x, y, 6); SameDigit32(x, y, 7);
      SameDigit32(x, y, 8); SameDigit32(x, y, 9); SameDigit32(x, y, 10); SameDigit32(x, y, 11);
      SameDigit32(x, y, 12); SameDigit32(x, y, 13); SameDigit32(x, y, 14); SameDigit32(x, y, 15);
      SameDigit32(x, y, 16); SameDigit32(x, y, 17); SameDigit32(x, y, 18); SameDigit32(x, y, 19);
      SameDigit32(x, y, 20); SameDigit32(x, y, 21); SameDigit32(x, y, 22); SameDigit32(x, y, 23);
      SameDigit32(x, y, 24); SameDigit32(x, y, 25); SameDigit32(x, y, 26); SameDigit32(x, y, 27);
      SameDigit32(x, y, 28); SameDigit32(x, y, 29); SameDigit32(x, y, 30); SameDigit32(x, y, 31);
      SameBits32(x, y);
    } else {
      BinaryInjective(Digits32(x), Digits32(y));
    }
  }

  lemma Not32(x: bv32, y: bv32)
    requires x != y
    ensures !x != !y
  {
  }

  /** A byte weighs 256 at an even place and 1 at an odd one. */
  lemma {:induction false} SumsDiffer(a: seq<Byte>, b: seq<Byte>, k: nat)
    requires DifferAt(a, b, k)
    ensures WordSum(b) - WordSum(a) == (if k % 2 == 0 then 256 else 1) * ((b[k] as int) - (a[k] as int))
    decreases |a|
  {
    var n := |a|;
    var m := if n % 2 == 1 then n - 1 else n - 2;
    if k < m {
      SumsDiffer(a[..m], b[..m], k);
    } else {
      assert a[..m] == b[..m];
    }
  }

  /** Equal Internet checksums, exactly: the word sums agree modulo 0xffff and are
      both zero or both not. */
  lemma InternetEqualIff(a: seq<Byte>, b: seq<Byte>)
    ensures Checksum(Internet, a) == Checksum(Internet, b)
       <==> WordSum(a) % 0xffff == WordSum(b) % 0xffff && (WordSum(a) == 0 <==> WordSum(b) == 0)
  {
    FoldsEqualIff(WordSum(a), WordSum(b));
  }

  /** A change of any one byte of a message of any length changes its checksum,
      whichever of the three it is. */
  lemma ByteChangeDetected(algorithm: Algorithm, a: seq<Byte>, b: seq<Byte>, k: nat)
    requires DifferAt(a, b, k)
    ensures Checksum(algorithm, a) != Checksum(algorithm, b)
  {
    hide Register16, Register32, Number16, Number32;
    match algorithm
    case Crc16 =>
      RegistersDiffer16(a, b, k);
      NumberInjective16(Register16(a), Register16(b));
    case Crc32 =>
      RegistersDiffer32(a, b, k);
      Not32(Register32(a), Register32(b));
      NumberInjective32(!Register32(a), !Register32(b));
    case Internet =>
      hide Checksum, WordSum;
      SumsDiffer(a, b, k);
      InternetEqualIff(a, b);
      Incongruent(WordSum(a), WordSum(b));
  }

  lemma Incongruent(x: nat, y: nat)
    requires x != y && -0xffff < x - y < 0xffff
    ensures x % 0xffff != y % 0xffff
  {
  }

  lemma SmallWords(x: Byte, y: Byte)
    ensures WordSum([]) == 0 && WordSum([x]) == 256 * x && WordSum([x, y]) == 256 * x + y
  {
    var one, two := [x], [x, y];
    assert one[..0] == [] && two[..0] == [];
  }

  /** With the small cases: big-endian words from the front, the last byte of an odd
      message being a high byte. */
  lemma {:induction false} WordsAdd(a: seq<Byte>, b: seq<Byte>)
    requires |a| % 2 == 0
    ensures WordSum(a + b) == WordSum(a) + WordSum(b)
    decreases |b|
  {
    hide WordSum;
    if b == [] {
      assert a + b == a;
      SmallWords(0, 0);
    } else {
      var m := if |b| % 2 == 1 then |b| - 1 else |b| - 2;
      var whole := a + b;
      assert whole[..|a| + m] == a + b[..m];
      assert whole[|whole| - 1] == b[|b| - 1];
      WordsAdd(a, b[..m]);
      LastWord(whole, |a| + m);
      LastWord(b, m);
    }
  }

  lemma LastWord(bytes: seq<Byte>, m: nat)
    requires m % 2 == 0 && m < |bytes| <= m + 2
    ensures WordSum(bytes)
         == WordSum(bytes[..m]) + 256 * (bytes[m] as int) + if m + 1 < |bytes| then bytes[m + 1] as int else 0
  {
  }

  /** The check of no bytes, and what the check is for: appended to a message of whole
      words it brings the check to zero. */
  lemma InternetVerifies(bytes: seq<Byte>)
    requires |bytes| % 2 == 0
    ensures Checksum(Internet, []) == 0xffff
    ensures var c := Checksum(Internet, bytes);
            c <= 0xffff && Checksum(Internet, bytes + [c / 256, c % 256]) == 0
  {
    hide EndAround, WordSum;
    var c: nat := Checksum(Internet, bytes);
    var h: Byte, l: Byte := c / 256, c % 256;
    WordsAdd(bytes, [h, l]);
    SmallWords(h, l);
    var k := EndAroundParts(WordSum(bytes));
    FoldedZero();
    assert WordSum(bytes + [h, l]) == 0xffff * (k + 1);
    FoldsEqualIff(0xffff * (k + 1), 0xffff);
    FoldsSmall(0xffff);
  }

  lemma FoldsSmall(x: nat)
    requires x <= 0xffff
    ensures EndAround(x) == x
  {
  }

  /** Two changed bytes can cancel: a zero pair may become 0xffff. */
  lemma InternetMissesTwoChanges()
    ensures Checksum(Internet, [0, 1, 0, 0]) == Checksum(Internet, [0, 1, 0xff, 0xff])
  {
    var a: seq<Byte> := [0, 1, 0, 0];
    var b: seq<Byte> := [0, 1, 0xff, 0xff];
    assert a[..2] == [0, 1] && b[..2] == [0, 1];
    assert WordSum([0, 1]) == 1 by {
      var c: seq<Byte> := [0, 1];
      assert c[..0] == [];
      assert WordSum(c) == WordSum(c[..0]) + 1;
    }
    assert WordSum(a) == 1;
    assert WordSum(b) == 0x1_0000;
    InternetEqualIff(a, b);
  }

  // ------------------------------------------------------------------
  // The loops
  // ------------------------------------------------------------------

  method ComputeCrc16(bytes: seq<Byte>) returns (c: nat)
    ensures c == Checksum(Crc16, bytes)
  {
    hide Step16, Mixed16, Bits, Number16;
    var crc: bv16 := 0xffff;
    var i := 0;
    while i < |bytes|
      invariant 0 <= i <= |bytes| && crc == Register16(bytes[..i])
    {
      assert bytes[..i + 1][..i] == bytes[..i];
      ghost var mixed := Mixed16(crc, Bits(bytes[i]));
      crc := Mixed16(crc, Bits(bytes[i]));
      var j := 0;
      while j < 8
        invariant 0 <= j <= 8 && crc == Steps16(mixed, j)
      {
        crc := Step16(crc);
        j := j + 1;
      }
      i := i + 1;
    }
    assert bytes[..i] == bytes;
    c := Number16(crc);
  }

  method ComputeCrc32(bytes: seq<Byte>) returns (c: nat)
    ensures c == Checksum(Crc32, bytes)
  {
    hide Step32, Mixed32, Bits, Number32;
    var crc: bv32 := 0xffff_ffff;
    var i := 0;
    while i < |bytes|
      invariant 0 <= i <= |bytes| && crc == Register32(bytes[..i])
    {
      assert bytes[..i + 1][..i] == bytes[..i];
      ghost var mixed := Mixed32(crc, Bits(bytes[i]));
      crc := Mixed32(crc, Bits(bytes[i]));
      var j := 0;
      while j < 8
        invariant 0 <= j <= 8 && crc == Steps32(mixed, j)
      {
        crc := Step32(crc);
        j := j + 1;
      }
      i := i + 1;
    }
    assert bytes[..i] == bytes;
    c := Number32(!crc);
  }

  method ComputeInternet(bytes: seq<Byte>) returns (c: nat)
    ensures c == Checksum(Internet, bytes)
  {
    hide WordSum;
    var sum: nat := 0;
    var i := 0;
    SmallWords(0, 0);
    while i + 2 <= |bytes|
      invariant 0 <= i <= |bytes| && i % 2 == 0 && sum == WordSum(bytes[..i])
    {
      LastWord(bytes[..i + 2], i);
      assert bytes[..i + 2][..i] == bytes[..i];
      sum := sum + 256 * (bytes[i] as int) + bytes[i + 1];
      i := i + 2;
    }
    if i < |bytes| {
      LastWord(bytes, i);
      sum := sum + 256 * (bytes[i] as int);
    } else {
      assert bytes[..i] == bytes;
    }
    sum := FoldSum(sum);
    c := 0xffff - sum;
  }

  method FoldSum(sum0: nat) returns (sum: nat)
    ensures sum == EndAround(sum0)
  {
    sum := sum0;
    while sum > 0xffff
      invariant EndAround(sum) == EndAround(sum0)
    {
      sum := sum % 0x1_0000 + sum / 0x1_0000;
    }
  }

  method Compute(algorithm: Algorithm, bytes: seq<Byte>) returns (c: nat)
    ensures c == Checksum(algorithm, bytes)
  {
    match algorithm
    case Crc16 => c := ComputeCrc16(bytes);
    case Crc32 => c := ComputeCrc32(bytes);
    case Internet => c := ComputeInternet(bytes);
  }
}
