/** The two cyclic redundancy checks as what they are defined to be: remainders of
    polynomials over GF(2).  A polynomial is the sequence of its coefficients, the
    highest power first. */
module CrcPolynomial {
  import opened Bytes
  import opened Crc

  type Poly = seq<bool>

  function Zeros(n: nat): (p: Poly)
    ensures |p| == n
  {
    seq(n, i => false)
  }

  function Ones(n: nat): (p: Poly)
    ensures |p| == n
  {
    seq(n, i => true)
  }

  function Plus(a: Poly, b: Poly): (p: Poly)
    requires |a| == |b|
    ensures |p| == |a|
  {
    seq(|a|, i requires 0 <= i < |a| => a[i] != b[i])
  }

  /** `p` times the power x^n. */
  function Shifted(p: Poly, n: nat): (q: Poly)
    ensures |q| == |p| + n
  {
    p + Zeros(n)
  }

  // ------------------------------------------------------------------
  // Long division
  // ------------------------------------------------------------------

  /** One step of the division by x^w + `g`: the leading coefficient goes. */
  function Reduced(p: Poly, g: Poly): (p': Poly)
    requires |p| > |g|
    ensures |p'| == |p| - 1
    ensures forall i :: 0 <= i < |p'| ==> p'[i] == (p[i + 1] != (p[0] && i < |g| && g[i]))
  {
    var w := |g|;
    (if p[0] then Plus(p[1..w + 1], g) else p[1..w + 1]) + p[w + 1..]
  }

  /** The remainder of `p` by x^w + `g`, where `g` has `w` coefficients. */
  function Remainder(p: Poly, g: Poly): (r: Poly)
    requires |p| >= |g| > 0
    ensures |r| == |g|
    decreases |p|
  {
    if |p| == |g| then p else Remainder(Reduced(p, g), g)
  }

  lemma PlusAt(a: Poly, b: Poly, i: nat)
    requires |a| == |b| && i < |a|
    ensures Plus(a, b)[i] == (a[i] != b[i])
  {
  }

  /** The generator or nothing, times x^n. */
  ghost function Lead(b: bool, g: Poly, n: nat): (p: Poly)
    ensures |p| == |g| + 1 + n
  {
    Shifted(if b then [true] + g else Zeros(|g| + 1), n)
  }

  lemma LeadAt(b: bool, g: Poly, n: nat, i: nat)
    requires i < |g| + 1 + n
    ensures Lead(b, g, n)[i] == if i == 0 then b else b && i <= |g| && g[i - 1]
  {
  }

  /** The product with x^w + `g`. */
  ghost function Product(q: Poly, g: Poly): (p: Poly)
    ensures |p| == |q| + |g|
  {
    if q == [] then Zeros(|g|) else Plus(Lead(q[0], g, |q| - 1), [false] + Product(q[1..], g))
  }

  lemma ProductIs(q: Poly, g: Poly, lead: Poly, rest: Poly)
    requires q != [] && lead == Lead(q[0], g, |q| - 1) && rest == [false] + Product(q[1..], g)
    ensures Product(q, g) == Plus(lead, rest)
  {
  }

  lemma ProductAt(q: Poly, g: Poly, i: nat)
    requires q != [] && i < |q| + |g|
    ensures Product(q, g)[i]
         == if i == 0 then q[0] else (q[0] && i <= |g| && g[i - 1]) != Product(q[1..], g)[i - 1]
  {
    hide *;
    var lead, rest := Lead(q[0], g, |q| - 1), [false] + Product(q[1..], g);
    ProductIs(q, g, lead, rest);
    LeadAt(q[0], g, |q| - 1, i);
    PlusAt(lead, rest, i);
  }

  lemma RemainderStep(p: Poly, p': Poly, q: Poly, g: Poly, rest: Poly, i: nat)
    requires |q| > 0 && |p| == |q| + |g| && |p'| == |p| - 1 == |rest| - 1 && i < |p|
    requires p' == Plus(Product(q[1..], g), rest[1..]) && q[0] == p[0] && rest[0] == false
    requires i > 0 ==> p'[i - 1] == (p[i] != (p[0] && i <= |g| && g[i - 1]))
    ensures p[i] == (Product(q, g)[i] != rest[i])
  {
    hide Product, Plus;
    ProductAt(q, g, i);
    if i > 0 {
      PlusAt(Product(q[1..], g), rest[1..], i - 1);
    }
  }

  /** It is the remainder: what is left of `p` after a multiple of the generator. */
  lemma {:induction false} RemainderLaw(p: Poly, g: Poly) returns (q: Poly)
    requires |p| >= |g| > 0
    ensures |q| == |p| - |g|
    ensures p == Plus(Product(q, g), Zeros(|q|) + Remainder(p, g))
    decreases |p|
  {
    if |p| == |g| {
      q := [];
    } else {
      var p' := Reduced(p, g);
      var q' := RemainderLaw(p', g);
      q := [p[0]] + q';
      assert q[1..] == q';
      hide Reduced, Remainder, Product;
      var rest := Zeros(|q|) + Remainder(p, g);
      assert rest[1..] == Zeros(|q'|) + Remainder(p', g);
      forall i | 0 <= i < |p|
        ensures p[i] == (Product(q, g)[i] != rest[i])
      {
        RemainderStep(p, p', q, g, rest, i);
      }
    }
  }

  /** Division works from the top: a dividend may be divided in two goes. */
  lemma {:induction false} DividedInTwo(a: Poly, b: Poly, g: Poly)
    requires |a| >= |g| > 0
    ensures Remainder(a + b, g) == Remainder(Remainder(a, g) + b, g)
    decreases |a|
  {
    if |a| > |g| {
      hide Reduced;
      assert Reduced(a + b, g) == Reduced(a, g) + b;
      DividedInTwo(Reduced(a, g), b, g);
    }
  }

  /** Adding less than the generator adds it to the remainder. */
  lemma {:induction false} AddedBelow(p: Poly, e: Poly, g: Poly)
    requires |p| >= |g| > 0 && |e| == |g|
    ensures Remainder(Plus(p, Zeros(|p| - |e|) + e), g) == Plus(Remainder(p, g), e)
    decreases |p|
  {
    var z := Zeros(|p| - |g|) + e;
    if |p| == |g| {
      assert z == e;
    } else {
      hide Reduced;
      assert z[1..] == Zeros(|p| - 1 - |g|) + e;
      assert Reduced(Plus(p, z), g) == Plus(Reduced(p, g), z[1..]);
      AddedBelow(Reduced(p, g), e, g);
    }
  }

  /** One step of a shift register. */
  function Shift(r: Poly, g: Poly): (r': Poly)
    requires |r| == |g| > 0
    ensures |r'| == |g|
  {
    var next := r[1..] + [false];
    if r[0] then Plus(next, g) else next
  }

  lemma ShiftAt(r: Poly, g: Poly, i: nat)
    requires |r| == |g| > i
    ensures Shift(r, g)[i] == ((i + 1 < |r| && r[i + 1]) != (r[0] && g[i]))
  {
  }

  function Shifts(r: Poly, g: Poly, n: nat): (r': Poly)
    requires |r| == |g| > 0
    ensures |r'| == |g|
  {
    if n == 0 then r else Shift(Shifts(r, g, n - 1), g)
  }

  lemma OneShift(r: Poly, g: Poly)
    requires |r| == |g| > 0
    ensures Remainder(r + Zeros(1), g) == Shift(r, g)
  {
    var w := |g|;
    var p := r + Zeros(1);
    assert p[1..w + 1] == r[1..] + [false];
    assert p[w + 1..] == [];
    assert Shift(r, g) + [] == Shift(r, g);
  }

  /** Shifting `n` times divides the register times x^n. */
  lemma {:induction false} ShiftsDivide(r: Poly, g: Poly, n: nat)
    requires |r| == |g| > 0
    ensures Remainder(Shifted(r, n), g) == Shifts(r, g, n)
  {
    if n == 0 {
      assert Shifted(r, 0) == r;
    } else {
      ShiftsDivide(r, g, n - 1);
      assert Shifted(r, n) == Shifted(r, n - 1) + Zeros(1);
      hide Remainder, Shift;
      DividedInTwo(Shifted(r, n - 1), Zeros(1), g);
      OneShift(Shifts(r, g, n - 1), g);
    }
  }

  lemma AddedThenShifted(p: Poly, e: Poly, g: Poly, n: nat)
    requires |p| >= |g| > 0 && |e| == |g|
    ensures Remainder(Plus(p, Zeros(|p| - |e|) + e) + Zeros(n), g) == Shifts(Plus(Remainder(p, g), e), g, n)
  {
    var r := Plus(Remainder(p, g), e);
    assert Shifted(r, n) == r + Zeros(n);
    hide Remainder, Plus, Shifts;
    DividedInTwo(Plus(p, Zeros(|p| - |e|) + e), Zeros(n), g);
    AddedBelow(p, e, g);
    ShiftsDivide(r, g, n);
  }

  // ------------------------------------------------------------------
  // Whole messages
  // ------------------------------------------------------------------

  function Weight(k: nat): (w: nat)
    requires k < 8
    ensures w > 0
  {
    match k
    case 0 => 1 case 1 => 2 case 2 => 4 case 3 => 8
    case 4 => 16 case 5 => 32 case 6 => 64 case _ => 128
  }

  /** The coefficients of a byte, from its highest bit down or from its lowest up. */
  function ByteBits(b: Byte, reflected: bool): (p: Poly)
    ensures |p| == 8
  {
    seq(8, k requires 0 <= k < 8 => b / Weight(if reflected then k else 7 - k) % 2 == 1)
  }

  /** The message polynomial: eight coefficients for every byte. */
  function Message(bytes: seq<Byte>, reflected: bool): (p: Poly)
    ensures |p| == 8 * |bytes|
  {
    if bytes == [] then [] else Message(bytes[..|bytes| - 1], reflected) + ByteBits(bytes[|bytes| - 1], reflected)
  }

  /** The preset times x^(8n) plus the message of `n` bytes times x^w. */
  function Dividend(bytes: seq<Byte>, reflected: bool, w: nat): (p: Poly)
    ensures |p| == 8 * |bytes| + w
  {
    Plus(Shifted(Ones(w), 8 * |bytes|), Shifted(Message(bytes, reflected), w))
  }

  /** A further byte is added at the top of the register, which then shifts eight times. */
  lemma FurtherByte(bytes: seq<Byte>, reflected: bool, g: Poly)
    requires |g| >= 8 && |bytes| > 0
    ensures var before := Remainder(Dividend(bytes[..|bytes| - 1], reflected, |g|), g);
            Remainder(Dividend(bytes, reflected, |g|), g)
            == Shifts(Plus(before, Shifted(ByteBits(bytes[|bytes| - 1], reflected), |g| - 8)), g, 8)
  {
    var n := |bytes| - 1;
    var p, e := Dividend(bytes[..n], reflected, |g|), Shifted(ByteBits(bytes[n], reflected), |g| - 8);
    FurtherDividend(bytes, reflected, |g|, p, e);
    hide *;
    AddedThenShifted(p, e, g, 8);
  }

  lemma FurtherDividend(bytes: seq<Byte>, reflected: bool, w: nat, p: Poly, e: Poly)
    requires w >= 8 && |bytes| > 0
    requires p == Dividend(bytes[..|bytes| - 1], reflected, w) && e == Shifted(ByteBits(bytes[|bytes| - 1], reflected), w - 8)
    ensures Dividend(bytes, reflected, w) == Plus(p, Zeros(|p| - |e|) + e) + Zeros(8)
  {
    var n := |bytes| - 1;
    var m, b := Message(bytes[..n], reflected), ByteBits(bytes[n], reflected);
    hide ByteBits;
    SumsShifted(m, b, w);
    assert Message(bytes, reflected) == m + b;
    assert 8 * |bytes| == |m| + 8;
  }

  lemma SumsShifted(m: Poly, b: Poly, w: nat)
    requires |b| == 8 <= w
    ensures Plus(Shifted(Ones(w), |m| + 8), Shifted(m + b, w))
         == Plus(Plus(Shifted(Ones(w), |m|), Shifted(m, w)), Zeros(|m|) + Shifted(b, w - 8)) + Zeros(8)
  {
    var ones, sum := Ones(w), m + b;
    var left := Plus(Shifted(ones, |m| + 8), Shifted(sum, w));
    var right := Plus(Plus(Shifted(ones, |m|), Shifted(m, w)), Zeros(|m|) + Shifted(b, w - 8)) + Zeros(8);
    forall i | 0 <= i < |left|
      ensures left[i] == right[i]
    {
      if i < |m| {
      } else if i < |m| + 8 {
      } else if i < |m| + w {
      } else {
      }
    }
  }

  // ------------------------------------------------------------------
  // The registers
  // ------------------------------------------------------------------

  /** The polynomial of degree below `w` with the powers named. */
  function Powers(powers: set<nat>, w: nat): (p: Poly)
    ensures |p| == w
  {
    seq(w, i requires 0 <= i < w => w - 1 - i in powers)
  }

  /** Below the leading power of x^16 + x^12 + x^5 + 1. */
  function Powers16(): set<nat> {
    {12, 5, 0}
  }

  function Generator16(): (p: Poly)
    ensures |p| == 16
  {
    Powers(Powers16(), 16)
  }

  /** Below the leading power of
      x^32 + x^26 + x^23 + x^22 + x^16 + x^12 + x^11 + x^10 + x^8 + x^7 + x^5 + x^4 + x^2 + x + 1. */
  function Powers32(): set<nat> {
    {26, 23, 22, 16, 12, 11, 10, 8, 7, 5, 4, 2, 1, 0}
  }

  function Generator32(): (p: Poly)
    ensures |p| == 32
  {
    Powers(Powers32(), 32)
  }

  /** The lowest bit of a reflected register stands for the highest power. */
  function Reflected32(x: bv32): (p: Poly)
    ensures |p| == 32
  {
    seq(32, i requires 0 <= i < 32 => Has32(x, i))
  }

  // Single bits.

  predicate Bit16(x: bv16, m: bv16) {
    x & m != 0
  }

  predicate Bit32(x: bv32, m: bv32) {
    x & m != 0
  }

  lemma XorBit16(x: bv16, y: bv16, m: bv16)
    requires m & (m - 1) == 0
    ensures ((x ^ y) & m != 0) == ((x & m != 0) != (y & m != 0))
  {
  }

  lemma XorBit32(x: bv32, y: bv32, m: bv32)
    requires m & (m - 1) == 0
    ensures ((x ^ y) & m != 0) == ((x & m != 0) != (y & m != 0))
  {
  }

  lemma ShiftBit16(x: bv16, m: bv16)
    ensures m & 1 == 0 ==> ((x << 1) & m != 0) == (x & (m >> 1) != 0)
    ensures (x << 1) & 1 == 0
  {
  }

  lemma ShiftBit32(x: bv32, m: bv32)
    ensures m & 0x8000_0000 == 0 ==> ((x >> 1) & m != 0) == (x & (m << 1) != 0)
    ensures (x >> 1) & 0x8000_0000 == 0
  {
  }

  lemma MaskFacts16(j: nat)
    requires j < 16
    ensures Mask16(j) & (Mask16(j) - 1) == 0
    ensures if j == 0 then Mask16(j) == 1 else Mask16(j) & 1 == 0 && Mask16(j) >> 1 == Mask16(j - 1)
    ensures Bit16(0x1021, Mask16(j)) == (j in Powers16()) && Mask16(15) == 0x8000
  {
  }

  lemma OneBit32(j: nat)
    requires j < 32
    ensures Mask32(j) & (Mask32(j) - 1) == 0
  {
    if j < 8 {
    } else if j < 16 {
    } else if j < 24 {
    } else {
    }
  }

  lemma NextMask32(j: nat)
    requires j < 32
    ensures if j == 31 then Mask32(j) == 0x8000_0000 else Mask32(j) & 0x8000_0000 == 0 && Mask32(j) << 1 == Mask32(j + 1)
    ensures Mask32(0) == 1
  {
    if j < 8 {
    } else if j < 16 {
    } else if j < 24 {
    } else {
    }
  }

  lemma GeneratorMask32(j: nat)
    requires j < 32
    ensures Bit32(0xedb8_8320, Mask32(j)) == (31 - j in Powers32())
  {
    if j < 8 {
    } else if j < 16 {
    } else if j < 24 {
    } else {
    }
  }

  lemma StepMask16(x: bv16, y: bv16, m: bv16)
    requires m & (m - 1) == 0 && y == if x & 0x8000 != 0 then (x << 1) ^ 0x1021 else x << 1
    ensures m == 1 ==> (y & m != 0) == (x & 0x8000 != 0 && 0x1021 & m != 0)
    ensures m & 1 == 0 ==> (y & m != 0) == ((x & (m >> 1) != 0) != (x & 0x8000 != 0 && 0x1021 & m != 0))
  {
    ShiftBit16(x, m);
    XorBit16(x << 1, 0x1021, m);
  }

  lemma SteppedBit16(x: bv16, y: bv16, m: bv16)
    requires m & (m - 1) == 0 && y == if x & 0x8000 != 0 then (x << 1) ^ 0x1021 else x << 1
    ensures m == 1 ==> Bit16(y, m) == (Bit16(x, 0x8000) && Bit16(0x1021, m))
    ensures m & 1 == 0 ==> Bit16(y, m) == (Bit16(x, m >> 1) != (Bit16(x, 0x8000) && Bit16(0x1021, m)))
  {
    StepMask16(x, y, m);
  }

  lemma Has16Is(x: bv16, j: nat, m: bv16)
    requires j < 16 && m == Mask16(j)
    ensures Has16(x, j) == Bit16(x, m)
  {
    hide Mask16;
  }

  lemma StepMasked16(x: bv16, y: bv16, j: nat, m: bv16)
    requires j < 16 && y == Step16(x) && m == Mask16(j)
    ensures Bit16(y, m) == ((j > 0 && Bit16(x, m >> 1)) != (Bit16(x, 0x8000) && j in Powers16()))
  {
    hide *;
    StepCases16(x);
    MaskFacts16(j);
    SteppedBit16(x, y, m);
  }

  lemma StepBit16(x: bv16, j: nat)
    requires j < 16
    ensures Has16(Step16(x), j) == ((j > 0 && Has16(x, j - 1)) != (Has16(x, 15) && j in Powers16()))
  {
    hide *;
    var y, m := Step16(x), Mask16(j);
    StepMasked16(x, y, j, m);
    MaskFacts16(j);
    Has16Is(x, 15, 0x8000);
    Has16Is(y, j, m);
    if j > 0 {
      Has16Is(x, j - 1, m >> 1);
    }
  }

  lemma StepMask32(x: bv32, y: bv32, m: bv32)
    requires m & (m - 1) == 0 && y == if x & 1 != 0 then (x >> 1) ^ 0xedb8_8320 else x >> 1
    ensures m == 0x8000_0000 || m & 0x8000_0000 == 0
    ensures m == 0x8000_0000 ==> (y & m != 0) == (x & 1 != 0 && 0xedb8_8320 & m != 0)
    ensures m & 0x8000_0000 == 0 ==> (y & m != 0) == ((x & (m << 1) != 0) != (x & 1 != 0 && 0xedb8_8320 & m != 0))
  {
    ShiftBit32(x, m);
    XorBit32(x >> 1, 0xedb8_8320, m);
  }

  lemma SteppedBit32(x: bv32, y: bv32, m: bv32)
    requires m & (m - 1) == 0 && y == if x & 1 != 0 then (x >> 1) ^ 0xedb8_8320 else x >> 1
    ensures m == 0x8000_0000 ==> Bit32(y, m) == (Bit32(x, 1) && Bit32(0xedb8_8320, m))
    ensures m & 0x8000_0000 == 0 ==> Bit32(y, m) == (Bit32(x, m << 1) != (Bit32(x, 1) && Bit32(0xedb8_8320, m)))
  {
    StepMask32(x, y, m);
  }

  lemma Has32Is(x: bv32, j: nat, m: bv32)
    requires j < 32 && m == Mask32(j)
    ensures Has32(x, j) == Bit32(x, m)
  {
    hide Mask32;
  }

  lemma StepMasked32(x: bv32, y: bv32, j: nat, m: bv32)
    requires j < 32 && y == Step32(x) && m == Mask32(j)
    ensures Bit32(y, m) == ((j < 31 && Bit32(x, m << 1)) != (Bit32(x, 1) && 31 - j in Powers32()))
  {
    hide *;
    GeneratorMask32(j);
    StepCases32(x);
    OneBit32(j);
    NextMask32(j);
    SteppedBit32(x, y, m);
  }

  lemma StepBit32(x: bv32, j: nat)
    requires j < 32
    ensures Has32(Step32(x), j) == ((j < 31 && Has32(x, j + 1)) != (Has32(x, 0) && 31 - j in Powers32()))
  {
    hide *;
    var y, m := Step32(x), Mask32(j);
    StepMasked32(x, y, j, m);
    NextMask32(j);
    Has32Is(x, 0, 1);
    Has32Is(y, j, m);
    if j < 31 {
      Has32Is(x, j + 1, m << 1);
    }
  }

  lemma StepShifts16(x: bv16)
    ensures Digits16(Step16(x)) == Shift(Digits16(x), Generator16())
  {
    hide Step16, Has16, Shift, Powers16;
    var p, g := Digits16(x), Generator16();
    forall i | 0 <= i < 16
      ensures Digits16(Step16(x))[i] == Shift(p, g)[i]
    {
      StepBit16(x, 15 - i);
      ShiftAt(p, g, i);
    }
  }

  lemma StepShifts32(x: bv32)
    ensures Reflected32(Step32(x)) == Shift(Reflected32(x), Generator32())
  {
    hide Step32, Has32, Shift, Powers32;
    var p, g := Reflected32(x), Generator32();
    forall i | 0 <= i < 32
      ensures Reflected32(Step32(x))[i] == Shift(p, g)[i]
    {
      StepBit32(x, i);
      ShiftAt(p, g, i);
    }
  }

  lemma {:induction false} StepsShift16(x: bv16, n: nat)
    ensures Digits16(Steps16(x, n)) == Shifts(Digits16(x), Generator16(), n)
  {
    hide Step16, Digits16, Shift, Generator16;
    if n > 0 {
      StepsShift16(x, n - 1);
      StepShifts16(Steps16(x, n - 1));
    }
  }

  lemma {:induction false} StepsShift32(x: bv32, n: nat)
    ensures Reflected32(Steps32(x, n)) == Shifts(Reflected32(x), Generator32(), n)
  {
    hide Step32, Reflected32, Shift, Generator32;
    if n > 0 {
      StepsShift32(x, n - 1);
      StepShifts32(Steps32(x, n - 1));
    }
  }

  // ------------------------------------------------------------------
  // A byte goes in
  // ------------------------------------------------------------------

  lemma HalvedIs(b: Byte, k: nat)
    requires k < 8
    ensures Halved(b, k) == b / Weight(k)
  {
    assert Halved(b, 1) == b / 2;
    assert Halved(b, 2) == b / 4;
    assert Halved(b, 3) == b / 8;
    assert Halved(b, 4) == b / 16;
    assert Halved(b, 5) == b / 32;
    assert Halved(b, 6) == b / 64;
    assert Halved(b, 7) == b / 128;
  }

  lemma TopByte(d: bv8, m: bv16)
    ensures (((d as bv16) << 8) & 0x8000 != 0) == (d & 0x80 != 0) && (((d as bv16) << 8) & 0x4000 != 0) == (d & 0x40 != 0)
    ensures (((d as bv16) << 8) & 0x2000 != 0) == (d & 0x20 != 0) && (((d as bv16) << 8) & 0x1000 != 0) == (d & 0x10 != 0)
    ensures (((d as bv16) << 8) & 0x800 != 0) == (d & 8 != 0) && (((d as bv16) << 8) & 0x400 != 0) == (d & 4 != 0)
    ensures (((d as bv16) << 8) & 0x200 != 0) == (d & 2 != 0) && (((d as bv16) << 8) & 0x100 != 0) == (d & 1 != 0)
    ensures m < 0x100 ==> ((d as bv16) << 8) & m == 0
  {
  }

  lemma LowByte(d: bv8, m: bv32)
    ensures ((d as bv32) & 0x80 != 0) == (d & 0x80 != 0) && ((d as bv32) & 0x40 != 0) == (d & 0x40 != 0)
    ensures ((d as bv32) & 0x20 != 0) == (d & 0x20 != 0) && ((d as bv32) & 0x10 != 0) == (d & 0x10 != 0)
    ensures ((d as bv32) & 8 != 0) == (d & 8 != 0) && ((d as bv32) & 4 != 0) == (d & 4 != 0)
    ensures ((d as bv32) & 2 != 0) == (d & 2 != 0) && ((d as bv32) & 1 != 0) == (d & 1 != 0)
    ensures m & 0xff == 0 ==> (d as bv32) & m == 0
  {
  }

  lemma ByteBitsAt(b: Byte, k: nat)
    requires k < 8
    ensures ByteBits(b, true)[k] == BitOf(b, k) && ByteBits(b, false)[7 - k] == BitOf(b, k)
  {
    hide Weight;
    HalvedIs(b, k);
  }

  lemma TopDigit(b: Byte, j: nat)
    requires j < 16
    ensures Has16((Bits(b) as bv16) << 8, j) == (j >= 8 && BitOf(b, j - 8))
  {
    hide Bits, BitOf;
    BitsUnpacked(b);
    TopByte(Bits(b), Mask16(j));
    if j < 8 {
      assert Mask16(j) < 0x100;
    } else if j < 12 {
    } else {
    }
  }

  lemma LowDigit(b: Byte, j: nat)
    requires j < 32
    ensures Has32(Bits(b) as bv32, j) == (j < 8 && BitOf(b, j))
  {
    hide Bits, BitOf;
    BitsUnpacked(b);
    LowByte(Bits(b), Mask32(j));
    assert j >= 8 ==> Mask32(j) & 0xff == 0;
  }

  lemma ByteDigit16(b: Byte, j: nat)
    requires j < 16
    ensures Has16((Bits(b) as bv16) << 8, j) == Shifted(ByteBits(b, false), 8)[15 - j]
  {
    hide Bits, BitOf, Has16, ByteBits;
    TopDigit(b, j);
    if j >= 8 {
      ByteBitsAt(b, j - 8);
    }
  }

  lemma ByteDigit32(b: Byte, j: nat)
    requires j < 32
    ensures Has32(Bits(b) as bv32, j) == Shifted(ByteBits(b, true), 24)[j]
  {
    hide Bits, BitOf, Has32, ByteBits;
    LowDigit(b, j);
    if j < 8 {
      ByteBitsAt(b, j);
    }
  }

  lemma MixedBit16(c: bv16, b: Byte, j: nat)
    requires j < 16
    ensures Has16(Mixed16(c, Bits(b)), j) == (Has16(c, j) != Has16((Bits(b) as bv16) << 8, j))
  {
    hide Bits, Mask16;
    MaskFacts16(j);
    XorBit16(c, (Bits(b) as bv16) << 8, Mask16(j));
  }

  lemma MixedDigits16(c: bv16, b: Byte)
    ensures Digits16(Mixed16(c, Bits(b))) == Plus(Digits16(c), Shifted(ByteBits(b, false), 8))
  {
    hide Bits, ByteBits, Shifted, Has16, Mixed16, Plus;
    var p, e := Digits16(c), Shifted(ByteBits(b, false), 8);
    forall i | 0 <= i < 16
      ensures Digits16(Mixed16(c, Bits(b)))[i] == Plus(p, e)[i]
    {
      MixedBit16(c, b, 15 - i);
      ByteDigit16(b, 15 - i);
      PlusAt(p, e, i);
    }
  }

  lemma MixedBit32(c: bv32, b: Byte, j: nat)
    requires j < 32
    ensures Has32(Mixed32(c, Bits(b)), j) == (Has32(c, j) != Has32(Bits(b) as bv32, j))
  {
    hide Bits, Mask32;
    OneBit32(j);
    XorBit32(c, Bits(b) as bv32, Mask32(j));
  }

  lemma MixedDigits32(c: bv32, b: Byte)
    ensures Reflected32(Mixed32(c, Bits(b))) == Plus(Reflected32(c), Shifted(ByteBits(b, true), 24))
  {
    hide Bits, ByteBits, Shifted, Has32, Mixed32, Plus;
    var p, e := Reflected32(c), Shifted(ByteBits(b, true), 24);
    forall i | 0 <= i < 32
      ensures Reflected32(Mixed32(c, Bits(b)))[i] == Plus(p, e)[i]
    {
      MixedBit32(c, b, i);
      ByteDigit32(b, i);
      PlusAt(p, e, i);
    }
  }

  lemma EmptyDividend(reflected: bool, w: nat)
    ensures Dividend([], reflected, w) == Ones(w)
  {
  }

  lemma {:induction false} Register16IsRemainder(bytes: seq<Byte>)
    ensures Digits16(Register16(bytes)) == Remainder(Dividend(bytes, false, 16), Generator16())
  {
    hide Byte16, Remainder, Dividend, Generator16, Digits16, Shifts, Plus, Shifted, ByteBits;
    if bytes == [] {
      EmptyDividend(false, 16);
      Preset16();
      RemainderOfShort(Ones(16), Generator16());
    } else {
      var n := |bytes| - 1;
      Register16IsRemainder(bytes[..n]);
      FurtherByte(bytes, false, Generator16());
      ByteShifts16(Register16(bytes[..n]), bytes[n]);
    }
  }

  lemma ByteShifts16(c: bv16, b: Byte)
    ensures Digits16(Byte16(c, b)) == Shifts(Plus(Digits16(c), Shifted(ByteBits(b, false), 8)), Generator16(), 8)
  {
    hide Steps16, Mixed16, Digits16, Shifts, Plus, Shifted, ByteBits, Generator16, Bits;
    MixedDigits16(c, b);
    StepsShift16(Mixed16(c, Bits(b)), 8);
  }

  lemma Preset16()
    ensures Digits16(0xffff) == Ones(16)
  {
  }

  lemma RemainderOfShort(p: Poly, g: Poly)
    requires |p| == |g| > 0
    ensures Remainder(p, g) == p
  {
  }

  lemma {:induction false} Register32IsRemainder(bytes: seq<Byte>)
    ensures Reflected32(Register32(bytes)) == Remainder(Dividend(bytes, true, 32), Generator32())
  {
    hide Byte32, Remainder, Dividend, Generator32, Reflected32, Shifts, Plus, Shifted, ByteBits;
    if bytes == [] {
      EmptyDividend(true, 32);
      Preset32();
      RemainderOfShort(Ones(32), Generator32());
    } else {
      var n := |bytes| - 1;
      Register32IsRemainder(bytes[..n]);
      FurtherByte(bytes, true, Generator32());
      ByteShifts32(Register32(bytes[..n]), bytes[n]);
    }
  }

  lemma ByteShifts32(c: bv32, b: Byte)
    ensures Reflected32(Byte32(c, b)) == Shifts(Plus(Reflected32(c), Shifted(ByteBits(b, true), 24)), Generator32(), 8)
  {
    hide Steps32, Mixed32, Reflected32, Shifts, Plus, Shifted, ByteBits, Generator32, Bits;
    MixedDigits32(c, b);
    StepsShift32(Mixed32(c, Bits(b)), 8);
  }

  lemma Preset32()
    ensures Reflected32(0xffff_ffff) == Ones(32)
  {
  }

  // ------------------------------------------------------------------
  // The checksums
  // ------------------------------------------------------------------

  function Reversed(p: Poly): (q: Poly)
    ensures |q| == |p|
  {
    seq(|p|, i requires 0 <= i < |p| => p[|p| - 1 - i])
  }

  lemma ComplementBit(x: bv32, m: bv32)
    requires m & (m - 1) == 0 && m != 0
    ensures (!x & m != 0) == !(x & m != 0)
  {
  }

  lemma HasComplement(x: bv32, j: nat)
    requires j < 32
    ensures Has32(!x, j) == !Has32(x, j)
  {
    OneBit32(j);
    MaskSet32(j);
    hide Mask32;
    ComplementBit(x, Mask32(j));
  }

  lemma MaskSet32(j: nat)
    requires j < 32
    ensures Mask32(j) != 0
  {
  }

  lemma ComplementDigits(x: bv32)
    ensures Digits32(!x) == Plus(Ones(32), Reversed(Reflected32(x)))
  {
    hide Has32;
    forall i | 0 <= i < 32
      ensures Digits32(!x)[i] == Plus(Ones(32), Reversed(Reflected32(x)))[i]
    {
      HasComplement(x, 31 - i);
    }
  }

  /** The 16-bit check: the remainder of the preset, sixteen ones, times x^(8n) plus
      the message times x^16 modulo x^16 + x^12 + x^5 + 1. */
  lemma Crc16IsRemainder(bytes: seq<Byte>)
    ensures Checksum(Crc16, bytes) == BinaryNumber(Remainder(Dividend(bytes, false, 16), Generator16()))
  {
    Register16IsRemainder(bytes);
    hide Register16, Remainder, Dividend, Generator16, Digits16, BinaryNumber;
  }

  /** The 32-bit check: likewise with thirty-two ones and the generator of degree 32,
      every byte lowest bit first, the remainder reflected and complemented. */
  lemma Crc32IsRemainder(bytes: seq<Byte>)
    ensures Checksum(Crc32, bytes)
         == BinaryNumber(Plus(Ones(32), Reversed(Remainder(Dividend(bytes, true, 32), Generator32()))))
  {
    Register32IsRemainder(bytes);
    ComplementDigits(Register32(bytes));
    hide Register32, Remainder, Dividend, Generator32, Digits32, Reflected32, BinaryNumber, Plus, Reversed;
  }

  // ------------------------------------------------------------------
  // Known values
  // ------------------------------------------------------------------

  lemma Eight16(x: bv16)
    ensures Steps16(x, 8) == Step16(Step16(Step16(Step16(Step16(Step16(Step16(Step16(x))))))))
  {
    hide Step16;
    assert Steps16(x, 1) == Step16(Steps16(x, 0));
    assert Steps16(x, 2) == Step16(Steps16(x, 1));
    assert Steps16(x, 3) == Step16(Steps16(x, 2));
    assert Steps16(x, 4) == Step16(Steps16(x, 3));
    assert Steps16(x, 5) == Step16(Steps16(x, 4));
    assert Steps16(x, 6) == Step16(Steps16(x, 5));
    assert Steps16(x, 7) == Step16(Steps16(x, 6));
    assert Steps16(x, 8) == Step16(Steps16(x, 7));
  }

  lemma Eight32(x: bv32)
    ensures Steps32(x, 8) == Step32(Step32(Step32(Step32(Step32(Step32(Step32(Step32(x))))))))
  {
    hide Step32;
    assert Steps32(x, 1) == Step32(Steps32(x, 0));
    assert Steps32(x, 2) == Step32(Steps32(x, 1));
    assert Steps32(x, 3) == Step32(Steps32(x, 2));
    assert Steps32(x, 4) == Step32(Steps32(x, 3));
    assert Steps32(x, 5) == Step32(Steps32(x, 4));
    assert Steps32(x, 6) == Step32(Steps32(x, 5));
    assert Steps32(x, 7) == Step32(Steps32(x, 6));
    assert Steps32(x, 8) == Step32(Steps32(x, 7));
  }

  lemma Letter(b: Byte, b3: bool, b2: bool, b1: bool, b0: bool)
    requires b == 0x30 + (if b3 then 8 else 0) + (if b2 then 4 else 0) + (if b1 then 2 else 0) + if b0 then 1 else 0
    ensures Bits(b) == Pack(false, false, true, true, b3, b2, b1, b0)
  {
    hide Pack;
    assert Halved(b, 1) == 0x18 + (if b3 then 4 else 0) + (if b2 then 2 else 0) + if b1 then 1 else 0;
    assert Halved(b, 2) == 0xc + (if b3 then 2 else 0) + if b2 then 1 else 0;
    assert Halved(b, 3) == 6 + if b3 then 1 else 0;
    assert Halved(b, 4) == 3;
    assert Halved(b, 5) == 1;
    assert Halved(b, 6) == 0;
    assert Halved(b, 7) == 0;
  }

  lemma After1()
    ensures Byte16(0xffff, 0x31) == 0xc782 && Byte32(0xffff_ffff, 0x31) == 0x7c23_1048
  {
    hide Bits;
    Letter(0x31, false, false, false, true);
    Eight16(Mixed16(0xffff, 0x31));
    Eight32(Mixed32(0xffff_ffff, 0x31));
  }

  lemma After2()
    ensures Byte16(0xc782, 0x32) == 0x3dba && Byte32(0x7c23_1048, 0x32) == 0xb0ac_bb32
  {
    hide Bits;
    Letter(0x32, false, false, true, false);
    Eight16(Mixed16(0xc782, 0x32));
    Eight32(Mixed32(0x7c23_1048, 0x32));
  }

  lemma After3()
    ensures Byte16(0x3dba, 0x33) == 0x5bce && Byte32(0xb0ac_bb32, 0x33) == 0x77b7_9c2d
  {
    hide Bits;
    Letter(0x33, false, false, true, true);
    Eight16(Mixed16(0x3dba, 0x33));
    Eight32(Mixed32(0xb0ac_bb32, 0x33));
  }

  lemma After4()
    ensures Byte16(0x5bce, 0x34) == 0x5349 && Byte32(0x77b7_9c2d, 0x34) == 0x641c_1f5c
  {
    hide Bits;
    Letter(0x34, false, true, false, false);
    Eight16(Mixed16(0x5bce, 0x34));
    Eight32(Mixed32(0x77b7_9c2d, 0x34));
  }

  lemma After5()
    ensures Byte16(0x5349, 0x35) == 0x4560 && Byte32(0x641c_1f5c, 0x35) == 0x340a_c5e3
  {
    hide Bits;
    Letter(0x35, false, true, false, true);
    Eight16(Mixed16(0x5349, 0x35));
    Eight32(Mixed32(0x641c_1f5c, 0x35));
  }

  lemma After6()
    ensures Byte16(0x4560, 0x36) == 0x2ef4 && Byte32(0x340a_c5e3, 0x36) == 0xf68d_2c9e
  {
    hide Bits;
    Letter(0x36, false, true, true, false);
    Eight16(Mixed16(0x4560, 0x36));
    Eight32(Mixed32(0x340a_c5e3, 0x36));
  }

  lemma After7()
    ensures Byte16(0x2ef4, 0x37) == 0x7718 && Byte32(0xf68d_2c9e, 0x37) == 0xaffc_9660
  {
    hide Bits;
    Letter(0x37, false, true, true, true);
    Eight16(Mixed16(0x2ef4, 0x37));
    Eight32(Mixed32(0xf68d_2c9e, 0x37));
  }

  lemma After8()
    ensures Byte16(0x7718, 0x38) == 0xa12b && Byte32(0xaffc_9660, 0x38) == 0x651f_2550
  {
    hide Bits;
    Letter(0x38, true, false, false, false);
    Eight16(Mixed16(0x7718, 0x38));
    Eight32(Mixed32(0xaffc_9660, 0x38));
  }

  lemma After9()
    ensures Byte16(0xa12b, 0x39) == 0x29b1 && Byte32(0x651f_2550, 0x39) == 0x340b_c6d9
  {
    hide Bits;
    Letter(0x39, true, false, false, true);
    Eight16(Mixed16(0xa12b, 0x39));
    Eight32(Mixed32(0x651f_2550, 0x39));
  }

  function CheckMessage(): seq<Byte> {
    [0x31, 0x32, 0x33, 0x34, 0x35, 0x36, 0x37, 0x38, 0x39]
  }

  lemma Registers(n: nat)
    requires n < 9
    ensures var m := CheckMessage();
            && Register16(m[..n + 1]) == Byte16(Register16(m[..n]), m[n])
            && Register32(m[..n + 1]) == Byte32(Register32(m[..n]), m[n])
  {
    hide Byte16, Byte32;
    var m := CheckMessage();
    assert m[..n + 1][..n] == m[..n];
  }

  lemma CheckRegisters()
    ensures Register16(CheckMessage()) == 0x29b1 && Register32(CheckMessage()) == 0x340b_c6d9
  {
    hide Byte16, Byte32;
    var m := CheckMessage();
    assert m[..0] == [] && m[..9] == m;
    Registers(0); Registers(1); Registers(2); Registers(3); Registers(4);
    Registers(5); Registers(6); Registers(7); Registers(8);
    After1(); After2(); After3(); After4(); After5(); After6(); After7(); After8(); After9();
  }

  lemma OneDigit(bits: seq<bool>, n: nat)
    requires n < |bits|
    ensures BinaryNumber(bits[..n + 1]) == 2 * BinaryNumber(bits[..n]) + if bits[n] then 1 else 0
    ensures BinaryNumber([]) == 0
  {
    assert bits[..n + 1][..n] == bits[..n];
  }

  lemma Nibble(bits: seq<bool>, n: nat)
    requires n + 4 <= |bits|
    ensures BinaryNumber(bits[..n + 4])
         == 16 * BinaryNumber(bits[..n]) + (if bits[n] then 8 else 0) + (if bits[n + 1] then 4 else 0)
            + (if bits[n + 2] then 2 else 0) + if bits[n + 3] then 1 else 0
    ensures BinaryNumber([]) == 0
  {
    hide BinaryNumber;
    OneDigit(bits, n);
    OneDigit(bits, n + 1);
    OneDigit(bits, n + 2);
    OneDigit(bits, n + 3);
  }

  lemma Number29b1()
    ensures Number16(0x29b1) == 0x29b1
  {
    hide BinaryNumber;
    var d := Digits16(0x29b1);
    assert d[..0] == [] && d[..16] == d;
    Nibble(d, 0); Nibble(d, 4); Nibble(d, 8); Nibble(d, 12);
  }

  lemma NumberFfff()
    ensures Number16(0xffff) == 0xffff
  {
    hide BinaryNumber;
    var d := Digits16(0xffff);
    assert d[..0] == [] && d[..16] == d;
    Nibble(d, 0); Nibble(d, 4); Nibble(d, 8); Nibble(d, 12);
  }

  lemma HighCbf4(d: seq<bool>)
    requires d == Digits32(0xcbf4_3926)
    ensures BinaryNumber(d[..16]) == 0xcbf4
  {
    hide BinaryNumber;
    assert d[..0] == [];
    Nibble(d, 0); Nibble(d, 4); Nibble(d, 8); Nibble(d, 12);
  }

  lemma NumberCbf43926()
    ensures Number32(0xcbf4_3926) == 0xcbf4_3926
  {
    hide BinaryNumber;
    var d := Digits32(0xcbf4_3926);
    assert d[..32] == d;
    HighCbf4(d);
    Nibble(d, 16); Nibble(d, 20); Nibble(d, 24); Nibble(d, 28);
  }

  lemma {:induction false} NumberZero(bits: seq<bool>)
    requires forall i :: 0 <= i < |bits| ==> !bits[i]
    ensures BinaryNumber(bits) == 0
  {
    if bits != [] {
      NumberZero(bits[..|bits| - 1]);
    }
  }

  /** The checks of no bytes and of "123456789". */
  lemma KnownValues()
    ensures Checksum(Crc16, []) == 0xffff && Checksum(Crc32, []) == 0
    ensures var digits := [0x31, 0x32, 0x33, 0x34, 0x35, 0x36, 0x37, 0x38, 0x39];
            Checksum(Crc16, digits) == 0x29b1 && Checksum(Crc32, digits) == 0xcbf4_3926
  {
    assert Number32(0) == 0 by {
      NumberZero(Digits32(0));
    }
    hide Number16, Number32, Byte16, Byte32;
    Number29b1();
    NumberFfff();
    NumberCbf43926();
    CheckRegisters();
    assert !(0x340b_c6d9 as bv32) == 0xcbf4_3926 && !(0xffff_ffff as bv32) == 0;
  }
}
