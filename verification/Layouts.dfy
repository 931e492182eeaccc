/** Numeric fields at explicit offsets, sharing bytes bit by bit: what is encoded
    decodes to the same values as long as no two fields own the same bit. */
module Layouts {
  import opened Bytes
  import opened Protocols
  import opened Syntax
  import opened Integers
  import opened Schemas
  import opened Codec
  import opened BitFields
  import opened RoundTrip

  // ------------------------------------------------------------------
  // Bits of numbers
  // ------------------------------------------------------------------

  predicate Bit(v: nat, j: nat) {
    HighPart(v, j) % 2 == 1
  }

  lemma BitZero(v: nat)
    ensures Bit(v, 0) <==> v % 2 == 1
  {
    PartsAtZero(v);
  }

  lemma BitNext(v: nat, j: nat)
    requires j > 0
    ensures Bit(v, j) == Bit(v / 2, j - 1)
  {
    HalfParts(v, j);
  }

  lemma {:induction false} OrBit(a: nat, b: nat, n: nat, j: nat)
    requires j < n
    ensures Bit(OrBits(a, b, n), j) == (Bit(a, j) || Bit(b, j))
  {
    hide Bit, OrBits;
    var whole := OrBits(a, b, n);
    OrStep(a, b, n);
    if j == 0 {
      BitZero(a);
      BitZero(b);
      BitZero(whole);
    } else {
      assert whole / 2 == OrBits(a / 2, b / 2, n - 1);
      BitNext(a, j);
      BitNext(b, j);
      BitNext(whole, j);
      OrBit(a / 2, b / 2, n - 1, j - 1);
    }
  }

  /** A number is its bits. */
  lemma {:induction false} SameBits(x: nat, y: nat, n: nat)
    requires x < Pow2(n) && y < Pow2(n) && forall j: nat :: j < n ==> Bit(x, j) == Bit(y, j)
    ensures x == y
  {
    if n > 0 {
      hide Bit;
      assert x / 2 < Pow2(n - 1) && y / 2 < Pow2(n - 1);
      forall j: nat | j < n - 1
        ensures Bit(x / 2, j) == Bit(y / 2, j)
      {
        BitNext(x, j + 1);
        BitNext(y, j + 1);
      }
      SameBits(x / 2, y / 2, n - 1);
      BitZero(x);
      BitZero(y);
      assert Bit(x, 0) == Bit(y, 0);
    }
  }

  lemma {:induction false} HighOfHigh(v: nat, a: nat, b: nat)
    ensures HighPart(v, a + b) == HighPart(HighPart(v, a), b)
  {
    hide HighPart;
    if a == 0 {
      PartsAtZero(v);
    } else {
      HalfParts(v, a + b);
      HalfParts(v, a);
      HighOfHigh(v / 2, a - 1, b);
      assert a + b - 1 == a - 1 + b;
    }
  }

  lemma {:induction false} BitOfLow(v: nat, n: nat, j: nat)
    requires j < n
    ensures Bit(LowPart(v, n), j) == Bit(v, j)
  {
    hide Bit, LowPart;
    HalfParts(v, n);
    var low := LowPart(v, n);
    if j == 0 {
      BitZero(v);
      BitZero(low);
    } else {
      assert low / 2 == LowPart(v / 2, n - 1);
      BitNext(v, j);
      BitNext(low, j);
      BitOfLow(v / 2, n - 1, j - 1);
    }
  }

  lemma BitOfSlice(v: nat, bitOffset: nat, bits: nat, j: nat)
    requires j < bits
    ensures Bit(Slice(v, bitOffset, bits), j) == Bit(v, bitOffset + j)
  {
    hide HighPart, LowPart;
    BitOfLow(HighPart(v, bitOffset), bits, j);
    HighOfHigh(v, bitOffset, j);
  }

  lemma {:induction false} BitOfShift(v: nat, o: nat, k: nat)
    ensures Bit(v * Pow2(o), k) == (k >= o && Bit(v, k - o))
  {
    hide Bit;
    if o == 0 {
      assert Pow2(0) == 1;
    } else {
      var half := v * Pow2(o - 1);
      assert v * Pow2(o) == 2 * half;
      if k == 0 {
        BitZero(2 * half);
      } else {
        BitNext(2 * half, k);
        BitOfShift(v, o - 1, k - 1);
      }
    }
  }

  lemma BitOfByteStep(p: nat, q: Byte, k: nat)
    ensures Bit(256 * p + q, k) == if k < 8 then Bit(q, k) else Bit(p, k - 8)
  {
    hide HighPart, LowPart;
    ByteParts(p, q);
    if k < 8 {
      BitOfLow(256 * p + q, 8, k);
    } else {
      HighOfHigh(256 * p + q, 8, k - 8);
    }
  }

  // ------------------------------------------------------------------
  // Bits of byte strings
  // ------------------------------------------------------------------

  /** The byte that holds bit `k` of an `n`-byte number. */
  function ByteOf(n: nat, k: nat, little: bool): int {
    if little then k / 8 else n - 1 - k / 8
  }

  lemma {:induction false} BitOfBytes(bytes: seq<Byte>, little: bool, k: nat)
    requires k < 8 * |bytes|
    ensures 0 <= ByteOf(|bytes|, k, little) < |bytes|
    ensures Bit(FromBytes(bytes, little), k) == Bit(bytes[ByteOf(|bytes|, k, little)], k % 8)
  {
    hide Bit;
    var n := |bytes|;
    var rest := if little then bytes[1..] else bytes[..n - 1];
    var last := if little then bytes[0] else bytes[n - 1];
    BitOfByteStep(FromBytes(rest, little), last, k);
    assert FromBytes(bytes, little) == 256 * FromBytes(rest, little) + last;
    if k >= 8 {
      BitOfBytes(rest, little, k - 8);
      assert (k - 8) / 8 == k / 8 - 1 && (k - 8) % 8 == k % 8;
    } else {
      assert k / 8 == 0 && k % 8 == k;
    }
  }

  /** Bit `p % 8` of byte `p / 8`; nothing is set beyond the end. */
  predicate BufBit(out: seq<Byte>, p: nat) {
    p / 8 < |out| && Bit(out[p / 8], p % 8)
  }

  lemma ZeroBit(j: nat)
    ensures !Bit(0, j)
  {
    assert HighPart(0, j) == 0 by {
      SmallHigh(j);
    }
  }

  lemma SmallHigh(j: nat)
    ensures HighPart(0, j) == 0
  {
    SmallSlice(0, Pow2(j), 1);
  }

  lemma {:induction false} BitBeyond(v: nat, n: nat, j: nat)
    requires v < Pow2(n) && j >= n
    ensures !Bit(v, j)
  {
    hide Bit;
    if n == 0 {
      ZeroBit(j);
    } else {
      BitNext(v, j);
      BitBeyond(v / 2, n - 1, j - 1);
    }
  }

  // ------------------------------------------------------------------
  // Cells: a number in its bits of the buffer
  // ------------------------------------------------------------------

  datatype Cell = Cell(start: nat, length: nat, bitOffset: nat, bits: nat, number: nat)

  ghost predicate GoodCell(c: Cell) {
    1 <= c.length <= 8 && 1 <= c.bits <= 64 && c.bitOffset + c.bits <= 8 * c.length && c.number < Pow2(c.bits)
  }

  /** The place of bit `j` of the number. */
  function Where(c: Cell, j: nat, little: bool): int {
    8 * (c.start + ByteOf(c.length, c.bitOffset + j, little)) + (c.bitOffset + j) % 8
  }

  ghost predicate Owns(c: Cell, p: nat, little: bool) {
    exists j: nat :: j < c.bits && Where(c, j, little) == p
  }

  /** No bit belongs to both. */
  ghost predicate Apart(c: Cell, d: Cell, little: bool) {
    forall j: nat, k: nat :: j < c.bits && k < d.bits ==> Where(c, j, little) != Where(d, k, little)
  }

  ghost predicate Holds(out: seq<Byte>, c: Cell, little: bool) {
    && c.start + c.length <= |out|
    && forall j: nat :: j < c.bits && Where(c, j, little) >= 0 ==> BufBit(out, Where(c, j, little)) == Bit(c.number, j)
  }

  ghost predicate Clear(out: seq<Byte>, c: Cell, little: bool) {
    forall j: nat :: j < c.bits && Where(c, j, little) >= 0 ==> !BufBit(out, Where(c, j, little))
  }

  lemma WhereParts(c: Cell, j: nat, little: bool)
    requires GoodCell(c) && j < c.bits
    ensures var i := ByteOf(c.length, c.bitOffset + j, little);
            0 <= i < c.length && Where(c, j, little) >= 0
            && Where(c, j, little) / 8 == c.start + i && Where(c, j, little) % 8 == (c.bitOffset + j) % 8
  {
  }

  /** What a cell holds is what its field reads. */
  lemma ReadCell(input: seq<Byte>, c: Cell, little: bool)
    requires GoodCell(c) && Holds(input, c, little)
    ensures ReadField(input[c.start..c.start + c.length], little, c.bitOffset, c.bits) == Some(c.number)
  {
    var w := input[c.start..c.start + c.length];
    var v := FromBytes(w, little);
    var got := Slice(v, c.bitOffset, c.bits);
    hide Bit, FromBytes, Slice, ByteOf, Where, Pow2;
    forall j: nat | j < c.bits
      ensures Bit(got, j) == Bit(c.number, j)
    {
      BitOfSlice(v, c.bitOffset, c.bits, j);
      BitOfBytes(w, little, c.bitOffset + j);
      WhereParts(c, j, little);
    }
    SliceBound(v, c.bitOffset, c.bits);
    SameBits(got, c.number, c.bits);
  }

  /** The bytes a cell is written with. */
  ghost function RawOf(c: Cell, little: bool): (raw: seq<Byte>)
    requires GoodCell(c)
    ensures |raw| == c.length && WriteField(Shifted(c.number, c.bitOffset), c.length, little) == Some(raw)
    ensures FromBytes(raw, little) == c.number * Pow2(c.bitOffset)
  {
    WrittenNumber(c.number, c.bitOffset, c.bits, c.length, little);
    WrittenLength(Shifted(c.number, c.bitOffset), c.length, little);
    WriteField(Shifted(c.number, c.bitOffset), c.length, little).value
  }

  /** The number's bit in bit `b` of byte `i`. */
  function IndexOf(c: Cell, i: nat, b: nat, little: bool): int {
    8 * (if little then i else c.length - 1 - i) + b
  }

  lemma RawBit(c: Cell, i: nat, b: nat, little: bool)
    requires GoodCell(c) && i < c.length && b < 8
    ensures var k := IndexOf(c, i, b, little);
            0 <= k < 8 * c.length && Bit(RawOf(c, little)[i], b) == (c.bitOffset <= k < c.bitOffset + c.bits && Bit(c.number, k - c.bitOffset))
  {
    var k := IndexOf(c, i, b, little);
    var raw := RawOf(c, little);
    assert k / 8 == (if little then i else c.length - 1 - i) && k % 8 == b;
    assert ByteOf(c.length, k, little) == i;
    hide Bit, FromBytes, RawOf, Pow2, IndexOf, ByteOf;
    BitOfBytes(raw, little, k);
    BitOfShift(c.number, c.bitOffset, k);
    if k >= c.bitOffset + c.bits {
      BitBeyond(c.number, c.bits, k - c.bitOffset);
    }
  }

  lemma IndexIsWhere(c: Cell, i: nat, b: nat, little: bool)
    requires GoodCell(c) && i < c.length && b < 8
    requires c.bitOffset <= IndexOf(c, i, b, little) < c.bitOffset + c.bits
    ensures Where(c, IndexOf(c, i, b, little) - c.bitOffset, little) == 8 * (c.start + i) + b
  {
  }

  // ------------------------------------------------------------------
  // Writing a cell
  // ------------------------------------------------------------------

  lemma GrownBit(out: seq<Byte>, n: nat, p: nat)
    ensures BufBit(Grown(out, n), p) == BufBit(out, p)
  {
    hide Bit;
    ZeroBit(p % 8);
  }

  lemma OrByteBit(a: Byte, b: Byte, j: nat)
    requires j < 8
    ensures Bit(Or(a, b), j) == (Bit(a, j) || Bit(b, j))
  {
    hide Bit;
    OrBit(a, b, 8, j);
  }

  lemma PlacedBit(f: Field, out: seq<Byte>, at: nat, raw: seq<Byte>, p: nat)
    requires at <= |out|
    ensures |Placed(f, out, at, raw)| == Max(|out|, at + |raw|)
    ensures var r := Placed(f, out, at, raw);
            if at <= p / 8 < at + |raw| then
              BufBit(r, p) == (Bit(raw[p / 8 - at], p % 8) || (f.bits < f.length * 8 && BufBit(out, p)))
            else BufBit(r, p) == BufBit(out, p)
  {
    hide Bit, Or;
    var big := Grown(out, at + |raw|);
    GrownBit(out, at + |raw|, p);
    var i := p / 8;
    if at <= i < at + |raw| {
      OrByteBit(big[i], raw[i - at], p % 8);
    } else if i < |big| {
      assert Placed(f, out, at, raw)[i] == big[i];
    }
  }

  ghost predicate CellOf(c: Cell, f: Field) {
    c.length == f.length && c.bitOffset == f.bitOffset && c.bits == f.bits
  }

  ghost function Written(f: Field, out: seq<Byte>, c: Cell, little: bool): seq<Byte>
    requires GoodCell(c)
  {
    Placed(f, Grown(out, c.start), c.start, RawOf(c, little))
  }

  /** Bits of others stay as they are. */
  lemma WrittenFrame(f: Field, out: seq<Byte>, c: Cell, little: bool, p: nat)
    requires GoodCell(c) && CellOf(c, f) && !Owns(c, p, little)
    ensures BufBit(Written(f, out, c, little), p) == BufBit(out, p)
  {
    hide Bit, RawOf, Placed, Grown, Where, IndexOf;
    var raw := RawOf(c, little);
    GrownBit(out, c.start, p);
    PlacedBit(f, Grown(out, c.start), c.start, raw, p);
    if c.start <= p / 8 < c.start + c.length {
      var i, b := p / 8 - c.start, p % 8;
      RawBit(c, i, b, little);
      var k := IndexOf(c, i, b, little);
      if c.bitOffset <= k < c.bitOffset + c.bits {
        IndexIsWhere(c, i, b, little);
      }
    }
  }

  /** The cell's own bits, if they were clear, now hold the number. */
  lemma WrittenHolds(f: Field, out: seq<Byte>, c: Cell, little: bool)
    requires GoodCell(c) && CellOf(c, f) && Clear(out, c, little)
    ensures Holds(Written(f, out, c, little), c, little)
  {
    var raw := RawOf(c, little);
    var r := Written(f, out, c, little);
    hide Bit, RawOf, Placed, Grown, Pow2;
    PlacedBit(f, Grown(out, c.start), c.start, raw, 0);
    forall j: nat | j < c.bits && Where(c, j, little) >= 0
      ensures BufBit(r, Where(c, j, little)) == Bit(c.number, j)
    {
      WrittenBit(f, out, c, little, j);
    }
  }

  lemma WrittenBit(f: Field, out: seq<Byte>, c: Cell, little: bool, j: nat)
    requires GoodCell(c) && CellOf(c, f) && Clear(out, c, little) && j < c.bits && Where(c, j, little) >= 0
    ensures BufBit(Written(f, out, c, little), Where(c, j, little)) == Bit(c.number, j)
  {
    hide Bit, RawOf, Placed, Grown, Pow2, Where, ByteOf, IndexOf;
    var raw := RawOf(c, little);
    var p := Where(c, j, little);
    WhereParts(c, j, little);
    GrownBit(out, c.start, p);
    PlacedBit(f, Grown(out, c.start), c.start, raw, p);
    RawBit(c, p / 8 - c.start, p % 8, little);
    IndexBack(c, j, little);
  }

  lemma IndexBack(c: Cell, j: nat, little: bool)
    requires GoodCell(c) && j < c.bits
    ensures IndexOf(c, ByteOf(c.length, c.bitOffset + j, little), (c.bitOffset + j) % 8, little) == c.bitOffset + j
  {
  }

  /** Cells apart from it keep what they hold, and stay clear. */
  lemma WrittenKeeps(f: Field, out: seq<Byte>, c: Cell, d: Cell, little: bool)
    requires GoodCell(c) && CellOf(c, f) && Apart(c, d, little)
    ensures Holds(out, d, little) ==> Holds(Written(f, out, c, little), d, little)
    ensures Clear(out, d, little) ==> Clear(Written(f, out, c, little), d, little)
  {
    var r := Written(f, out, c, little);
    hide Bit, Where;
    assert |r| >= |out| by {
      hide RawOf, Placed;
      PlacedBit(f, Grown(out, c.start), c.start, RawOf(c, little), 0);
    }
    hide Written;
    forall j: nat | j < d.bits && Where(d, j, little) >= 0
      ensures BufBit(r, Where(d, j, little)) == BufBit(out, Where(d, j, little))
    {
      assert !Owns(c, Where(d, j, little), little);
      WrittenFrame(f, out, c, little, Where(d, j, little));
    }
  }

  // ------------------------------------------------------------------
  // Layouts
  // ------------------------------------------------------------------

  /** One number, at a given offset or behind everything before it. */
  ghost predicate NumberField(f: Field) {
    && Plain(f) && NumericFormat(f) && f.terminator.None? && f.lengthFrom.None? && f.lengthAdjust == 0
    && f.repeat == 1 && f.repeatFrom.None?
  }

  /** The number that stands for a value. */
  function NumberOf(f: Field, v: Value): nat {
    if f.format == Uint && v.Number? && v.n >= 0 then v.n
    else if f.format == Int && v.Number? then FromSigned(v.n, f.bits)
    else if f.format == Flag && v.Bool? && v.b then 1
    else 0
  }

  function StartOf(f: Field, base: nat, cursor: nat): nat {
    if f.offset.Some? then base + f.offset.value else cursor
  }

  function FieldCell(f: Field, env: Env, base: nat, cursor: nat): Cell {
    Cell(StartOf(f, base, cursor), f.length, f.bitOffset, f.bits, if f.name in env then NumberOf(f, env[f.name]) else 0)
  }

  function CursorAfter(f: Field, env: Env, base: nat, cursor: nat): nat {
    if Present(f, env) then Max(cursor, StartOf(f, base, cursor) + f.length) else cursor
  }

  /** The cells of the present fields. */
  function CellsOf(fields: seq<Field>, env: Env, base: nat, cursor: nat): seq<Cell> {
    if fields == [] then []
    else
      (if Present(fields[0], env) then [FieldCell(fields[0], env, base, cursor)] else [])
      + CellsOf(fields[1..], env, base, CursorAfter(fields[0], env, base, cursor))
  }

  function CursorEnd(fields: seq<Field>, env: Env, base: nat, cursor: nat): nat {
    if fields == [] then cursor else CursorEnd(fields[1..], env, base, CursorAfter(fields[0], env, base, cursor))
  }

  ghost predicate AllApart(cells: seq<Cell>, little: bool) {
    forall a, b :: 0 <= a < b < |cells| ==> Apart(cells[a], cells[b], little)
  }

  /** Distinct names, and conditions that refer to earlier present fields. */
  ghost predicate Referring(fields: seq<Field>, env: Env, known: set<string>) {
    fields == []
    || (&& NumberField(fields[0]) && Unnamed(fields[1..], fields[0].name) && WhenRefs(fields[0].when) <= known
        && Referring(fields[1..], env, Known(fields[0], env, known)))
  }

  /** Number fields of which no two own the same bit. */
  ghost predicate Grid(schema: Schema, env: Env) {
    && ValidFields(schema.fields) && Referring(schema.fields, env, {})
    && AllApart(CellsOf(schema.fields, env, schema.offset, schema.offset), schema.little)
  }

  // ------------------------------------------------------------------
  // Values and numbers
  // ------------------------------------------------------------------

  ghost predicate Encodable(f: Field, env: Env, little: bool) {
    f.bits > 0 && f.name in env && EncodePayload(f, env[f.name], little).Some?
  }

  lemma OneFitsBits(bits: nat)
    requires bits > 0
    ensures 1 < Pow2(bits)
  {
  }

  lemma EncodedNumber(f: Field, v: Value, little: bool)
    requires ValidField(f) && NumericFormat(f) && EncodePayload(f, v, little).Some?
    ensures NumberOf(f, v) < Pow2(f.bits)
    ensures EncodePayload(f, v, little) == WriteField(Shifted(NumberOf(f, v), f.bitOffset), f.length, little)
  {
    hide Pow2, WriteField, Shifted, FromSigned, ToSigned;
    OneFitsBits(f.bits);
    if f.format == Int {
      SignedBack(v.n, f.bits);
    }
  }

  lemma DecodedNumber(f: Field, v: Value, payload: seq<Byte>, little: bool)
    requires ValidField(f) && NumericFormat(f) && EncodePayload(f, v, little).Some?
    requires ReadField(payload, little, f.bitOffset, f.bits) == Some(NumberOf(f, v))
    ensures DecodePayload(f, payload, little) == Some(v)
  {
    hide Pow2, WriteField, ReadField, Shifted, FromSigned, ToSigned;
    if f.format == Int {
      SignedBack(v.n, f.bits);
    }
  }

  lemma CellIsGood(f: Field, env: Env, little: bool, base: nat, cursor: nat)
    requires ValidField(f) && NumericFormat(f) && Encodable(f, env, little)
    ensures GoodCell(FieldCell(f, env, base, cursor)) && CellOf(FieldCell(f, env, base, cursor), f)
    ensures EncodePayload(f, env[f.name], little) == Some(RawOf(FieldCell(f, env, base, cursor), little))
  {
    EncodedNumber(f, env[f.name], little);
  }

  // ------------------------------------------------------------------
  // Encoding fills the cells
  // ------------------------------------------------------------------

  /** What encoding one present number field does. */
  lemma EncodeNumber(f: Field, env: Env, little: bool, base: nat, out: seq<Byte>)
    requires ValidField(f) && NumberField(f) && Present(f, env) && EncodeField(f, env, little, base, |out|, out).Wrote?
    ensures Encodable(f, env, little) && GoodCell(FieldCell(f, env, base, |out|)) && EvalWhen(f.when, env).Some?
    ensures var r := EncodeField(f, env, little, base, |out|, out);
            && r.out == Written(f, out, FieldCell(f, env, base, |out|), little)
            && r.cursor == |r.out| == CursorAfter(f, env, base, |out|)
  {
    hide Written, EncodePayload;
    var items := [env[f.name]];
    var start := StartOf(f, base, |out|);
    var big := Grown(out, start);
    var raw := EncodeItem(f, items[0], env, little, base, start, big);
    assert EncodeItems(f, items, env, little, base, start, big).Wrote?;
    var payload := EncodePayload(f, env[f.name], little);
    assert raw.Some? && raw.value == payload.value + [] == payload.value;
    assert raw == EncodePayload(f, env[f.name], little);
    CellIsGood(f, env, little, base, |out|);
    hide EncodeItem, Placed, RawOf;
    assert items[1..] == [];
    PlacedBit(f, big, start, raw.value, 0);
    EncodeLone(f, items, env, little, base, start, big, raw.value);
    WrittenIs(f, out, FieldCell(f, env, base, |out|), little);
  }

  lemma WrittenIs(f: Field, out: seq<Byte>, c: Cell, little: bool)
    requires GoodCell(c)
    ensures Written(f, out, c, little) == Placed(f, Grown(out, c.start), c.start, RawOf(c, little))
  {
  }

  lemma EncodeLone(f: Field, items: seq<Value>, env: Env, little: bool, base: nat, at: nat, out: seq<Byte>, raw: seq<Byte>)
    requires |items| == 1 && EncodeItem(f, items[0], env, little, base, at, out) == Some(raw)
    requires EncodeItems(f, items, env, little, base, at, out).Wrote?
    ensures EncodeItems(f, items, env, little, base, at, out) == Wrote(at + |raw|, Placed(f, out, at, raw))
  {
    hide EncodeItem, Placed;
    assert items[1..] == [];
  }

  ghost predicate Writable(fields: seq<Field>, env: Env, little: bool) {
    forall i :: 0 <= i < |fields| ==>
      EvalWhen(fields[i].when, env).Some? && (Present(fields[i], env) ==> Encodable(fields[i], env, little))
  }

  ghost predicate AllHold(out: seq<Byte>, cells: seq<Cell>, little: bool) {
    forall i :: 0 <= i < |cells| ==> Holds(out, cells[i], little)
  }

  ghost predicate AllClear(out: seq<Byte>, cells: seq<Cell>, little: bool) {
    forall i :: 0 <= i < |cells| ==> Clear(out, cells[i], little)
  }

  /** After encoding, every cell holds its number. */
  lemma {:induction false} GridEncode(fields: seq<Field>, env: Env, known: set<string>, little: bool, base: nat, out: seq<Byte>,
                                      done: seq<Cell>)
    requires ValidFields(fields) && Referring(fields, env, known) && EncodeFields(fields, env, little, base, |out|, out).Wrote?
    requires var todo := CellsOf(fields, env, base, |out|);
             AllApart(done + todo, little) && AllHold(out, done, little) && AllClear(out, todo, little)
    ensures var r := EncodeFields(fields, env, little, base, |out|, out);
            && r.cursor == |r.out| == CursorEnd(fields, env, base, |out|) && Writable(fields, env, little)
            && AllHold(r.out, done + CellsOf(fields, env, base, |out|), little)
    decreases |fields|
  {
    var todo := CellsOf(fields, env, base, |out|);
    if fields == [] {
      assert done + todo == done;
    } else {
      var f, rest := fields[0], fields[1..];
      var r := EncodeField(f, env, little, base, |out|, out);
      var cursor := CursorAfter(f, env, base, |out|);
      var c, later := FieldCell(f, env, base, |out|), CellsOf(rest, env, base, cursor);
      assert todo == (if Present(f, env) then [c] else []) + later;
      assert CursorEnd(fields, env, base, |out|) == CursorEnd(rest, env, base, cursor);
      assert !Present(f, env) ==> todo == later && cursor == |out|;
      assert NumberField(f) && ValidField(f) && ValidFields(rest) && Referring(rest, env, Known(f, env, known));
      assert EncodeFields(fields, env, little, base, |out|, out) == EncodeFields(rest, env, little, base, r.cursor, r.out);
      hide EncodeFields, ValidFields, Referring, Known, EncodeField, AllHold, AllClear, AllApart, ValidField, NumberField, CellsOf, CursorEnd, CursorAfter, FieldCell, Present,
        Writable, Encodable, EvalWhen, Written, GoodCell, CellOf;
      if Present(f, env) {
        EncodeNumber(f, env, little, base, out);
        NumberCellIsGood(f, env, little, base, |out|);
        assert done + todo == (done + [c]) + later;
        WriteNext(f, out, c, done, later, little);
        GridEncode(rest, env, Known(f, env, known), little, base, r.out, done + [c]);
      } else {
        SkipNumber(f, env, little, base, out);
        GridEncode(rest, env, Known(f, env, known), little, base, out, done);
      }
      WritableStep(fields, env, little);
    }
  }

  lemma WritableStep(fields: seq<Field>, env: Env, little: bool)
    requires fields != [] && Writable(fields[1..], env, little) && EvalWhen(fields[0].when, env).Some?
    requires Present(fields[0], env) ==> Encodable(fields[0], env, little)
    ensures Writable(fields, env, little)
  {
    hide EvalWhen, Encodable;
    assert forall i :: 0 < i < |fields| ==> fields[i] == fields[1..][i - 1];
  }

  lemma NumberCellIsGood(f: Field, env: Env, little: bool, base: nat, cursor: nat)
    requires ValidField(f) && NumberField(f) && Encodable(f, env, little)
    ensures GoodCell(FieldCell(f, env, base, cursor)) && CellOf(FieldCell(f, env, base, cursor), f)
  {
    CellIsGood(f, env, little, base, cursor);
  }

  lemma SkipNumber(f: Field, env: Env, little: bool, base: nat, out: seq<Byte>)
    requires !Present(f, env) && EncodeField(f, env, little, base, |out|, out).Wrote?
    ensures EncodeField(f, env, little, base, |out|, out) == Wrote(|out|, out) && EvalWhen(f.when, env).Some?
  {
  }

  /** Writing the next cell keeps the earlier ones and leaves the later ones clear. */
  lemma WriteNext(f: Field, out: seq<Byte>, c: Cell, done: seq<Cell>, later: seq<Cell>, little: bool)
    requires GoodCell(c) && CellOf(c, f) && AllApart((done + [c]) + later, little)
    requires AllHold(out, done, little) && AllClear(out, [c] + later, little)
    ensures AllHold(Written(f, out, c, little), done + [c], little) && AllClear(Written(f, out, c, little), later, little)
  {
    var all, r := (done + [c]) + later, Written(f, out, c, little);
    hide Holds, Clear, Apart, Written, GoodCell;
    assert ([c] + later)[0] == c;
    WrittenHolds(f, out, c, little);
    forall i | 0 <= i < |done|
      ensures Holds(r, done[i], little)
    {
      assert all[i] == done[i] && all[|done|] == c;
      ApartBothWays(done[i], c, little);
      WrittenKeeps(f, out, c, done[i], little);
    }
    forall i | 0 <= i < |later|
      ensures Clear(r, later[i], little)
    {
      assert all[|done|] == c && all[|done| + 1 + i] == later[i] && ([c] + later)[i + 1] == later[i];
      WrittenKeeps(f, out, c, later[i], little);
    }
  }

  lemma ApartBothWays(c: Cell, d: Cell, little: bool)
    requires Apart(c, d, little)
    ensures Apart(d, c, little)
  {
  }

  // ------------------------------------------------------------------
  // Decoding reads them back
  // ------------------------------------------------------------------

  lemma DecodeNumber(f: Field, env: Env, acc: Env, known: set<string>, input: seq<Byte>, base: nat, cursor: nat, little: bool,
                     sums: map<string, bool>)
    requires ValidField(f) && NumberField(f) && Present(f, env) && Encodable(f, env, little)
    requires AgreeOn(acc, env, known) && WhenRefs(f.when) <= known && Holds(input, FieldCell(f, env, base, cursor), little)
    ensures DecodeField(f, input, base, cursor, little, acc, sums)
         == Read(CursorAfter(f, env, base, cursor), acc[f.name := env[f.name]], sums)
    ensures SameField(f, env, env[f.name])
  {
    var c := FieldCell(f, env, base, cursor);
    var v := env[f.name];
    var raw := input[c.start..c.start + c.length];
    hide Pow2, ReadField, DecodePayload, EncodePayload;
    SameWhen(f.when, acc, env, known);
    CellIsGood(f, env, little, base, cursor);
    ReadCell(input, c, little);
    DecodedNumber(f, v, raw, little);
    hide Holds, DecodePayload, EncodePayload, GoodCell, EvalWhen, AgreeOn, WhenRefs;
    assert DecodeItem(f, raw, input, base, c.start, little, acc, sums) == Item(v, sums);
    hide DecodeItem;
    DecodeLone(f, input, base, c.start, c.length, little, acc, v, sums);
  }

  lemma DecodeLone(f: Field, input: seq<Byte>, base: nat, at: nat, length: nat, little: bool, acc: Env, v: Value,
                   sums: map<string, bool>)
    requires at + length <= |input| && Length(f, acc, input, at) == Some(length)
    requires DecodeItem(f, input[at..at + length], input, base, at, little, acc, sums) == Item(v, sums)
    ensures DecodeItems(f, 1, input, base, at, little, acc, [], sums) == Got(at + length, [v], sums)
  {
    hide DecodeItem, Length;
    assert DecodeItems(f, 0, input, base, at + length, little, acc, [] + [v], sums) == Got(at + length, [v], sums);
  }

  lemma {:induction false} GridDecode(fields: seq<Field>, env: Env, acc: Env, known: set<string>, little: bool, base: nat,
                                      cursor: nat, input: seq<Byte>, sums: map<string, bool>)
    returns (got: Env)
    requires ValidFields(fields) && Referring(fields, env, known) && Writable(fields, env, little)
    requires AgreeOn(acc, env, known) && forall i :: 0 <= i < |fields| ==> fields[i].name !in acc
    requires AllHold(input, CellsOf(fields, env, base, cursor), little)
    ensures DecodeFields(fields, input, base, cursor, little, acc, sums) == Read(CursorEnd(fields, env, base, cursor), acc + got, sums)
    ensures Matches(fields, env, got) && forall k :: k in got ==> !Unnamed(fields, k)
    decreases |fields|
  {
    if fields == [] {
      got := map[];
      assert acc + got == acc;
    } else {
      var f, rest := fields[0], fields[1..];
      hide DecodeField, Holds, ValidField, NumberField, Encodable, FieldCell, EvalWhen, SameField, WhenRefs, CursorAfter;
      var cells, later := CellsOf(fields, env, base, cursor), CellsOf(rest, env, base, CursorAfter(f, env, base, cursor));
      if Present(f, env) {
        assert cells == [FieldCell(f, env, base, cursor)] + later;
        LaterHold(input, FieldCell(f, env, base, cursor), later, little);
        DecodeNumber(f, env, acc, known, input, base, cursor, little, sums);
        NumberKnown(f, env, acc, known);
        got := GridDecode(rest, env, acc[f.name := env[f.name]], Known(f, env, known), little, base,
                          CursorAfter(f, env, base, cursor), input, sums);
        got := PrependMatch(fields, env, acc, env[f.name], got);
      } else {
        assert cells == later;
        AbsentNumber(f, env, acc, known, little, base, cursor, input, sums);
        got := GridDecode(rest, env, acc, Known(f, env, known), little, base, cursor, input, sums);
        AbsentMatch(fields, env, got);
      }
    }
  }

  lemma LaterHold(input: seq<Byte>, c: Cell, later: seq<Cell>, little: bool)
    requires AllHold(input, [c] + later, little)
    ensures Holds(input, c, little) && AllHold(input, later, little)
  {
    hide Holds;
    assert ([c] + later)[0] == c;
    assert forall i :: 0 <= i < |later| ==> ([c] + later)[i + 1] == later[i];
  }

  lemma NumberKnown(f: Field, env: Env, acc: Env, known: set<string>)
    requires AgreeOn(acc, env, known) && f.name !in acc && f.name in env
    ensures AgreeOn(acc[f.name := env[f.name]], env, Known(f, env, known))
  {
  }

  lemma AbsentNumber(f: Field, env: Env, acc: Env, known: set<string>, little: bool, base: nat, cursor: nat, input: seq<Byte>,
                     sums: map<string, bool>)
    requires AgreeOn(acc, env, known) && WhenRefs(f.when) <= known && !Present(f, env) && EvalWhen(f.when, env).Some?
    ensures DecodeField(f, input, base, cursor, little, acc, sums) == Read(cursor, acc, sums)
  {
    SameWhen(f.when, acc, env, known);
  }

  lemma AbsentMatch(fields: seq<Field>, env: Env, got: Env)
    requires fields != [] && !Present(fields[0], env) && Matches(fields[1..], env, got)
    requires forall k :: k in got ==> !Unnamed(fields[1..], k)
    ensures Matches(fields, env, got) && forall k :: k in got ==> !Unnamed(fields, k)
  {
    forall k | k in got
      ensures !Unnamed(fields, k)
    {
      var i :| 0 <= i < |fields[1..]| && fields[1..][i].name == k;
      assert fields[i + 1].name == k;
    }
  }

  /** Number fields at any offsets, as long as no two own the same bit: what is
      encoded decodes to the same values, everything is consumed and nothing is left
      over. */
  lemma GridRoundTrip(schema: Schema, env: Env)
    requires Grid(schema, env) && EncodeSchema(schema, env).Some?
    ensures var bytes := EncodeSchema(schema, env).value;
            var r := DecodeSchema(schema, bytes);
            && r.Some? && r.value.consumed == |bytes| && r.value.unknown == []
            && Matches(schema.fields, env, r.value.fields) && r.value.sums == map[]
  {
    var fields, base, little := schema.fields, schema.offset, schema.little;
    var out := Grown([], base);
    var cells := CellsOf(fields, env, base, base);
    hide EncodeFields, DecodeFields, Matches, ValidFields, Referring, CellsOf, CursorEnd;
    assert [] + cells == cells;
    ZeroesAreClear(base, cells, little);
    GridEncode(fields, env, {}, little, base, out, []);
    var bytes := EncodeSchema(schema, env).value;
    CursorGrows(fields, env, base, base);
    var got := GridDecode(fields, env, map[], {}, little, base, base, bytes, map[]);
    assert map[] + got == got;
  }

  lemma {:induction false} CursorGrows(fields: seq<Field>, env: Env, base: nat, cursor: nat)
    ensures CursorEnd(fields, env, base, cursor) >= cursor
    decreases |fields|
  {
    if fields != [] {
      CursorGrows(fields[1..], env, base, CursorAfter(fields[0], env, base, cursor));
    }
  }

  lemma ZeroesAreClear(n: nat, cells: seq<Cell>, little: bool)
    ensures AllClear(Grown([], n), cells, little)
  {
    hide Bit, Where;
    forall i, j: nat | 0 <= i < |cells| && j < cells[i].bits && Where(cells[i], j, little) >= 0
      ensures !BufBit(Grown([], n), Where(cells[i], j, little))
    {
      ZeroBit(Where(cells[i], j, little) % 8);
    }
  }
}
