/** Declarative message schemas and the lookups their fields make. */
module Schemas {
  import opened Bytes
  import opened Protocols
  import opened Syntax
  import opened Crc
  import opened Integers

  datatype Format = Uint | Int | Flag | Octets | Ascii

  /** A field's `when` expression. */
  datatype When =
    | Always
    | Compare(name: string, literal: Value, equal: bool)
    | Negated(name: string)
    | Truthy(name: string)

  /** What a checksum covers; the last case is a text that is no range. */
  datatype Range = AllBefore | Span(start: nat, end: nat) | BadRange

  datatype Field = Field(
    name: string,
    offset: Option<nat>,
    length: nat,
    lengthFrom: Option<string>,
    lengthAdjust: int,
    repeat: nat,
    repeatFrom: Option<string>,
    terminator: Option<seq<Byte>>,
    when: When,
    bitOffset: nat,
    bits: nat,
    format: Format,
    fields: seq<Field>,
    switchOn: Option<string>,
    cases: seq<Case>,
    checksum: Option<Algorithm>,
    range: Range)

  datatype Case = Case(key: string, fields: seq<Field>)

  datatype Schema = Schema(offset: nat, little: bool, fields: seq<Field>)

  type Env = map<string, Value>

  const U64 := 0x1_0000_0000_0000_0000
  const I64 := 0x8000_0000_0000_0000

  // ------------------------------------------------------------------
  // Values
  // ------------------------------------------------------------------

  function AsU64(v: Value): (r: Option<nat>) {
    if v.Number? && 0 <= v.n < U64 then Some(v.n) else None
  }

  function AsI64(v: Value): (r: Option<int>) {
    if v.Number? && -I64 <= v.n < I64 then Some(v.n) else None
  }

  /** The plain value inside an object that carries one. */
  function Underlying(v: Value): Value {
    if v.Object? && "value" in v.fields then v.fields["value"] else v
  }

  function Digits(n: nat): string {
    if n < 10 then [('0' as int + n) as char] else Digits(n / 10) + [('0' as int + n % 10) as char]
  }

  /** A number as a case key, clamped to 64 signed bits. */
  function NumberKey(n: int): string {
    if n >= I64 then Digits(I64 - 1)
    else if n >= 0 then Digits(n)
    else if n >= -I64 then "-" + Digits(-n)
    else "-" + Digits(I64)
  }

  function ScalarKey(v: Value): (r: Option<string>) {
    match v
    case Object(fields) => if "value" in fields then ScalarKey(fields["value"]) else None
    case Number(n) => Some(NumberKey(n))
    case Str(s) => Some(s)
    case Bool(b) => Some(if b then "true" else "false")
    case Null => Some("null")
    case _ => None
  }

  // ------------------------------------------------------------------
  // References from one field to another
  // ------------------------------------------------------------------

  function EvalWhen(w: When, env: Env): (r: Option<bool>) {
    match w
    case Always => Some(true)
    case Compare(name, literal, equal) =>
      if name in env then Some((Underlying(env[name]) == literal) == equal) else None
    case Negated(name) =>
      if name in env && Underlying(env[name]).Bool? then Some(!Underlying(env[name]).b) else None
    case Truthy(name) =>
      if name in env && Underlying(env[name]).Bool? then Some(Underlying(env[name]).b) else None
  }

  function RefNat(name: string, env: Env): (r: Option<nat>) {
    if name in env then AsU64(Underlying(env[name])) else None
  }

  function Count(f: Field, env: Env): (r: Option<nat>) {
    if f.repeatFrom.Some? then RefNat(f.repeatFrom.value, env) else Some(f.repeat)
  }

  function DeclaredLength(f: Field, env: Env): (r: Option<nat>) {
    var base := if f.lengthFrom.Some? then RefNat(f.lengthFrom.value, env) else Some(f.length);
    if base.Some? && base.value + f.lengthAdjust >= 0 then Some(base.value + f.lengthAdjust) else None
  }

  function CaseIndex(cases: seq<Case>, key: string, from: nat): (r: Option<nat>)
    requires from <= |cases|
    ensures r.Some? ==> r.value < |cases| && cases[r.value].key == key
    decreases |cases| - from
  {
    if from == |cases| then None
    else if cases[from].key == key then Some(from)
    else CaseIndex(cases, key, from + 1)
  }

  /** The case a switch takes, or else its default. */
  function Selected(f: Field, env: Env): (r: Option<nat>)
    requires f.switchOn.Some?
    ensures r.Some? ==> r.value < |f.cases|
  {
    if f.switchOn.value !in env then None
    else
      var key := ScalarKey(env[f.switchOn.value]);
      if key.None? then None
      else
        var hit := CaseIndex(f.cases, key.value, 0);
        if hit.Some? then hit else CaseIndex(f.cases, "default", 0)
  }

  // ------------------------------------------------------------------
  // Terminators and checksums
  // ------------------------------------------------------------------

  /** The first place from `i` on where `t` stands in `s`. */
  function FirstMatch(s: seq<Byte>, t: seq<Byte>, i: nat): (r: Option<nat>)
    ensures r.Some? ==> i <= r.value && r.value + |t| <= |s| && s[r.value..r.value + |t|] == t
    decreases |s| - i
  {
    if i + |t| > |s| then None
    else if s[i..i + |t|] == t then Some(i)
    else if i == |s| then None
    else FirstMatch(s, t, i + 1)
  }

  function Length(f: Field, env: Env, input: seq<Byte>, start: nat): (r: Option<nat>) {
    if f.terminator.Some? then
      if start > |input| then None
      else
        var hit := FirstMatch(input[start..], f.terminator.value, 0);
        if hit.Some? then Some(hit.value + |f.terminator.value|) else None
    else DeclaredLength(f, env)
  }

  /** `bytes.get(lo..hi)` */
  function Window(bytes: seq<Byte>, lo: nat, hi: nat): (r: Option<seq<Byte>>) {
    if lo <= hi <= |bytes| then Some(bytes[lo..hi]) else None
  }

  function Covered(f: Field, bytes: seq<Byte>, base: nat, current: nat): (r: Option<seq<Byte>>) {
    match f.range
    case AllBefore => Window(bytes, base, current)
    case Span(start, end) => Window(bytes, base + start, base + end)
    case BadRange => None
  }

  // ------------------------------------------------------------------
  // Scalars
  // ------------------------------------------------------------------

  predicate IsAscii(s: string) {
    forall i :: 0 <= i < |s| ==> s[i] < 128 as char
  }

  function TextBytes(s: string): (b: seq<Byte>)
    requires IsAscii(s)
  {
    seq(|s|, (i: nat) requires i < |s| => s[i] as int)
  }

  predicate SevenBit(b: seq<Byte>) {
    forall i :: 0 <= i < |b| ==> b[i] < 128
  }

  function BytesText(b: seq<Byte>): string
    requires SevenBit(b)
  {
    seq(|b|, (i: nat) requires i < |b| => b[i] as char)
  }

  function EncodePayload(f: Field, v: Value, little: bool): (r: Option<seq<Byte>>)
    requires f.bits > 0
  {
    match f.format
    case Uint =>
      var n := AsU64(v);
      if n.None? || n.value >= Pow2(f.bits) then None
      else WriteField(Shifted(n.value, f.bitOffset), f.length, little)
    case Int =>
      var n := AsI64(v);
      if n.None? || n.value < 0 - Pow2(f.bits - 1) || n.value >= Pow2(f.bits - 1) then None
      else WriteField(Shifted(FromSigned(n.value, f.bits), f.bitOffset), f.length, little)
    case Flag => if !v.Bool? then None else WriteField(Shifted(if v.b then 1 else 0, f.bitOffset), f.length, little)
    case Octets => if v.Raw? then Some(v.bytes) else None
    case Ascii => if v.Str? && IsAscii(v.s) then Some(TextBytes(v.s)) else None
  }

  function EncodeScalar(f: Field, v: Value, little: bool): (r: Option<seq<Byte>>)
    requires f.bits > 0
  {
    var payload := EncodePayload(f, v, little);
    if payload.None? then None
    else Some(payload.value + if f.terminator.Some? then f.terminator.value else [])
  }

  function DecodePayload(f: Field, payload: seq<Byte>, little: bool): (r: Option<Value>)
    requires f.bits > 0
  {
    if f.format == Octets then Some(Raw(payload))
    else if f.format == Ascii then (if SevenBit(payload) then Some(Str(BytesText(payload))) else None)
    else
      var n := ReadField(payload, little, f.bitOffset, f.bits);
      if n.None? then None
      else if f.format == Int then Some(Number(ToSigned(n.value, f.bits)))
      else if f.format == Flag then Some(Bool(n.value != 0))
      else Some(Number(n.value))
  }

  function DecodeScalar(f: Field, bytes: seq<Byte>, little: bool): (r: Option<Value>)
    requires f.bits > 0 && (f.terminator.Some? ==> |f.terminator.value| <= |bytes|)
  {
    DecodePayload(f, if f.terminator.Some? then bytes[..|bytes| - |f.terminator.value|] else bytes, little)
  }

  // ------------------------------------------------------------------
  // Schemas the model layer lets through
  // ------------------------------------------------------------------

  predicate NumericFormat(f: Field) {
    f.format == Uint || f.format == Int || f.format == Flag
  }

  ghost predicate ValidField(f: Field)
    decreases f
  {
    && f.length >= 1 && f.repeat >= 1
    && 1 <= f.bits <= 64 && f.bitOffset <= 7 && f.bitOffset + f.bits <= 8 * f.length
    && (NumericFormat(f) ==> f.length <= 8)
    && (f.terminator.Some? ==> f.terminator.value != [])
    && (f.switchOn.Some? <==> f.cases != [])
    && (forall i :: 0 <= i < |f.fields| ==> ValidField(f.fields[i]))
    && (forall i :: 0 <= i < |f.cases| ==> forall j :: 0 <= j < |f.cases[i].fields| ==> ValidField(f.cases[i].fields[j]))
  }

  ghost predicate ValidFields(fields: seq<Field>) {
    forall i :: 0 <= i < |fields| ==> ValidField(fields[i])
  }
}
