/** The schema codec: `encode_fields` and `decode_fields`. */
module Codec {
  import opened Bytes
  import opened Protocols
  import opened Syntax
  import opened Crc
  import opened Integers
  import opened Schemas

  datatype Encoded = Wrote(cursor: nat, out: seq<Byte>) | EncodeError

  datatype Decoded = Read(cursor: nat, env: Env, sums: map<string, bool>) | DecodeError

  // ------------------------------------------------------------------
  // Writing into the buffer
  // ------------------------------------------------------------------

  function Max(a: nat, b: nat): nat {
    if a >= b then a else b
  }

  /** The buffer, zero-filled up to `n` bytes. */
  function Grown(out: seq<Byte>, n: nat): (r: seq<Byte>)
    ensures |r| == Max(|out|, n)
  {
    if |out| < n then out + seq(n - |out|, (_: nat) => 0) else out
  }

  function OrBits(a: nat, b: nat, n: nat): (r: nat)
    ensures r < Pow2(n)
  {
    if n == 0 then 0 else 2 * OrBits(a / 2, b / 2, n - 1) + if a % 2 == 1 || b % 2 == 1 then 1 else 0
  }

  function Or(a: Byte, b: Byte): (r: Byte) {
    Pow2Is256();
    OrBits(a, b, 8)
  }

  lemma {:induction false} OrWithZero(a: nat, n: nat)
    requires a < Pow2(n)
    ensures OrBits(a, 0, n) == a && OrBits(0, a, n) == a
  {
    if n > 0 {
      OrWithZero(a / 2, n - 1);
    }
  }

  /** A field narrower than its bytes is merged in, any other one overwrites. */
  function Placed(f: Field, out: seq<Byte>, at: nat, raw: seq<Byte>): (r: seq<Byte>) {
    var big := Grown(out, at + |raw|);
    var merge := f.bits < f.length * 8;
    big[..at]
    + seq(|raw|, (i: nat) requires i < |raw| && at + i < |big| => if merge then Or(big[at + i], raw[i]) else raw[i])
    + big[at + |raw|..]
  }

  /** The values to encode for a field, if there are as many as counted. */
  function Supplied(f: Field, env: Env, count: nat): (r: Option<seq<Value>>)
    ensures r.Some? ==> |r.value| == count
  {
    if f.checksum.Some? then Some(seq(count, (_: nat) => Null))
    else if f.name !in env then None
    else if count == 1 then Some([env[f.name]])
    else if env[f.name].Array? && |env[f.name].items| == count then Some(env[f.name].items)
    else None
  }

  // ------------------------------------------------------------------
  // Encoding
  // ------------------------------------------------------------------

  function EncodeFields(fields: seq<Field>, env: Env, little: bool, base: nat, cursor: nat, out: seq<Byte>): Encoded
    decreases fields, 0
  {
    if fields == [] then Wrote(cursor, out)
    else
      var r := EncodeField(fields[0], env, little, base, cursor, out);
      if r.EncodeError? then r else EncodeFields(fields[1..], env, little, base, r.cursor, r.out)
  }

  function EncodeField(f: Field, env: Env, little: bool, base: nat, cursor: nat, out: seq<Byte>): Encoded
    decreases f, 3
  {
    var present := EvalWhen(f.when, env);
    if present.None? then EncodeError
    else if !present.value then Wrote(cursor, out)
    else
      var start := if f.offset.Some? then base + f.offset.value else cursor;
      var count := Count(f, env);
      if count.None? then EncodeError
      else
        var items := Supplied(f, env, count.value);
        if items.None? then EncodeError
        else
          var r := EncodeItems(f, items.value, env, little, base, start, Grown(out, start));
          if r.EncodeError? then r else Wrote(Max(cursor, r.cursor), r.out)
  }

  function EncodeItems(f: Field, items: seq<Value>, env: Env, little: bool, base: nat, at: nat, out: seq<Byte>): Encoded
    decreases f, 2, |items|
  {
    if items == [] then Wrote(at, out)
    else
      var raw := EncodeItem(f, items[0], env, little, base, at, out);
      if raw.None? || !LengthHolds(f, env, |raw.value|) then EncodeError
      else EncodeItems(f, items[1..], env, little, base, at + |raw.value|, Placed(f, out, at, raw.value))
  }

  /** A terminated field may have any length, any other the declared one. */
  predicate LengthHolds(f: Field, env: Env, actual: nat) {
    f.terminator.Some? || DeclaredLength(f, env) == Some(actual)
  }

  function EncodeItem(f: Field, v: Value, env: Env, little: bool, base: nat, at: nat, out: seq<Byte>): (r: Option<seq<Byte>>)
    decreases f, 1
  {
    if f.fields != [] then
      if !v.Object? then None else WrittenBytes(EncodeFields(f.fields, v.fields, little, 0, 0, []))
    else if f.switchOn.Some? then
      var i := Selected(f, env);
      if i.None? || !v.Object? then None
      else WrittenBytes(EncodeFields(f.cases[i.value].fields, v.fields, little, 0, 0, []))
    else if f.checksum.Some? then
      var covered := Covered(f, out, base, at);
      if covered.None? then None else WriteField(Checksum(f.checksum.value, covered.value), f.length, little)
    else if f.bits == 0 then None
    else EncodeScalar(f, v, little)
  }

  function WrittenBytes(r: Encoded): Option<seq<Byte>> {
    if r.Wrote? then Some(r.out) else None
  }

  function EncodeSchema(schema: Schema, env: Env): (r: Option<seq<Byte>>) {
    WrittenBytes(EncodeFields(schema.fields, env, schema.little, schema.offset, schema.offset, Grown([], schema.offset)))
  }

  // ------------------------------------------------------------------
  // Decoding
  // ------------------------------------------------------------------

  datatype Items = Got(at: nat, values: seq<Value>, sums: map<string, bool>) | BadItems

  datatype One = Item(value: Value, sums: map<string, bool>) | BadItem

  function DecodeFields(fields: seq<Field>, input: seq<Byte>, base: nat, cursor: nat, little: bool, env: Env,
                        sums: map<string, bool>): Decoded
    decreases fields, 0
  {
    if fields == [] then Read(cursor, env, sums)
    else
      var r := DecodeField(fields[0], input, base, cursor, little, env, sums);
      if r.DecodeError? then r else DecodeFields(fields[1..], input, base, r.cursor, little, r.env, r.sums)
  }

  function DecodeField(f: Field, input: seq<Byte>, base: nat, cursor: nat, little: bool, env: Env,
                       sums: map<string, bool>): Decoded
    decreases f, 3
  {
    var present := EvalWhen(f.when, env);
    if present.None? then DecodeError
    else if !present.value then Read(cursor, env, sums)
    else
      var start := if f.offset.Some? then base + f.offset.value else cursor;
      var count := Count(f, env);
      if count.None? then DecodeError
      else
        var r := DecodeItems(f, count.value, input, base, start, little, env, [], sums);
        if r.BadItems? then DecodeError
        else Read(Max(cursor, r.at), env[f.name := Gathered(r.values)], r.sums)
  }

  /** One item stands for itself, any other number becomes an array. */
  function Gathered(values: seq<Value>): Value {
    if |values| == 1 then values[0] else Array(values)
  }

  function DecodeItems(f: Field, n: nat, input: seq<Byte>, base: nat, at: nat, little: bool, env: Env,
                       values: seq<Value>, sums: map<string, bool>): Items
    decreases f, 2, n
  {
    if n == 0 then Got(at, values, sums)
    else
      var length := Length(f, env, input, at);
      if length.None? then BadItems
      else
        var raw := Window(input, at, at + length.value);
        if raw.None? then BadItems
        else
          var one := DecodeItem(f, raw.value, input, base, at, little, env, sums);
          if one.BadItem? then BadItems
          else DecodeItems(f, n - 1, input, base, at + length.value, little, env, values + [one.value], one.sums)
  }

  function DecodeItem(f: Field, raw: seq<Byte>, input: seq<Byte>, base: nat, at: nat, little: bool, env: Env,
                      sums: map<string, bool>): One
    decreases f, 1
  {
    var one := DecodeValue(f, raw, little, env, sums);
    if one.BadItem? || f.checksum.None? then one
    else
      var covered := Covered(f, input, base, at);
      var expected := ReadField(raw, little, 0, |raw| * 8);
      if covered.None? || expected.None? then BadItem
      else Item(one.value, one.sums[f.name := Checksum(f.checksum.value, covered.value) == expected.value])
  }

  function DecodeValue(f: Field, raw: seq<Byte>, little: bool, env: Env, sums: map<string, bool>): One
    decreases f, 0
  {
    if f.fields != [] then Nested(DecodeFields(f.fields, raw, 0, 0, little, map[], sums))
    else if f.switchOn.Some? then
      var i := Selected(f, env);
      if i.None? then BadItem else Nested(DecodeFields(f.cases[i.value].fields, raw, 0, 0, little, map[], sums))
    else if f.bits == 0 || (f.terminator.Some? && |raw| < |f.terminator.value|) then BadItem
    else
      var v := DecodeScalar(f, raw, little);
      if v.None? then BadItem else Item(v.value, sums)
  }

  function Nested(r: Decoded): One {
    if r.Read? then Item(Object(r.env), r.sums) else BadItem
  }

  /** The decoded fields, the checksum verdicts, the bytes consumed and the rest. */
  datatype Message = Message(fields: Env, sums: map<string, bool>, consumed: nat, unknown: seq<Byte>)

  function DecodeSchema(schema: Schema, bytes: seq<Byte>): (r: Option<Message>) {
    if schema.offset > |bytes| then None
    else
      var r := DecodeFields(schema.fields, bytes, schema.offset, schema.offset, schema.little, map[], map[]);
      if r.DecodeError? then None
      else Some(Message(r.env, r.sums, r.cursor, if r.cursor <= |bytes| then bytes[r.cursor..] else []))
  }
}
