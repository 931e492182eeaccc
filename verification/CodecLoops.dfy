/** The codec as loops over cursors, buffers and maps. */
module CodecLoops {
  import opened Bytes
  import opened Protocols
  import opened Syntax
  import opened Crc
  import opened Integers
  import opened Schemas
  import opened Codec

  method Encode(fields: seq<Field>, env: Env, little: bool, base: nat, out0: seq<Byte>) returns (r: Encoded)
    ensures r == EncodeFields(fields, env, little, base, Max(|out0|, base), out0)
    decreases fields, 0
  {
    hide EncodeField;
    var out, cursor := out0, Max(|out0|, base);
    var k := 0;
    while k < |fields|
      invariant 0 <= k <= |fields|
      invariant EncodeFields(fields, env, little, base, Max(|out0|, base), out0)
             == EncodeFields(fields[k..], env, little, base, cursor, out)
    {
      assert fields[k..][0] == fields[k] && fields[k..][1..] == fields[k + 1..];
      var one := EncodeOne(fields[k], env, little, base, cursor, out);
      if one.EncodeError? {
        return EncodeError;
      }
      cursor, out := one.cursor, one.out;
      k := k + 1;
    }
    r := Wrote(cursor, out);
  }

  method EncodeOne(f: Field, env: Env, little: bool, base: nat, cursor: nat, out0: seq<Byte>) returns (r: Encoded)
    ensures r == EncodeField(f, env, little, base, cursor, out0)
    decreases f, 3
  {
    hide EncodeItem, Placed;
    var present := EvalWhen(f.when, env);
    if present.None? {
      return EncodeError;
    }
    if !present.value {
      return Wrote(cursor, out0);
    }
    var start: nat := if f.offset.Some? then base + f.offset.value else cursor;
    var count := Count(f, env);
    if count.None? {
      return EncodeError;
    }
    var items := Supplied(f, env, count.value);
    if items.None? {
      return EncodeError;
    }
    var out, at: nat := Grown(out0, start), start;
    var i := 0;
    while i < |items.value|
      invariant 0 <= i <= |items.value|
      invariant EncodeItems(f, items.value, env, little, base, start, Grown(out0, start))
             == EncodeItems(f, items.value[i..], env, little, base, at, out)
    {
      assert items.value[i..][0] == items.value[i] && items.value[i..][1..] == items.value[i + 1..];
      var raw := EncodeValue(f, items.value[i], env, little, base, at, out);
      if raw.None? || !LengthHolds(f, env, |raw.value|) {
        return EncodeError;
      }
      out := Placed(f, out, at, raw.value);
      at := at + |raw.value|;
      i := i + 1;
    }
    r := Wrote(Max(cursor, at), out);
  }

  method EncodeValue(f: Field, v: Value, env: Env, little: bool, base: nat, at: nat, out: seq<Byte>) returns (r: Option<seq<Byte>>)
    ensures r == EncodeItem(f, v, env, little, base, at, out)
    decreases f, 1
  {
    hide EncodeFields, Checksum, EncodeScalar;
    if f.fields != [] {
      if !v.Object? {
        return None;
      }
      var inner := Encode(f.fields, v.fields, little, 0, []);
      r := WrittenBytes(inner);
    } else if f.switchOn.Some? {
      var i := Selected(f, env);
      if i.None? || !v.Object? {
        return None;
      }
      var inner := Encode(f.cases[i.value].fields, v.fields, little, 0, []);
      r := WrittenBytes(inner);
    } else if f.checksum.Some? {
      var covered := Covered(f, out, base, at);
      if covered.None? {
        return None;
      }
      var c := Compute(f.checksum.value, covered.value);
      r := WriteField(c, f.length, little);
    } else if f.bits == 0 {
      r := None;
    } else {
      r := EncodeScalar(f, v, little);
    }
  }

  method Decode(fields: seq<Field>, input: seq<Byte>, base: nat, cursor0: nat, little: bool, sums0: map<string, bool>)
    returns (r: Decoded)
    ensures r == DecodeFields(fields, input, base, cursor0, little, map[], sums0)
    decreases fields, 0
  {
    hide DecodeField;
    var cursor, env, sums := cursor0, map[], sums0;
    var k := 0;
    while k < |fields|
      invariant 0 <= k <= |fields|
      invariant DecodeFields(fields, input, base, cursor0, little, map[], sums0)
             == DecodeFields(fields[k..], input, base, cursor, little, env, sums)
    {
      assert fields[k..][0] == fields[k] && fields[k..][1..] == fields[k + 1..];
      var one := DecodeOne(fields[k], input, base, cursor, little, env, sums);
      if one.DecodeError? {
        return DecodeError;
      }
      cursor, env, sums := one.cursor, one.env, one.sums;
      k := k + 1;
    }
    r := Read(cursor, env, sums);
  }

  method DecodeOne(f: Field, input: seq<Byte>, base: nat, cursor: nat, little: bool, env: Env, sums0: map<string, bool>)
    returns (r: Decoded)
    ensures r == DecodeField(f, input, base, cursor, little, env, sums0)
    decreases f, 3
  {
    hide DecodeItem, Length;
    var present := EvalWhen(f.when, env);
    if present.None? {
      return DecodeError;
    }
    if !present.value {
      return Read(cursor, env, sums0);
    }
    var start: nat := if f.offset.Some? then base + f.offset.value else cursor;
    var count := Count(f, env);
    if count.None? {
      return DecodeError;
    }
    var at: nat, values, sums := start, [], sums0;
    var n := count.value;
    while n > 0
      invariant DecodeItems(f, count.value, input, base, start, little, env, [], sums0)
             == DecodeItems(f, n, input, base, at, little, env, values, sums)
    {
      var length := Length(f, env, input, at);
      if length.None? {
        return DecodeError;
      }
      var raw := Window(input, at, at + length.value);
      if raw.None? {
        return DecodeError;
      }
      var one := DecodeOneItem(f, raw.value, input, base, at, little, env, sums);
      if one.BadItem? {
        return DecodeError;
      }
      at, values, sums, n := at + length.value, values + [one.value], one.sums, n - 1;
    }
    r := Read(Max(cursor, at), env[f.name := Gathered(values)], sums);
  }

  method DecodeOneItem(f: Field, raw: seq<Byte>, input: seq<Byte>, base: nat, at: nat, little: bool, env: Env,
                       sums: map<string, bool>) returns (r: One)
    ensures r == DecodeItem(f, raw, input, base, at, little, env, sums)
    decreases f, 1
  {
    hide DecodeFields, Checksum, DecodeScalar, ReadField;
    if f.fields != [] {
      var inner := Decode(f.fields, raw, 0, 0, little, sums);
      r := Nested(inner);
    } else if f.switchOn.Some? {
      var i := Selected(f, env);
      if i.None? {
        return BadItem;
      }
      var inner := Decode(f.cases[i.value].fields, raw, 0, 0, little, sums);
      r := Nested(inner);
    } else if f.bits == 0 || (f.terminator.Some? && |raw| < |f.terminator.value|) {
      r := BadItem;
    } else {
      var v := DecodeScalar(f, raw, little);
      r := if v.None? then BadItem else Item(v.value, sums);
    }
    if r.Item? && f.checksum.Some? {
      var covered := Covered(f, input, base, at);
      var expected := IntegerFromBytes(raw, little, 0, |raw| * 8);
      if covered.None? || expected.None? {
        return BadItem;
      }
      var c := Compute(f.checksum.value, covered.value);
      r := Item(r.value, r.sums[f.name := c == expected.value]);
    }
  }

  method EncodeMessage(schema: Schema, env: Env) returns (r: Option<seq<Byte>>)
    ensures r == EncodeSchema(schema, env)
  {
    hide EncodeFields;
    var w := Encode(schema.fields, env, schema.little, schema.offset, Grown([], schema.offset));
    r := WrittenBytes(w);
  }

  method DecodeMessage(schema: Schema, bytes: seq<Byte>) returns (r: Option<Message>)
    ensures r == DecodeSchema(schema, bytes)
  {
    hide DecodeFields;
    if schema.offset > |bytes| {
      return None;
    }
    var d := Decode(schema.fields, bytes, schema.offset, schema.offset, schema.little, map[]);
    match d
    case DecodeError => r := None;
    case Read(cursor, env, sums) =>
      r := Some(Message(env, sums, cursor, if cursor <= |bytes| then bytes[cursor..] else []));
  }
}
