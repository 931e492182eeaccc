/** What a schema says about the messages it is used for: which fields are there, how
    many values they hold and of what kind.  The conditions are written on the values
    of the message itself. */
module Conformance {
  import opened Bytes
  import opened Protocols
  import opened Syntax
  import opened Crc
  import opened Integers
  import opened Schemas
  import opened Codec
  import opened RoundTrip

  // ------------------------------------------------------------------
  // Conditions and references
  // ------------------------------------------------------------------

  /** The value is `x`, or an object that carries `x` as its value. */
  ghost predicate Means(v: Value, x: Value) {
    if v.Object? && "value" in v.fields then v.fields["value"] == x else v == x
  }

  ghost predicate MeansBool(v: Value) {
    Means(v, Bool(true)) || Means(v, Bool(false))
  }

  /** The condition holds of the message. */
  ghost predicate Wanted(w: When, env: Env) {
    match w
    case Always => true
    case Compare(name, literal, equal) => name in env && (if equal then Means(env[name], literal) else !Means(env[name], literal))
    case Negated(name) => name in env && Means(env[name], Bool(false))
    case Truthy(name) => name in env && Means(env[name], Bool(true))
  }

  /** The condition can be decided: it names a field that is there, and a flag where a
      flag is needed. */
  ghost predicate Decidable(w: When, env: Env) {
    match w
    case Always => true
    case Compare(name, _, _) => name in env
    case Negated(name) => name in env && MeansBool(env[name])
    case Truthy(name) => name in env && MeansBool(env[name])
  }

  /** The field holds `n` values. */
  ghost predicate HasCount(f: Field, env: Env, n: nat) {
    if f.repeatFrom.Some? then f.repeatFrom.value in env && Means(env[f.repeatFrom.value], Number(n)) else n == f.repeat
  }

  /** An item takes `n` bytes. */
  ghost predicate HasLength(f: Field, env: Env, n: nat) {
    if f.lengthFrom.Some? then f.lengthFrom.value in env && Means(env[f.lengthFrom.value], Number(n - f.lengthAdjust))
    else n == f.length + f.lengthAdjust
  }

  function Read(digits: string): int {
    if digits == "" then 0 else 10 * Read(digits[..|digits| - 1]) + (digits[|digits| - 1] as int - '0' as int)
  }

  ghost predicate IsDecimal(k: string) {
    k != "" && (forall i :: 0 <= i < |k| ==> '0' <= k[i] <= '9') && (k[0] == '0' ==> |k| == 1)
  }

  ghost predicate Decimal(k: string, n: int) {
    if n >= 0 then IsDecimal(k) && Read(k) == n
    else k != "" && k[0] == '-' && IsDecimal(k[1..]) && Read(k[1..]) == -n
  }

  /** The text by which a value selects a case. */
  ghost predicate KeyText(v: Value, k: string)
    decreases v
  {
    match v
    case Object(fields) => "value" in fields && KeyText(fields["value"], k)
    case Number(n) =>
      Decimal(k, if n > 0x7fff_ffff_ffff_ffff then 0x7fff_ffff_ffff_ffff
                 else if n < -0x8000_0000_0000_0000 then -0x8000_0000_0000_0000 else n)
    case Str(s) => k == s
    case Bool(b) => k == if b then "true" else "false"
    case Null => k == "null"
    case _ => false
  }

  ghost predicate FirstWith(cases: seq<Case>, key: string, i: nat) {
    i < |cases| && cases[i].key == key && forall j :: 0 <= j < i ==> cases[j].key != key
  }

  /** The switch takes the first case with its text or, if there is none, the first
      default. */
  ghost predicate Takes(f: Field, env: Env, i: nat) {
    && f.switchOn.Some? && f.switchOn.value in env
    && exists k :: KeyText(env[f.switchOn.value], k)
               && if forall j :: 0 <= j < |f.cases| ==> f.cases[j].key != k then FirstWith(f.cases, "default", i)
                  else FirstWith(f.cases, k, i)
  }

  // ------------------------------------------------------------------
  // The lookups of the codec decide these
  // ------------------------------------------------------------------

  lemma WhenMeaning(w: When, env: Env)
    ensures EvalWhen(w, env) == if !Decidable(w, env) then None else Some(Wanted(w, env))
  {
  }

  lemma CountMeaning(f: Field, env: Env, n: nat)
    ensures Count(f, env) == Some(n) ==> HasCount(f, env, n) && (f.repeatFrom.Some? ==> n < 0x1_0000_0000_0000_0000)
    ensures HasCount(f, env, n) && (f.repeatFrom.Some? ==> n < 0x1_0000_0000_0000_0000) ==> Count(f, env) == Some(n)
  {
  }

  lemma LengthMeaning(f: Field, env: Env, n: nat)
    ensures DeclaredLength(f, env) == Some(n) ==>
              HasLength(f, env, n) && (f.lengthFrom.Some? ==> 0 <= n - f.lengthAdjust < 0x1_0000_0000_0000_0000)
    ensures HasLength(f, env, n) && (f.lengthFrom.Some? ==> 0 <= n - f.lengthAdjust < 0x1_0000_0000_0000_0000) ==>
              DeclaredLength(f, env) == Some(n)
  {
  }

  lemma {:induction false} DigitsMeaning(n: nat)
    ensures IsDecimal(Digits(n)) && Read(Digits(n)) == n
    ensures n > 0 ==> Digits(n)[0] != '0'
  {
    if n < 10 {
      assert Digits(n)[..0] == "";
    } else {
      DigitsMeaning(n / 10);
      var d := Digits(n);
      assert d[..|d| - 1] == Digits(n / 10);
    }
  }

  lemma NumberKeyMeaning(n: int)
    ensures KeyText(Number(n), NumberKey(n))
  {
    hide Digits;
    DigitsMeaning(if n >= 0 then n else -n);
    DigitsMeaning(I64 - 1);
    DigitsMeaning(I64);
    var k := NumberKey(n);
    if n < 0 {
      assert k[1..] == if n >= -I64 then Digits(-n) else Digits(I64);
    }
  }

  lemma {:induction false} ReadBound(k: string)
    requires k != "" && (forall i :: 0 <= i < |k| ==> '0' <= k[i] <= '9') && k[0] != '0'
    ensures Read(k) >= 1
  {
    var n := |k| - 1;
    if n == 0 {
      assert k[..0] == "";
    } else {
      ReadBound(k[..n]);
    }
  }

  /** A number has one decimal text. */
  lemma {:induction false} DecimalUnique(a: string, b: string)
    requires IsDecimal(a) && IsDecimal(b) && Read(a) == Read(b)
    ensures a == b
    decreases |a|
  {
    var m, n := |a| - 1, |b| - 1;
    assert m == 0 ==> a[..m] == "";
    assert n == 0 ==> b[..n] == "";
    if m > 0 {
      ReadBound(a[..m]);
    }
    if n > 0 {
      ReadBound(b[..n]);
    }
    if m > 0 && n > 0 {
      DecimalUnique(a[..m], b[..n]);
    }
    assert a == a[..m] + [a[m]] && b == b[..n] + [b[n]];
  }

  lemma SignedUnique(a: string, b: string, n: int)
    requires Decimal(a, n) && Decimal(b, n)
    ensures a == b
  {
    hide IsDecimal, Read;
    if n >= 0 {
      DecimalUnique(a, b);
    } else {
      DecimalUnique(a[1..], b[1..]);
      assert a == [a[0]] + a[1..] && b == [b[0]] + b[1..];
    }
  }

  lemma {:induction false} KeyMeaning(v: Value, k: string)
    ensures KeyText(v, k) <==> ScalarKey(v) == Some(k)
    decreases v
  {
    match v
    case Object(fields) =>
      if "value" in fields {
        KeyMeaning(fields["value"], k);
      }
    case Number(n) =>
      NumberKeyMeaning(n);
      hide Decimal, NumberKey;
      if KeyText(v, k) {
        SignedUnique(k, NumberKey(n), if n > I64 - 1 then I64 - 1 else if n < -I64 then -I64 else n);
      }
    case _ =>
  }

  lemma {:induction false} CaseMeaning(cases: seq<Case>, key: string, from: nat)
    requires from <= |cases| && forall j :: 0 <= j < from ==> cases[j].key != key
    ensures var r := CaseIndex(cases, key, from);
            if r.Some? then FirstWith(cases, key, r.value) else forall j :: 0 <= j < |cases| ==> cases[j].key != key
    decreases |cases| - from
  {
    if from < |cases| && cases[from].key != key {
      CaseMeaning(cases, key, from + 1);
    }
  }

  lemma SelectedMeaning(f: Field, env: Env, i: nat)
    requires f.switchOn.Some?
    ensures Selected(f, env) == Some(i) <==> Takes(f, env, i)
  {
    hide KeyText, CaseIndex, ScalarKey;
    if f.switchOn.value in env {
      var v := env[f.switchOn.value];
      forall k
        ensures KeyText(v, k) <==> ScalarKey(v) == Some(k)
      {
        KeyMeaning(v, k);
      }
      if ScalarKey(v).Some? {
        CaseMeaning(f.cases, ScalarKey(v).value, 0);
        CaseMeaning(f.cases, "default", 0);
        assert KeyText(v, ScalarKey(v).value);
      }
    }
  }

  // ------------------------------------------------------------------
  // Messages that conform
  // ------------------------------------------------------------------

  /** One value stands for itself, any other number of them is an array. */
  ghost predicate Holds(v: Value, items: seq<Value>) {
    if |items| == 1 then v == items[0] else v == Array(items)
  }

  /** The fields that are there are those whose condition holds, each with as many
      values as it should have, all of their kind.  A message that is to be encoded may
      hold more, and need not hold its checksums. */
  ghost predicate Conforms(fields: seq<Field>, env: Env, exact: bool)
    decreases fields, 0
  {
    forall i :: 0 <= i < |fields| ==> FieldConforms(fields[i], env, exact)
  }

  ghost predicate FieldConforms(f: Field, env: Env, exact: bool)
    decreases f, 2
  {
    && Decidable(f.when, env)
    && (exact ==> (f.name in env <==> Wanted(f.when, env)))
    && (Wanted(f.when, env) && (exact || f.checksum.None?) ==>
          && f.name in env
          && exists items :: Holds(env[f.name], items) && HasCount(f, env, |items|)
                         && forall k :: 0 <= k < |items| ==> ItemConforms(f, items[k], env, exact))
  }

  ghost predicate ItemConforms(f: Field, v: Value, env: Env, exact: bool)
    decreases f, 1
  {
    if f.fields != [] then v.Object? && Conforms(f.fields, v.fields, exact)
    else if f.switchOn.Some? then
      v.Object? && exists i :: 0 <= i < |f.cases| && Takes(f, env, i) && Conforms(f.cases[i].fields, v.fields, exact)
    else ScalarConforms(f, v, env)
  }

  ghost predicate ScalarConforms(f: Field, v: Value, env: Env) {
    && f.bits > 0
    && match f.format
       case Uint => v.Number? && 0 <= v.n < Pow2(f.bits)
       case Int => v.Number? && 0 - Pow2(f.bits - 1) <= v.n < Pow2(f.bits - 1)
       case Flag => v.Bool?
       case Octets => v.Raw? && (f.terminator.None? ==> HasLength(f, env, |v.bytes|))
       case Ascii =>
         v.Str? && (forall i :: 0 <= i < |v.s| ==> v.s[i] < 128 as char) && (f.terminator.None? ==> HasLength(f, env, |v.s|))
  }

  /** No two fields of one level share a name. */
  ghost predicate UniqueNames(fields: seq<Field>)
    decreases fields, 0
  {
    && (forall i, j :: 0 <= i < j < |fields| ==> fields[i].name != fields[j].name)
    && (forall i :: 0 <= i < |fields| ==> UniqueInside(fields[i]))
  }

  ghost predicate UniqueInside(f: Field)
    decreases f, 1
  {
    UniqueNames(f.fields) && forall i :: 0 <= i < |f.cases| ==> UniqueNames(f.cases[i].fields)
  }

  // ------------------------------------------------------------------
  // More fields do not disturb
  // ------------------------------------------------------------------

  ghost predicate Extends(env: Env, more: Env) {
    forall k :: k in env ==> k in more && more[k] == env[k]
  }

  lemma RefsExtend(f: Field, env: Env, more: Env)
    requires Extends(env, more)
    ensures Decidable(f.when, env) ==> Decidable(f.when, more) && (Wanted(f.when, more) <==> Wanted(f.when, env))
    ensures forall n: nat :: HasCount(f, env, n) ==> HasCount(f, more, n)
    ensures forall n: nat :: HasLength(f, env, n) ==> HasLength(f, more, n)
    ensures forall i: nat :: Takes(f, env, i) ==> Takes(f, more, i)
  {
    hide KeyText, FirstWith;
  }

  lemma ItemExtends(f: Field, v: Value, env: Env, more: Env, exact: bool)
    requires Extends(env, more) && ItemConforms(f, v, env, exact)
    ensures ItemConforms(f, v, more, exact)
  {
    hide Conforms, Takes, HasLength, Extends;
    RefsExtend(f, env, more);
  }

  lemma FieldExtends(f: Field, env: Env, more: Env, exact: bool)
    requires Extends(env, more) && FieldConforms(f, env, exact)
    requires f.name in more ==> f.name in env
    ensures FieldConforms(f, more, exact)
  {
    RefsExtend(f, env, more);
    hide ItemConforms, Decidable, Wanted, HasCount, Holds;
    if Wanted(f.when, env) && (exact || f.checksum.None?) {
      var items :| Holds(env[f.name], items) && HasCount(f, env, |items|)
                   && forall k :: 0 <= k < |items| ==> ItemConforms(f, items[k], env, exact);
      forall k | 0 <= k < |items|
        ensures ItemConforms(f, items[k], more, exact)
      {
        ItemExtends(f, items[k], env, more, exact);
      }
    }
  }

  // ------------------------------------------------------------------
  // What is decoded conforms
  // ------------------------------------------------------------------

  lemma {:induction false} DecodedFieldsConform(fields: seq<Field>, input: seq<Byte>, base: nat, cursor: nat, little: bool,
                                                env: Env, sums: map<string, bool>)
    requires UniqueNames(fields) && forall i :: 0 <= i < |fields| ==> fields[i].name !in env
    requires DecodeFields(fields, input, base, cursor, little, env, sums).Read?
    ensures var r := DecodeFields(fields, input, base, cursor, little, env, sums);
            && Extends(env, r.env) && Conforms(fields, r.env, true)
            && forall k :: k in r.env && k !in env ==> exists i :: 0 <= i < |fields| && k == fields[i].name
    decreases fields, 0
  {
    if fields != [] {
      var f, rest := fields[0], fields[1..];
      var one := DecodeField(f, input, base, cursor, little, env, sums);
      var r := DecodeFields(fields, input, base, cursor, little, env, sums);
      assert r == DecodeFields(rest, input, base, one.cursor, little, one.env, one.sums);
      assert UniqueNames(rest) && UniqueInside(f);
      assert forall i :: 0 <= i < |rest| ==> rest[i].name == fields[i + 1].name != f.name;
      assert forall j :: 0 < j < |fields| ==> f.name != fields[j].name;
      hide DecodeFields, DecodeField, FieldConforms, UniqueNames, UniqueInside;
      DecodedFieldConforms(f, input, base, cursor, little, env, sums);
      DecodedFieldsConform(rest, input, base, one.cursor, little, one.env, one.sums);
      JoinedConforms(fields, env, one.env, r.env);
    }
  }

  lemma JoinedConforms(fields: seq<Field>, env: Env, one: Env, all: Env)
    requires fields != [] && Extends(env, one) && Extends(one, all)
    requires forall j :: 0 < j < |fields| ==> fields[0].name != fields[j].name
    requires FieldConforms(fields[0], one, true) && Conforms(fields[1..], all, true)
    requires forall k :: k in one && k !in env ==> k == fields[0].name
    requires forall k :: k in all && k !in one ==> exists i :: 0 <= i < |fields[1..]| && k == fields[1..][i].name
    ensures Extends(env, all) && Conforms(fields, all, true)
    ensures forall k :: k in all && k !in env ==> exists i :: 0 <= i < |fields| && k == fields[i].name
  {
    hide FieldConforms;
    FieldExtends(fields[0], one, all, true);
    forall i | 0 <= i < |fields|
      ensures FieldConforms(fields[i], all, true)
    {
      assert i > 0 ==> fields[i] == fields[1..][i - 1];
    }
    forall k | k in all && k !in env
      ensures exists i :: 0 <= i < |fields| && k == fields[i].name
    {
      if k !in one {
        var i :| 0 <= i < |fields[1..]| && k == fields[1..][i].name;
        assert fields[i + 1] == fields[1..][i];
      }
    }
  }

  lemma {:induction false} DecodedFieldConforms(f: Field, input: seq<Byte>, base: nat, cursor: nat, little: bool, env: Env,
                                                sums: map<string, bool>)
    requires UniqueInside(f) && f.name !in env
    requires DecodeField(f, input, base, cursor, little, env, sums).Read?
    ensures var r := DecodeField(f, input, base, cursor, little, env, sums);
            && Extends(env, r.env) && FieldConforms(f, r.env, true)
            && forall k :: k in r.env && k !in env ==> k == f.name
    decreases f, 3
  {
    var r := DecodeField(f, input, base, cursor, little, env, sums);
    WhenMeaning(f.when, env);
    hide EvalWhen, Decidable, Wanted, UniqueInside, ItemConforms, DecodeItems, HasCount;
    RefsExtend(f, env, r.env);
    if Wanted(f.when, env) {
      var n := Count(f, env).value;
      CountMeaning(f, env, n);
      var start := if f.offset.Some? then base + f.offset.value else cursor;
      var items := DecodedItemsConform(f, n, input, base, start, little, env, [], sums);
      var got := DecodeItems(f, n, input, base, start, little, env, [], sums);
      assert got.values == items;
      forall k | 0 <= k < |items|
        ensures ItemConforms(f, items[k], r.env, true)
      {
        ItemExtends(f, items[k], env, r.env, true);
      }
      assert Holds(r.env[f.name], items);
    }
  }

  lemma {:induction false} DecodedItemsConform(f: Field, n: nat, input: seq<Byte>, base: nat, at: nat, little: bool, env: Env,
                                               values: seq<Value>, sums: map<string, bool>) returns (items: seq<Value>)
    requires UniqueInside(f) && DecodeItems(f, n, input, base, at, little, env, values, sums).Got?
    ensures DecodeItems(f, n, input, base, at, little, env, values, sums).values == values + items
    ensures |items| == n && forall k :: 0 <= k < |items| ==> ItemConforms(f, items[k], env, true)
    decreases f, 2, n
  {
    hide *;
    if n == 0 {
      NoItems(f, input, base, at, little, env, values, sums);
      items := [];
    } else {
      var raw, one := FirstItem(f, n, input, base, at, little, env, values, sums);
      DecodedItemConforms(f, raw, input, base, at, little, env, sums);
      var rest := DecodedItemsConform(f, n - 1, input, base, at + |raw|, little, env, values + [one.value], one.sums);
      items := [one.value] + rest;
      assert values + items == values + [one.value] + rest;
    }
  }

  lemma NoItems(f: Field, input: seq<Byte>, base: nat, at: nat, little: bool, env: Env, values: seq<Value>, sums: map<string, bool>)
    ensures DecodeItems(f, 0, input, base, at, little, env, values, sums) == Got(at, values, sums)
  {
  }

  lemma FirstItem(f: Field, n: nat, input: seq<Byte>, base: nat, at: nat, little: bool, env: Env,
                  values: seq<Value>, sums: map<string, bool>) returns (raw: seq<Byte>, one: One)
    requires n > 0 && DecodeItems(f, n, input, base, at, little, env, values, sums).Got?
    ensures one == DecodeItem(f, raw, input, base, at, little, env, sums) && one.Item?
    ensures DecodeItems(f, n, input, base, at, little, env, values, sums)
         == DecodeItems(f, n - 1, input, base, at + |raw|, little, env, values + [one.value], one.sums)
    ensures f.terminator.None? ==> DeclaredLength(f, env) == Some(|raw|)
  {
    hide DecodeItem, DeclaredLength;
    raw := input[at..at + Length(f, env, input, at).value];
    one := DecodeItem(f, raw, input, base, at, little, env, sums);
  }

  lemma {:induction false} DecodedItemConforms(f: Field, raw: seq<Byte>, input: seq<Byte>, base: nat, at: nat, little: bool,
                                               env: Env, sums: map<string, bool>)
    requires UniqueInside(f) && DecodeItem(f, raw, input, base, at, little, env, sums).Item?
    requires f.terminator.None? ==> DeclaredLength(f, env) == Some(|raw|)
    ensures ItemConforms(f, DecodeItem(f, raw, input, base, at, little, env, sums).value, env, true)
    decreases f, 1
  {
    var v := DecodeItem(f, raw, input, base, at, little, env, sums).value;
    if f.fields != [] {
      DecodedFieldsConform(f.fields, raw, 0, 0, little, map[], sums);
    } else if f.switchOn.Some? {
      var i := Selected(f, env).value;
      SelectedMeaning(f, env, i);
      DecodedFieldsConform(f.cases[i].fields, raw, 0, 0, little, map[], sums);
    } else {
      DecodedScalarConforms(f, raw, little, env);
    }
  }

  lemma DecodedScalarConforms(f: Field, raw: seq<Byte>, little: bool, env: Env)
    requires f.bits > 0 && (f.terminator.Some? ==> |f.terminator.value| <= |raw|)
    requires f.terminator.None? ==> DeclaredLength(f, env) == Some(|raw|)
    requires DecodeScalar(f, raw, little).Some?
    ensures ScalarConforms(f, DecodeScalar(f, raw, little).value, env)
  {
    LengthMeaning(f, env, |raw|);
    hide HasLength, DeclaredLength, FromBytes;
    var m := Pow2(f.bits);
    assert m == 2 * Pow2(f.bits - 1);
    hide Pow2;
  }

  /** A decoded message holds a field iff the field's condition holds of the message,
      with as many values of its kind as it should; and it holds nothing else. */
  lemma DecodedConforms(schema: Schema, bytes: seq<Byte>)
    requires UniqueNames(schema.fields) && DecodeSchema(schema, bytes).Some?
    ensures var message := DecodeSchema(schema, bytes).value.fields;
            && Conforms(schema.fields, message, true)
            && (forall i :: 0 <= i < |schema.fields| ==>
                  (schema.fields[i].name in message <==> Wanted(schema.fields[i].when, message)))
            && forall k :: k in message ==> exists i :: 0 <= i < |schema.fields| && k == schema.fields[i].name
  {
    hide DecodeFields, UniqueNames;
    DecodedFieldsConform(schema.fields, bytes, schema.offset, schema.offset, schema.little, map[], map[]);
  }

  // ------------------------------------------------------------------
  // What is encoded conforms
  // ------------------------------------------------------------------

  lemma {:induction false} EncodedFieldsConform(fields: seq<Field>, env: Env, little: bool, base: nat, cursor: nat, out: seq<Byte>)
    requires EncodeFields(fields, env, little, base, cursor, out).Wrote?
    ensures Conforms(fields, env, false)
    decreases fields, 0
  {
    if fields != [] {
      var one := EncodeField(fields[0], env, little, base, cursor, out);
      hide EncodeField, FieldConforms;
      EncodedFieldConforms(fields[0], env, little, base, cursor, out);
      EncodedFieldsConform(fields[1..], env, little, base, one.cursor, one.out);
      forall i | 0 <= i < |fields|
        ensures FieldConforms(fields[i], env, false)
      {
        assert i > 0 ==> fields[i] == fields[1..][i - 1];
      }
    }
  }

  lemma {:induction false} EncodedFieldConforms(f: Field, env: Env, little: bool, base: nat, cursor: nat, out: seq<Byte>)
    requires EncodeField(f, env, little, base, cursor, out).Wrote?
    ensures FieldConforms(f, env, false)
    decreases f, 3
  {
    WhenMeaning(f.when, env);
    hide EvalWhen, Decidable, Wanted, HasCount, EncodeItems, ItemConforms;
    if Wanted(f.when, env) && f.checksum.None? {
      var n := Count(f, env).value;
      CountMeaning(f, env, n);
      var items := Supplied(f, env, n).value;
      var start := if f.offset.Some? then base + f.offset.value else cursor;
      EncodedItemsConform(f, items, env, little, base, start, Grown(out, start));
      assert Holds(env[f.name], items);
    }
  }

  lemma {:induction false} EncodedItemsConform(f: Field, items: seq<Value>, env: Env, little: bool, base: nat, at: nat, out: seq<Byte>)
    requires f.checksum.None? && EncodeItems(f, items, env, little, base, at, out).Wrote?
    ensures forall k :: 0 <= k < |items| ==> ItemConforms(f, items[k], env, false)
    decreases f, 2, |items|
  {
    hide ItemConforms, EncodeItem, Placed, LengthHolds;
    if items != [] {
      var raw := EncodeItem(f, items[0], env, little, base, at, out).value;
      EncodedItemConforms(f, items[0], env, little, base, at, out);
      EncodedItemsConform(f, items[1..], env, little, base, at + |raw|, Placed(f, out, at, raw));
      forall k | 0 <= k < |items|
        ensures ItemConforms(f, items[k], env, false)
      {
        assert k > 0 ==> items[k] == items[1..][k - 1];
      }
    }
  }

  lemma {:induction false} EncodedItemConforms(f: Field, v: Value, env: Env, little: bool, base: nat, at: nat, out: seq<Byte>)
    requires f.checksum.None? && EncodeItem(f, v, env, little, base, at, out).Some?
    requires LengthHolds(f, env, |EncodeItem(f, v, env, little, base, at, out).value|)
    ensures ItemConforms(f, v, env, false)
    decreases f, 1
  {
    if f.fields != [] {
      EncodedFieldsConform(f.fields, v.fields, little, 0, 0, []);
    } else if f.switchOn.Some? {
      var i := Selected(f, env).value;
      SelectedMeaning(f, env, i);
      EncodedFieldsConform(f.cases[i].fields, v.fields, little, 0, 0, []);
    } else {
      EncodedScalarConforms(f, v, little, env);
    }
  }

  lemma EncodedScalarConforms(f: Field, v: Value, little: bool, env: Env)
    requires f.bits > 0 && EncodeScalar(f, v, little).Some? && LengthHolds(f, env, |EncodeScalar(f, v, little).value|)
    ensures ScalarConforms(f, v, env)
  {
    LengthMeaning(f, env, |EncodeScalar(f, v, little).value|);
    hide HasLength, DeclaredLength, WriteField, Integers.Shifted, Pow2;
  }

  /** Only messages that hold what their schema wants of them are encoded. */
  lemma EncodedConforms(schema: Schema, env: Env)
    requires EncodeSchema(schema, env).Some?
    ensures Conforms(schema.fields, env, false)
  {
    hide EncodeFields;
    EncodedFieldsConform(schema.fields, env, schema.little, schema.offset, schema.offset, Grown([], schema.offset));
  }

  lemma BitsFit(bits: nat)
    requires 1 <= bits <= 64
    ensures Pow2(bits) <= U64 && Pow2(bits - 1) <= I64
  {
    assert Pow2(64) == 2 * Pow2(63);
    hide Pow2;
    Pow2Is64();
    Pow2Mono(bits, 64);
    Pow2Mono(bits - 1, 63);
  }

  /** A value is encodable iff it is of its field's kind and in its range. */
  lemma PayloadIff(f: Field, v: Value, little: bool)
    requires ValidField(f)
    ensures EncodePayload(f, v, little).Some? <==>
            match f.format
            case Uint => v.Number? && 0 <= v.n < Pow2(f.bits)
            case Int => v.Number? && 0 - Pow2(f.bits - 1) <= v.n < Pow2(f.bits - 1)
            case Flag => v.Bool?
            case Octets => v.Raw?
            case Ascii => v.Str? && forall i :: 0 <= i < |v.s| ==> v.s[i] < 128 as char
  {
    hide Pow2, WriteField, FromSigned, Integers.Shifted;
    BitsFit(f.bits);
    OneFits(f.bits);
    match f.format {
      case Uint =>
        if v.Number? && 0 <= v.n < Pow2(f.bits) {
          FieldBack(v.n, f.bitOffset, f.bits, f.length, little);
        }
      case Int =>
        if v.Number? && 0 - Pow2(f.bits - 1) <= v.n < Pow2(f.bits - 1) {
          SignedBack(v.n, f.bits);
          FieldBack(FromSigned(v.n, f.bits), f.bitOffset, f.bits, f.length, little);
        }
      case Flag =>
        if v.Bool? {
          FieldBack(if v.b then 1 else 0, f.bitOffset, f.bits, f.length, little);
        }
      case _ =>
    }
  }

  /** What is there after a round trip is decided by the values that were encoded. */
  lemma RoundTripPresence(schema: Schema, env: Env)
    requires ValidFields(schema.fields) && EncodeSchema(schema, env).Some?
    requires Suits(schema.fields, env, schema.little, schema.offset, Grown([], schema.offset), {})
    ensures var r := DecodeSchema(schema, EncodeSchema(schema, env).value);
            && r.Some?
            && (forall i :: 0 <= i < |schema.fields| ==>
                  (schema.fields[i].name in r.value.fields <==> Wanted(schema.fields[i].when, env)))
            && forall k :: k in r.value.fields ==> exists i :: 0 <= i < |schema.fields| && k == schema.fields[i].name
  {
    DecodeUndoesEncode(schema, env);
    var got := DecodeSchema(schema, EncodeSchema(schema, env).value).value.fields;
    SuitsUnique(schema.fields, env, schema.little, schema.offset, Grown([], schema.offset), {});
    hide EncodeSchema, DecodeSchema, Suits, ValidFields;
    MatchesPresence(schema.fields, env, got);
  }

  lemma {:induction false} SuitsUnique(fields: seq<Field>, env: Env, little: bool, base: nat, out: seq<Byte>, known: set<string>)
    requires Suits(fields, env, little, base, out, known) && EncodeFields(fields, env, little, base, |out|, out).Wrote?
    ensures forall i, j :: 0 <= i < j < |fields| ==> fields[i].name != fields[j].name
  {
    if fields != [] {
      var r := EncodeField(fields[0], env, little, base, |out|, out);
      FieldAppends(fields[0], env, little, base, out);
      hide EncodeField, SuitsField;
      SuitsUnique(fields[1..], env, little, base, r.out, Known(fields[0], env, known));
      forall i, j | 0 <= i < j < |fields|
        ensures fields[i].name != fields[j].name
      {
        assert fields[j] == fields[1..][j - 1];
        assert i > 0 ==> fields[i] == fields[1..][i - 1];
      }
    }
  }

  lemma {:induction false} MatchesPresence(fields: seq<Field>, env: Env, got: Env)
    requires Matches(fields, env, got)
    requires forall i, j :: 0 <= i < j < |fields| ==> fields[i].name != fields[j].name
    ensures forall i :: 0 <= i < |fields| ==> (fields[i].name in got <==> Wanted(fields[i].when, env))
    ensures forall k :: k in got ==> exists i :: 0 <= i < |fields| && k == fields[i].name
  {
    if fields != [] {
      var f, rest := fields[0], fields[1..];
      var less := if Present(f, env) then got - {f.name} else got;
      WhenMeaning(f.when, env);
      hide SameField, EvalWhen, Wanted, Decidable;
      MatchesPresence(rest, env, less);
      assert forall i :: 0 <= i < |rest| ==> rest[i] == fields[i + 1] && rest[i].name != f.name;
      assert f.name !in less;
      forall i | 0 <= i < |fields|
        ensures fields[i].name in got <==> Wanted(fields[i].when, env)
      {
        assert i > 0 ==> fields[i] == rest[i - 1];
      }
      forall k | k in got
        ensures exists i :: 0 <= i < |fields| && k == fields[i].name
      {
        if k in less {
          var i :| 0 <= i < |rest| && k == rest[i].name;
          assert fields[i + 1].name == k;
        } else {
          assert fields[0].name == k;
        }
      }
    }
  }

  // ------------------------------------------------------------------
  // Terminators and checksums
  // ------------------------------------------------------------------

  ghost predicate StandsAt(s: seq<Byte>, t: seq<Byte>, j: nat) {
    j + |t| <= |s| && s[j..j + |t|] == t
  }

  /** A terminator counts at its first place, if it has one. */
  lemma {:induction false} FirstMatchMeaning(s: seq<Byte>, t: seq<Byte>, i: nat)
    ensures var r := FirstMatch(s, t, i);
            if r.Some? then i <= r.value && StandsAt(s, t, r.value) && forall j: nat :: i <= j < r.value ==> !StandsAt(s, t, j)
            else forall j: nat :: i <= j ==> !StandsAt(s, t, j)
    decreases |s| - i
  {
    if i + |t| <= |s| && s[i..i + |t|] != t && i < |s| {
      FirstMatchMeaning(s, t, i + 1);
      assert !StandsAt(s, t, i);
    }
  }

  /** A checksum read is valid iff it is the number its bytes spell; its bytes cover
      what stands before it, or the range given. */
  lemma VerdictMeaning(f: Field, raw: seq<Byte>, input: seq<Byte>, base: nat, at: nat, little: bool, env: Env,
                       sums: map<string, bool>)
    requires f.checksum.Some? && DecodeItem(f, raw, input, base, at, little, env, sums).Item?
    ensures var lo, hi := if f.range.Span? then base + f.range.start else base, if f.range.Span? then base + f.range.end else at;
            && lo <= hi <= |input| && 1 <= |raw| <= 8
            && var r := DecodeItem(f, raw, input, base, at, little, env, sums);
               f.name in r.sums
               && (r.sums[f.name] <==>
                     Checksum(f.checksum.value, input[lo..hi]) == if little then FromLittle(raw) else FromBig(raw))
  {
    BytesBound(raw, little);
    hide Checksum, DecodeValue, FromLittle, FromBig;
    assert Pow2(0) == 1;
    Small(FromBytes(raw, little), Pow2(|raw| * 8));
  }
}
