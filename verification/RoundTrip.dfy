/** Decoding undoes encoding. */
module RoundTrip {
  import opened Bytes
  import opened Protocols
  import opened Syntax
  import opened Crc
  import opened Integers
  import opened Schemas
  import opened Codec

  // ------------------------------------------------------------------
  // Which schemas and values
  // ------------------------------------------------------------------

  predicate Plain(f: Field) {
    f.fields == [] && f.switchOn.None? && f.checksum.None?
  }

  predicate Present(f: Field, env: Env) {
    EvalWhen(f.when, env) == Some(true)
  }

  function WhenRefs(w: When): set<string> {
    match w
    case Always => {}
    case Compare(name, _, _) => {name}
    case Negated(name) => {name}
    case Truthy(name) => {name}
  }

  /** The earlier fields a present field looks up. */
  function ItemRefs(f: Field): set<string> {
    (if f.repeatFrom.Some? then {f.repeatFrom.value} else {})
    + (if f.terminator.None? && f.lengthFrom.Some? then {f.lengthFrom.value} else {})
    + (if f.fields == [] && f.switchOn.Some? then {f.switchOn.value} else {})
  }

  /** The names a later field may refer to. */
  function Known(f: Field, env: Env, known: set<string>): set<string> {
    if Present(f, env) && Plain(f) then known + {f.name} else known
  }

  predicate Unnamed(fields: seq<Field>, name: string) {
    forall i :: 0 <= i < |fields| ==> fields[i].name != name
  }

  ghost predicate Sequential(fields: seq<Field>) {
    forall i :: 0 <= i < |fields| ==> fields[i].offset.None?
  }

  /** A sequential layout with distinct names whose references lead to earlier,
      present, plain fields, and whose terminated items meet their terminator
      first at their end.  The bytes of a field depend on `out`, what is encoded
      before it. */
  ghost predicate Suits(fields: seq<Field>, env: Env, little: bool, base: nat, out: seq<Byte>, known: set<string>)
    decreases fields, 0
  {
    fields == []
    || (&& Sequential(fields) && Unnamed(fields[1..], fields[0].name)
        && SuitsField(fields[0], env, little, base, out, known)
        && var r := EncodeField(fields[0], env, little, base, |out|, out);
           r.Wrote? ==> Suits(fields[1..], env, little, base, r.out, Known(fields[0], env, known)))
  }

  ghost predicate SuitsField(f: Field, env: Env, little: bool, base: nat, out: seq<Byte>, known: set<string>)
    decreases f, 3
  {
    && WhenRefs(f.when) <= known
    && (Present(f, env) ==> ItemRefs(f) <= known && SuitsItems(f, ItemsOf(f, env), env, little, base, out))
  }

  /** The values supplied for a field, if the encoder accepts their number. */
  function ItemsOf(f: Field, env: Env): seq<Value> {
    var count := Count(f, env);
    if count.None? then []
    else
      var items := Supplied(f, env, count.value);
      if items.None? then [] else items.value
  }

  ghost predicate SuitsItems(f: Field, items: seq<Value>, env: Env, little: bool, base: nat, out: seq<Byte>)
    decreases f, 2, |items|
  {
    items == []
    || (&& SuitsItem(f, items[0], env, little)
        && var raw := EncodeItem(f, items[0], env, little, base, |out|, out);
           raw.Some? ==> Readable(f, raw.value) && SuitsItems(f, items[1..], env, little, base, out + raw.value))
  }

  /** What nested objects contain must suit in turn. */
  ghost predicate SuitsItem(f: Field, v: Value, env: Env, little: bool)
    decreases f, 1
  {
    if f.fields != [] then v.Object? ==> Suits(f.fields, v.fields, little, 0, [], {})
    else if f.switchOn.Some? then
      var i := Selected(f, env);
      i.Some? && v.Object? ==> Suits(f.cases[i.value].fields, v.fields, little, 0, [], {})
    else true
  }

  /** The bytes before the terminator. */
  function Payload(f: Field, raw: seq<Byte>): seq<Byte> {
    if f.terminator.Some? && |f.terminator.value| <= |raw| then raw[..|raw| - |f.terminator.value|] else raw
  }

  /** The encoded item meets its terminator first at its end; a checksum that is to
      be read as text is seven-bit. */
  predicate Readable(f: Field, raw: seq<Byte>) {
    && (f.terminator.Some? ==>
          |f.terminator.value| <= |raw| && FirstMatch(raw, f.terminator.value, 0) == Some(|raw| - |f.terminator.value|))
    && (f.checksum.Some? && f.format == Ascii ==> SevenBit(Payload(f, raw)))
  }

  // ------------------------------------------------------------------
  // Which values come back
  // ------------------------------------------------------------------

  /** `got` holds exactly the present fields, each with the value supplied. */
  ghost predicate Matches(fields: seq<Field>, env: Env, got: Env)
    decreases fields, 0
  {
    if fields == [] then got == map[]
    else if Present(fields[0], env) then
      && fields[0].name in got
      && SameField(fields[0], env, got[fields[0].name])
      && Matches(fields[1..], env, got - {fields[0].name})
    else Matches(fields[1..], env, got)
  }

  ghost predicate SameField(f: Field, env: Env, g: Value)
    decreases f, 3
  {
    var items := ItemsOf(f, env);
    var gs := if |items| == 1 then [g] else if g.Array? then g.items else [];
    && (|items| == 1 || g.Array?)
    && |gs| == |items|
    && forall i :: 0 <= i < |items| ==> SameItem(f, items[i], env, gs[i])
  }

  /** A nested object keeps its present fields, a plain value is itself; a
      checksum was never supplied. */
  ghost predicate SameItem(f: Field, v: Value, env: Env, g: Value)
    decreases f, 1
  {
    if f.fields != [] then v.Object? && g.Object? && Matches(f.fields, v.fields, g.fields)
    else if f.switchOn.Some? then
      var i := Selected(f, env);
      i.Some? && v.Object? && g.Object? && Matches(f.cases[i.value].fields, v.fields, g.fields)
    else if f.checksum.Some? then true
    else g == v
  }

  ghost predicate AllTrue(sums: map<string, bool>) {
    forall k :: k in sums ==> sums[k]
  }

  // ------------------------------------------------------------------
  // References see the same values on both sides
  // ------------------------------------------------------------------

  ghost predicate AgreeOn(a: Env, b: Env, known: set<string>) {
    forall n :: n in known ==> n in a && n in b && a[n] == b[n]
  }

  lemma SameWhen(w: When, a: Env, b: Env, known: set<string>)
    requires AgreeOn(a, b, known) && WhenRefs(w) <= known
    ensures EvalWhen(w, a) == EvalWhen(w, b)
  {
    assert w.Compare? || w.Negated? || w.Truthy? ==> w.name in WhenRefs(w);
  }

  lemma SameRefs(f: Field, a: Env, b: Env, known: set<string>)
    requires AgreeOn(a, b, known) && ItemRefs(f) <= known
    ensures Count(f, a) == Count(f, b)
    ensures f.terminator.None? ==> DeclaredLength(f, a) == DeclaredLength(f, b)
    ensures f.fields == [] && f.switchOn.Some? ==> Selected(f, a) == Selected(f, b)
  {
    assert f.repeatFrom.Some? ==> f.repeatFrom.value in ItemRefs(f);
    assert f.terminator.None? && f.lengthFrom.Some? ==> f.lengthFrom.value in ItemRefs(f);
    assert f.fields == [] && f.switchOn.Some? ==> f.switchOn.value in ItemRefs(f);
  }

  // ------------------------------------------------------------------
  // A sequential encoder appends
  // ------------------------------------------------------------------

  lemma OrZeroByte(b: Byte)
    ensures Or(0, b) == b
  {
    Pow2Is256();
    OrWithZero(b, 8);
  }

  lemma PlacedAppends(f: Field, out: seq<Byte>, raw: seq<Byte>)
    ensures Placed(f, out, |out|, raw) == out + raw
  {
    hide Or;
    var big := Grown(out, |out| + |raw|);
    forall i | 0 <= i < |raw|
      ensures big[|out| + i] == 0 && Or(0, raw[i]) == raw[i]
    {
      OrZeroByte(raw[i]);
    }
    assert big[..|out|] == out;
    assert big[|out| + |raw|..] == [];
  }

  predicate Appended(out: seq<Byte>, r: Encoded) {
    r.Wrote? ==> out <= r.out && r.cursor == |r.out|
  }

  lemma {:induction false} ItemsAppend(f: Field, items: seq<Value>, env: Env, little: bool, base: nat, out: seq<Byte>)
    ensures Appended(out, EncodeItems(f, items, env, little, base, |out|, out))
    decreases |items|
  {
    hide EncodeItem, Placed, LengthHolds;
    if items != [] {
      var raw := EncodeItem(f, items[0], env, little, base, |out|, out);
      if raw.Some? && LengthHolds(f, env, |raw.value|) {
        PlacedAppends(f, out, raw.value);
        ItemsAppend(f, items[1..], env, little, base, out + raw.value);
      }
    }
  }

  lemma FieldAppends(f: Field, env: Env, little: bool, base: nat, out: seq<Byte>)
    requires f.offset.None?
    ensures Appended(out, EncodeField(f, env, little, base, |out|, out))
  {
    hide EncodeItems, EvalWhen, Count;
    if Present(f, env) {
      var count := Count(f, env);
      if count.Some? {
        var items := Supplied(f, env, count.value);
        if items.Some? {
          ItemsAppend(f, items.value, env, little, base, out);
        }
      }
    }
  }

  lemma {:induction false} FieldsAppend(fields: seq<Field>, env: Env, little: bool, base: nat, out: seq<Byte>)
    requires Sequential(fields)
    ensures Appended(out, EncodeFields(fields, env, little, base, |out|, out))
    decreases |fields|
  {
    hide EncodeField;
    if fields != [] {
      FieldAppends(fields[0], env, little, base, out);
      var r := EncodeField(fields[0], env, little, base, |out|, out);
      if r.Wrote? {
        FieldsAppend(fields[1..], env, little, base, r.out);
      }
    }
  }

  // ------------------------------------------------------------------
  // Scalars
  // ------------------------------------------------------------------

  lemma TextBack(s: string)
    requires IsAscii(s)
    ensures SevenBit(TextBytes(s)) && BytesText(TextBytes(s)) == s
  {
  }

  lemma PayloadBack(f: Field, v: Value, little: bool)
    requires 1 <= f.bits <= 64 && f.bitOffset + f.bits <= 8 * f.length && (NumericFormat(f) ==> 1 <= f.length <= 8)
    requires EncodePayload(f, v, little).Some?
    ensures DecodePayload(f, EncodePayload(f, v, little).value, little) == Some(v)
  {
    hide Pow2, WriteField, ReadField, Shifted, FromSigned, ToSigned;
    match f.format
    case Uint => FieldBack(v.n, f.bitOffset, f.bits, f.length, little);
    case Int =>
      SignedBack(v.n, f.bits);
      FieldBack(FromSigned(v.n, f.bits), f.bitOffset, f.bits, f.length, little);
    case Flag =>
      OneFits(f.bits);
      FieldBack(if v.b then 1 else 0, f.bitOffset, f.bits, f.length, little);
    case Octets =>
    case Ascii => TextBack(v.s);
  }

  lemma OneFits(bits: nat)
    requires bits > 0
    ensures 1 < Pow2(bits)
  {
  }

  lemma ScalarBack(f: Field, v: Value, little: bool)
    requires ValidField(f) && EncodeScalar(f, v, little).Some?
    ensures var raw := EncodeScalar(f, v, little).value;
            (f.terminator.Some? ==> |f.terminator.value| <= |raw|) && DecodeScalar(f, raw, little) == Some(v)
  {
    hide EncodePayload, DecodePayload;
    var payload := EncodePayload(f, v, little).value;
    var raw := EncodeScalar(f, v, little).value;
    PayloadBack(f, v, little);
    if f.terminator.Some? {
      assert raw[..|raw| - |f.terminator.value|] == payload;
    } else {
      assert raw == payload;
    }
  }

  // ------------------------------------------------------------------
  // Terminators
  // ------------------------------------------------------------------

  /** What follows the first match does not move it. */
  lemma {:induction false} MatchIsLocal(s: seq<Byte>, more: seq<Byte>, t: seq<Byte>, i: nat)
    requires FirstMatch(s, t, i).Some?
    ensures FirstMatch(s + more, t, i) == FirstMatch(s, t, i)
    decreases |s| - i
  {
    assert (s + more)[i..i + |t|] == s[i..i + |t|];
    if s[i..i + |t|] != t {
      MatchIsLocal(s, more, t, i + 1);
    }
  }

  lemma TailAfter(out: seq<Byte>, raw: seq<Byte>, input: seq<Byte>) returns (rest: seq<Byte>)
    requires out + raw <= input
    ensures |out| <= |input| && input[|out|..] == raw + rest
  {
    rest := input[|out + raw|..];
    assert input == out + raw + rest;
  }

  lemma {:induction false} MatchExists(s: seq<Byte>, t: seq<Byte>, i: nat, j: nat)
    requires i <= j && j + |t| <= |s| && s[j..j + |t|] == t
    ensures FirstMatch(s, t, i).Some?
    decreases j - i
  {
    if s[i..i + |t|] != t {
      MatchExists(s, t, i + 1, j);
    }
  }

  /** The length read is the length written exactly when the payload meets its
      terminator first where it was appended. */
  lemma TerminatedLength(f: Field, raw: seq<Byte>, payload: seq<Byte>, env: Env, out: seq<Byte>, input: seq<Byte>)
    requires f.terminator.Some? && raw == payload + f.terminator.value && out + raw <= input
    ensures Length(f, env, input, |out|) == Some(|raw|) <==> FirstMatch(raw, f.terminator.value, 0) == Some(|payload|)
  {
    hide FirstMatch, DeclaredLength, Length;
    var t := f.terminator.value;
    var rest := TailAfter(out, raw, input);
    AppendedMatches(payload, t);
    MatchIsLocal(raw, rest, t, 0);
    LengthToMatch(f, env, input, |out|);
  }

  lemma AppendedMatches(payload: seq<Byte>, t: seq<Byte>)
    ensures FirstMatch(payload + t, t, 0).Some?
  {
    hide FirstMatch;
    assert (payload + t)[|payload|..|payload| + |t|] == t;
    MatchExists(payload + t, t, 0, |payload|);
  }

  lemma LengthToMatch(f: Field, env: Env, input: seq<Byte>, start: nat)
    requires f.terminator.Some? && start <= |input| && FirstMatch(input[start..], f.terminator.value, 0).Some?
    ensures Length(f, env, input, start)
         == Some(FirstMatch(input[start..], f.terminator.value, 0).value + |f.terminator.value|)
  {
    hide FirstMatch, DeclaredLength;
  }

  // ------------------------------------------------------------------
  // Checksums
  // ------------------------------------------------------------------

  lemma {:induction false} BinaryFits(bits: seq<bool>)
    ensures BinaryNumber(bits) < Pow2(|bits|)
  {
    if bits != [] {
      BinaryFits(bits[..|bits| - 1]);
    }
  }

  lemma ChecksumFits(algorithm: Algorithm, bytes: seq<Byte>)
    ensures Checksum(algorithm, bytes) < Pow2(64)
  {
    Pow2Is64();
    hide Register16, Register32, Digits16, Digits32, BinaryNumber, EndAround, WordSum, Pow2;
    if algorithm == Crc16 {
      BinaryFits(Digits16(Register16(bytes)));
      Pow2Mono(16, 64);
    } else if algorithm == Crc32 {
      BinaryFits(Digits32(!Register32(bytes)));
      Pow2Mono(32, 64);
    }
  }

  lemma Pow2Is64()
    ensures Pow2(64) == U64
  {
    hide Pow2;
    Pow2Is256();
    Pow2Add(8, 8);
    Pow2Add(16, 16);
    Pow2Add(32, 32);
  }

  /** The bytes before the field are the same when it is written and read. */
  lemma SameCover(f: Field, out: seq<Byte>, input: seq<Byte>, base: nat)
    requires out <= input && Covered(f, out, base, |out|).Some?
    ensures Covered(f, input, base, |out|) == Covered(f, out, base, |out|)
  {
    match f.range
    case AllBefore => SameWindow(out, input, base, |out|);
    case Span(start, end) => SameWindow(out, input, base + start, base + end);
    case BadRange =>
  }

  lemma SameWindow(out: seq<Byte>, input: seq<Byte>, lo: nat, hi: nat)
    requires out <= input && lo <= hi <= |out|
    ensures input[lo..hi] == out[lo..hi]
  {
  }

  lemma ChecksumBack(f: Field, little: bool, base: nat, out: seq<Byte>, input: seq<Byte>, env: Env, acc: Env,
                     sums: map<string, bool>)
    requires ValidField(f) && f.fields == [] && f.switchOn.None? && f.checksum.Some? && out <= input && AllTrue(sums)
    requires EncodeItem(f, Null, env, little, base, |out|, out).Some?
    requires Readable(f, EncodeItem(f, Null, env, little, base, |out|, out).value)
    ensures var raw := EncodeItem(f, Null, env, little, base, |out|, out).value;
            var one := DecodeItem(f, raw, input, base, |out|, little, acc, sums);
            one.Item? && AllTrue(one.sums)
  {
    var covered := Covered(f, out, base, |out|);
    var c := Checksum(f.checksum.value, covered.value);
    var w := WriteField(c, f.length, little);
    assert EncodeItem(f, Null, env, little, base, |out|, out) == w;
    assert 1 <= f.bits <= 64 && f.length <= 8;
    hide ValidField, Covered, Checksum, Pow2, Slice, WriteField, ReadField, DecodeValue, AllTrue, EncodeItem, DecodeItem;
    ChecksumFits(f.checksum.value, covered.value);
    SameCover(f, out, input, base);
    WholeBack(c, f.length, little);
    ShortIsRead(f, w.value, little, acc, sums);
    VerdictOf(f, w.value, input, base, |out|, little, acc, sums);
    StillTrue(sums, f.name);
  }

  /** The verdict compares the stored number with the checksum of the bytes covered. */
  lemma VerdictOf(f: Field, raw: seq<Byte>, input: seq<Byte>, base: nat, at: nat, little: bool, env: Env,
                  sums: map<string, bool>)
    requires f.checksum.Some? && DecodeValue(f, raw, little, env, sums).Item?
    requires Covered(f, input, base, at).Some? && ReadField(raw, little, 0, |raw| * 8).Some?
    ensures var one := DecodeValue(f, raw, little, env, sums);
            var c := Checksum(f.checksum.value, Covered(f, input, base, at).value);
            DecodeItem(f, raw, input, base, at, little, env, sums)
            == Item(one.value, one.sums[f.name := c == ReadField(raw, little, 0, |raw| * 8).value])
  {
    hide Covered, Checksum, ReadField, DecodeValue;
  }

  /** At most eight bytes always decode, and as text iff they are seven-bit. */
  lemma ShortIsRead(f: Field, raw: seq<Byte>, little: bool, env: Env, sums: map<string, bool>)
    requires f.fields == [] && f.switchOn.None? && 1 <= f.bits <= 64 && |raw| <= 8
    requires f.terminator.Some? ==> |f.terminator.value| <= |raw|
    ensures var one := DecodeValue(f, raw, little, env, sums);
            (one.Item? <==> (f.format == Ascii ==> SevenBit(Payload(f, raw)))) && (one.Item? ==> one.sums == sums)
  {
    hide Slice, FromBytes, ToSigned, SevenBit, BytesText;
  }

  lemma StillTrue(sums: map<string, bool>, name: string)
    requires AllTrue(sums)
    ensures AllTrue(sums[name := true])
  {
  }

  // ------------------------------------------------------------------
  // The round trip, field by field
  // ------------------------------------------------------------------

  /** The length read is the length written. */
  lemma LengthBack(f: Field, raw: seq<Byte>, env: Env, acc: Env, known: set<string>, out: seq<Byte>, input: seq<Byte>)
    requires AgreeOn(acc, env, known) && ItemRefs(f) <= known && Readable(f, raw) && LengthHolds(f, env, |raw|)
    requires out + raw <= input
    ensures Length(f, acc, input, |out|) == Some(|raw|)
  {
    if f.terminator.Some? {
      hide FirstMatch, Length;
      var payload := SuffixMatch(raw, f.terminator.value);
      TerminatedLength(f, raw, payload, acc, out, input);
    } else {
      hide DeclaredLength, Selected, Count;
      SameRefs(f, acc, env, known);
    }
  }

  /** For a terminated item that is so exactly when it meets its terminator first at
      its end, whatever kind of field it is. */
  lemma LengthBackIff(f: Field, raw: seq<Byte>, env: Env, out: seq<Byte>, input: seq<Byte>)
    requires f.terminator.Some? && out + raw <= input
    ensures var t := f.terminator.value;
            Length(f, env, input, |out|) == Some(|raw|) <==> |t| <= |raw| && FirstMatch(raw, t, 0) == Some(|raw| - |t|)
  {
    hide FirstMatch, Length;
    var t := f.terminator.value;
    if Length(f, env, input, |out|) == Some(|raw|) {
      var payload := EndsInTerminator(f, raw, env, out, input);
      TerminatedLength(f, raw, payload, env, out, input);
    }
    if |t| <= |raw| && FirstMatch(raw, t, 0) == Some(|raw| - |t|) {
      var payload := SuffixMatch(raw, t);
      TerminatedLength(f, raw, payload, env, out, input);
    }
  }

  lemma SuffixMatch(raw: seq<Byte>, t: seq<Byte>) returns (payload: seq<Byte>)
    requires |t| <= |raw| && FirstMatch(raw, t, 0) == Some(|raw| - |t|)
    ensures raw == payload + t
  {
    hide FirstMatch;
    var n := |raw| - |t|;
    payload := raw[..n];
    var tail := raw[n..n + |t|];
    assert tail == t;
    assert raw == payload + tail;
  }

  lemma EndsInTerminator(f: Field, raw: seq<Byte>, env: Env, out: seq<Byte>, input: seq<Byte>) returns (payload: seq<Byte>)
    requires f.terminator.Some? && out + raw <= input && Length(f, env, input, |out|) == Some(|raw|)
    ensures raw == payload + f.terminator.value
  {
    hide FirstMatch;
    var t := f.terminator.value;
    var rest := TailAfter(out, raw, input);
    var p := FirstMatch(raw + rest, t, 0).value;
    payload := raw[..p];
    var tail := (raw + rest)[p..p + |t|];
    assert tail == raw[p..];
    assert raw == payload + tail;
  }

  /** A checksum that is to be read as text decodes exactly when it is seven-bit. */
  lemma ChecksumTextIff(f: Field, raw: seq<Byte>, input: seq<Byte>, base: nat, at: nat, little: bool, env: Env,
                        sums: map<string, bool>)
    requires f.fields == [] && f.switchOn.None? && f.checksum.Some? && f.format == Ascii && 1 <= f.bits <= 64
    requires 1 <= |raw| <= 8 && (f.terminator.Some? ==> |f.terminator.value| <= |raw|)
    requires Covered(f, input, base, at).Some?
    ensures DecodeItem(f, raw, input, base, at, little, env, sums).Item? <==> SevenBit(Payload(f, raw))
  {
    ShortIsRead(f, raw, little, env, sums);
    hide DecodeValue, Covered, Checksum, SevenBit, Slice, FromBytes;
  }

  /** The bytes of a nested object decode to that object. */
  lemma {:induction false} RoundNested(f: Field, v: Value, env: Env, acc: Env, little: bool, base: nat,
                                       out: seq<Byte>, input: seq<Byte>, sums: map<string, bool>)
    returns (one: One)
    requires ValidFields(f.fields) && f.fields != [] && SuitsItem(f, v, env, little)
    requires f.checksum.None? && AllTrue(sums)
    requires EncodeItem(f, v, env, little, base, |out|, out).Some?
    ensures one == DecodeItem(f, EncodeItem(f, v, env, little, base, |out|, out).value, input, base, |out|, little, acc, sums)
    ensures one.Item? && SameItem(f, v, env, one.value) && AllTrue(one.sums)
    decreases f, 1, 0
  {
    hide ValidFields, EncodeFields, DecodeFields, Matches, Suits, Covered, AllTrue;
    var raw := EncodeItem(f, v, env, little, base, |out|, out).value;
    one := DecodeItem(f, raw, input, base, |out|, little, acc, sums);
    var got, after := RoundFields(f.fields, v.fields, map[], {}, little, 0, [], raw, sums);
    assert map[] + got == got;
  }

  /** So do the bytes of the case a switch selects. */
  lemma {:induction false} RoundSwitch(f: Field, v: Value, env: Env, acc: Env, little: bool, base: nat,
                                       out: seq<Byte>, input: seq<Byte>, sums: map<string, bool>)
    returns (one: One)
    requires f.fields == [] && f.switchOn.Some? && SuitsItem(f, v, env, little)
    requires Selected(f, acc) == Selected(f, env) && forall i :: 0 <= i < |f.cases| ==> ValidFields(f.cases[i].fields)
    requires f.checksum.None? && AllTrue(sums)
    requires EncodeItem(f, v, env, little, base, |out|, out).Some?
    ensures one == DecodeItem(f, EncodeItem(f, v, env, little, base, |out|, out).value, input, base, |out|, little, acc, sums)
    ensures one.Item? && SameItem(f, v, env, one.value) && AllTrue(one.sums)
    decreases f, 1, 0
  {
    hide ValidFields, EncodeFields, DecodeFields, Matches, Suits, Covered, AllTrue, Selected;
    var raw := EncodeItem(f, v, env, little, base, |out|, out).value;
    one := DecodeItem(f, raw, input, base, |out|, little, acc, sums);
    var i := Selected(f, env).value;
    var got, after := RoundFields(f.cases[i].fields, v.fields, map[], {}, little, 0, [], raw, sums);
    assert map[] + got == got;
  }

  /** A plain value is read back. */
  lemma RoundPlain(f: Field, v: Value, env: Env, acc: Env, little: bool, base: nat, out: seq<Byte>, input: seq<Byte>,
                   sums: map<string, bool>)
    returns (one: One)
    requires ValidField(f) && Plain(f) && AllTrue(sums)
    requires EncodeItem(f, v, env, little, base, |out|, out).Some?
    ensures one == DecodeItem(f, EncodeItem(f, v, env, little, base, |out|, out).value, input, base, |out|, little, acc, sums)
    ensures one.Item? && SameItem(f, v, env, one.value) && AllTrue(one.sums)
  {
    hide EncodeScalar, DecodeScalar, AllTrue;
    ScalarBack(f, v, little);
    one := DecodeItem(f, EncodeScalar(f, v, little).value, input, base, |out|, little, acc, sums);
  }

  /** The bytes of one item decode to that item. */
  lemma {:induction false} RoundItem(f: Field, v: Value, env: Env, acc: Env, known: set<string>, little: bool, base: nat,
                                     out: seq<Byte>, input: seq<Byte>, sums: map<string, bool>)
    returns (one: One)
    requires ValidField(f) && SuitsItem(f, v, env, little) && (f.checksum.Some? ==> v == Null) && AllTrue(sums)
    requires AgreeOn(acc, env, known) && ItemRefs(f) <= known && out <= input
    requires EncodeItem(f, v, env, little, base, |out|, out).Some?
    requires Readable(f, EncodeItem(f, v, env, little, base, |out|, out).value)
    ensures one == DecodeItem(f, EncodeItem(f, v, env, little, base, |out|, out).value, input, base, |out|, little, acc, sums)
    ensures one.Item? && SameItem(f, v, env, one.value) && AllTrue(one.sums)
    decreases f, 1, 1
  {
    assert ValidFields(f.fields) && forall i :: 0 <= i < |f.cases| ==> ValidFields(f.cases[i].fields);
    ObjectHasNoChecksum(f, v, env, little, base, out);
    hide ValidField, ValidFields, SuitsItem, SameItem, EncodeItem, DecodeItem, Selected, Count, DeclaredLength, ItemRefs,
      AgreeOn, AllTrue;
    if f.fields != [] {
      one := RoundNested(f, v, env, acc, little, base, out, input, sums);
    } else if f.switchOn.Some? {
      SameRefs(f, acc, env, known);
      one := RoundSwitch(f, v, env, acc, little, base, out, input, sums);
    } else if f.checksum.Some? {
      ChecksumBack(f, little, base, out, input, env, acc, sums);
      one := DecodeItem(f, EncodeItem(f, v, env, little, base, |out|, out).value, input, base, |out|, little, acc, sums);
      ChecksumIsFree(f, v, env, one.value);
    } else {
      one := RoundPlain(f, v, env, acc, little, base, out, input, sums);
    }
  }

  lemma ObjectHasNoChecksum(f: Field, v: Value, env: Env, little: bool, base: nat, out: seq<Byte>)
    requires f.checksum.Some? ==> v == Null
    requires EncodeItem(f, v, env, little, base, |out|, out).Some?
    ensures f.fields != [] || f.switchOn.Some? ==> f.checksum.None?
  {
  }

  lemma ChecksumIsFree(f: Field, v: Value, env: Env, g: Value)
    requires f.fields == [] && f.switchOn.None? && f.checksum.Some?
    ensures SameItem(f, v, env, g)
  {
  }

  ghost predicate SameItems(f: Field, items: seq<Value>, env: Env, gs: seq<Value>) {
    |gs| == |items| && forall i :: 0 <= i < |items| ==> SameItem(f, items[i], env, gs[i])
  }

  lemma {:induction false} RoundItems(f: Field, items: seq<Value>, env: Env, acc: Env, known: set<string>, little: bool,
                                      base: nat, out: seq<Byte>, input: seq<Byte>, values: seq<Value>, sums: map<string, bool>)
    returns (gs: seq<Value>, after: map<string, bool>)
    requires ValidField(f) && SuitsItems(f, items, env, little, base, out)
    requires f.checksum.Some? ==> forall v :: v in items ==> v == Null
    requires AgreeOn(acc, env, known) && ItemRefs(f) <= known && AllTrue(sums)
    requires EncodeItems(f, items, env, little, base, |out|, out).Wrote?
    requires EncodeItems(f, items, env, little, base, |out|, out).out <= input
    ensures DecodeItems(f, |items|, input, base, |out|, little, acc, values, sums)
         == Got(EncodeItems(f, items, env, little, base, |out|, out).cursor, values + gs, after)
    ensures SameItems(f, items, env, gs) && AllTrue(after)
    decreases f, 2, |items|
  {
    hide AgreeOn, SuitsItem, Readable, SameItem, ValidField, EncodeItem, DecodeItem, LengthHolds, Placed, Length, AllTrue;
    if items == [] {
      gs, after := [], sums;
      assert values + gs == values;
    } else {
      var v, rest := items[0], items[1..];
      assert v in items && forall x :: x in rest ==> x in items;
      var raw := EncodeItem(f, v, env, little, base, |out|, out).value;
      PlacedAppends(f, out, raw);
      ItemsAppend(f, rest, env, little, base, out + raw);
      assert out + raw <= input;
      LengthBack(f, raw, env, acc, known, out, input);
      WindowIsRaw(out, raw, input);
      var one := RoundItem(f, v, env, acc, known, little, base, out, input, sums);
      var more, end := RoundItems(f, rest, env, acc, known, little, base, out + raw, input, values + [one.value], one.sums);
      gs, after := [one.value] + more, end;
      assert values + gs == values + [one.value] + more;
      ConsSame(f, v, rest, env, one.value, more);
      assert items == [v] + rest;
    }
  }

  lemma WindowIsRaw(out: seq<Byte>, raw: seq<Byte>, input: seq<Byte>)
    requires out + raw <= input
    ensures out <= input && Window(input, |out|, |out| + |raw|) == Some(raw)
  {
    assert input[..|out| + |raw|] == out + raw;
    assert input[|out|..|out| + |raw|] == (out + raw)[|out|..];
  }

  lemma ConsSame(f: Field, v: Value, rest: seq<Value>, env: Env, g: Value, more: seq<Value>)
    requires SameItem(f, v, env, g) && SameItems(f, rest, env, more)
    ensures SameItems(f, [v] + rest, env, [g] + more)
  {
    hide SameItem;
  }

  lemma {:induction false} RoundField(f: Field, env: Env, acc: Env, known: set<string>, little: bool, base: nat,
                                      out: seq<Byte>, input: seq<Byte>, sums: map<string, bool>)
    returns (g: Value, after: map<string, bool>)
    requires ValidField(f) && f.offset.None? && Present(f, env) && SuitsField(f, env, little, base, out, known)
    requires AgreeOn(acc, env, known) && AllTrue(sums)
    requires EncodeField(f, env, little, base, |out|, out).Wrote?
    requires EncodeField(f, env, little, base, |out|, out).out <= input
    ensures DecodeField(f, input, base, |out|, little, acc, sums)
         == Read(EncodeField(f, env, little, base, |out|, out).cursor, acc[f.name := g], after)
    ensures SameField(f, env, g) && AllTrue(after)
    decreases f, 3
  {
    SameWhen(f.when, acc, env, known);
    SameRefs(f, acc, env, known);
    var items := ItemsOf(f, env);
    SuppliedNull(f, env);
    hide AgreeOn, SuitsItems, SameItem, ValidField, EncodeItems, DecodeItems, EvalWhen, Count, DeclaredLength, Selected,
      ItemRefs, WhenRefs;
    ItemsAppend(f, items, env, little, base, out);
    var gs;
    gs, after := RoundItems(f, items, env, acc, known, little, base, out, input, [], sums);
    assert [] + gs == gs;
    g := Gathered(gs);
    GatheredSame(f, env, gs);
  }

  lemma SuppliedNull(f: Field, env: Env)
    ensures f.checksum.Some? ==> forall v :: v in ItemsOf(f, env) ==> v == Null
  {
  }

  lemma GatheredSame(f: Field, env: Env, gs: seq<Value>)
    requires SameItems(f, ItemsOf(f, env), env, gs)
    ensures SameField(f, env, Gathered(gs))
  {
    hide SameItem, ItemsOf;
  }

  /** A plain field that was read back may be referred to from then on. */
  lemma KnownGrows(f: Field, env: Env, acc: Env, known: set<string>, little: bool, base: nat, out: seq<Byte>, g: Value)
    requires AgreeOn(acc, env, known) && f.name !in acc && Present(f, env) && SameField(f, env, g)
    requires EncodeField(f, env, little, base, |out|, out).Wrote?
    ensures AgreeOn(acc[f.name := g], env, Known(f, env, known))
  {
    if Plain(f) {
      var items := ItemsOf(f, env);
      assert Supplied(f, env, |items|) == Some(items);
      hide EvalWhen, Count, EncodeItems, EncodeField;
      if |items| == 1 {
        assert SameItem(f, items[0], env, g);
      } else {
        assert forall i :: 0 <= i < |items| ==> SameItem(f, items[i], env, g.items[i]);
        assert g.items == items;
      }
      assert f.name in env && g == env[f.name];
    }
  }

  lemma PrependMatch(fields: seq<Field>, env: Env, acc: Env, g: Value, rest: Env) returns (got: Env)
    requires fields != [] && Unnamed(fields[1..], fields[0].name) && Present(fields[0], env) && SameField(fields[0], env, g)
    requires Matches(fields[1..], env, rest) && forall k :: k in rest ==> !Unnamed(fields[1..], k)
    ensures Matches(fields, env, got) && acc + got == acc[fields[0].name := g] + rest
    ensures forall k :: k in got ==> !Unnamed(fields, k)
  {
    hide SameField;
    var f := fields[0];
    got := map[f.name := g] + rest;
    assert f.name !in rest;
    assert got - {f.name} == rest;
    forall k | k in got
      ensures !Unnamed(fields, k)
    {
      if k != f.name {
        var i :| 0 <= i < |fields[1..]| && fields[1..][i].name == k;
        assert fields[i + 1].name == k;
      } else {
        assert fields[0].name == k;
      }
    }
  }

  /** A field that is not there is skipped on both sides. */
  lemma AbsentSkips(f: Field, env: Env, acc: Env, known: set<string>, little: bool, base: nat, out: seq<Byte>,
                    input: seq<Byte>, sums: map<string, bool>)
    requires AgreeOn(acc, env, known) && WhenRefs(f.when) <= known && !Present(f, env)
    requires EncodeField(f, env, little, base, |out|, out).Wrote?
    ensures EncodeField(f, env, little, base, |out|, out) == Wrote(|out|, out)
    ensures DecodeField(f, input, base, |out|, little, acc, sums) == Read(|out|, acc, sums)
  {
    SameWhen(f.when, acc, env, known);
  }

  /** Decoding an encoded list of fields adds exactly the matching values. */
  lemma {:induction false} RoundFields(fields: seq<Field>, env: Env, acc: Env, known: set<string>, little: bool, base: nat,
                                       out: seq<Byte>, input: seq<Byte>, sums: map<string, bool>)
    returns (got: Env, after: map<string, bool>)
    requires ValidFields(fields) && Suits(fields, env, little, base, out, known) && AllTrue(sums)
    requires AgreeOn(acc, env, known) && forall i :: 0 <= i < |fields| ==> fields[i].name !in acc
    requires EncodeFields(fields, env, little, base, |out|, out).Wrote?
    requires EncodeFields(fields, env, little, base, |out|, out).out <= input
    ensures DecodeFields(fields, input, base, |out|, little, acc, sums)
         == Read(|EncodeFields(fields, env, little, base, |out|, out).out|, acc + got, after)
    ensures Matches(fields, env, got) && AllTrue(after)
    ensures forall k :: k in got ==> !Unnamed(fields, k)
    decreases fields, 0
  {
    if fields == [] {
      got, after := map[], sums;
      assert acc + got == acc;
    } else {
      var f, rest := fields[0], fields[1..];
      var r := EncodeField(f, env, little, base, |out|, out);
      FieldAppends(f, env, little, base, out);
      FieldsAppend(rest, env, little, base, r.out);
      hide AllTrue, SuitsField, EncodeField, DecodeField, ValidField, SameField;
      if Present(f, env) {
        var g, mid := RoundField(f, env, acc, known, little, base, out, input, sums);
        KnownGrows(f, env, acc, known, little, base, out, g);
        got, after := RoundFields(rest, env, acc[f.name := g], Known(f, env, known), little, base, r.out, input, mid);
        got := PrependMatch(fields, env, acc, g, got);
      } else {
        AbsentSkips(f, env, acc, known, little, base, out, input, sums);
        got, after := RoundFields(rest, env, acc, known, little, base, out, input, sums);
      }
    }
  }

  /** A successful encode decodes to the values emitted, with every checksum
      valid, all bytes consumed and none left over. */
  lemma DecodeUndoesEncode(schema: Schema, env: Env)
    requires ValidFields(schema.fields) && EncodeSchema(schema, env).Some?
    requires Suits(schema.fields, env, schema.little, schema.offset, Grown([], schema.offset), {})
    ensures var bytes := EncodeSchema(schema, env).value;
            var r := DecodeSchema(schema, bytes);
            && r.Some? && r.value.consumed == |bytes| && r.value.unknown == []
            && Matches(schema.fields, env, r.value.fields) && AllTrue(r.value.sums)
  {
    var bytes := EncodeSchema(schema, env).value;
    var out := Grown([], schema.offset);
    assert Sequential(schema.fields);
    hide Suits, Matches, EncodeFields, DecodeFields, ValidFields;
    FieldsAppend(schema.fields, env, schema.little, schema.offset, out);
    var got, after := RoundFields(schema.fields, env, map[], {}, schema.little, schema.offset, out, bytes, map[]);
    assert map[] + got == got;
  }

  /** A checksum field that was valid becomes invalid when any one byte it
      covers is changed. */
  lemma CorruptionIsReported(f: Field, raw: seq<Byte>, input: seq<Byte>, damaged: seq<Byte>, base: nat, at: nat, k: nat,
                             little: bool, env: Env, sums: map<string, bool>)
    requires f.checksum.Some?
    requires Covered(f, input, base, at).Some? && Covered(f, damaged, base, at).Some?
    requires DifferAt(Covered(f, input, base, at).value, Covered(f, damaged, base, at).value, k)
    requires var one := DecodeItem(f, raw, input, base, at, little, env, sums);
             one.Item? && f.name in one.sums && one.sums[f.name]
    ensures var one := DecodeItem(f, raw, damaged, base, at, little, env, sums);
            one.Item? && f.name in one.sums && !one.sums[f.name]
  {
    hide Covered, Checksum, ReadField, DecodeValue;
    ByteChangeDetected(f.checksum.value, Covered(f, input, base, at).value, Covered(f, damaged, base, at).value, k);
  }

  // ------------------------------------------------------------------
  // Outside these conditions a message may be lost
  // ------------------------------------------------------------------

  /** A field with nothing but a name, a length in bytes and a format. */
  function BareField(name: string, length: nat, format: Format): Field {
    Field(name, None, length, None, 0, 1, None, None, When.Always, 0, if length > 8 then 64 else 8 * length, format, [], None, [],
          None, AllBefore)
  }

  function Lone(f: Field): Schema {
    Schema(0, false, [f])
  }

  lemma LoneField(f: Field, env: Env, raw: seq<Byte>)
    requires f.when == When.Always && f.offset.None? && f.repeat == 1 && f.repeatFrom.None? && Supplied(f, env, 1).Some?
    requires EncodeItem(f, Supplied(f, env, 1).value[0], env, false, 0, 0, []) == Some(raw) && LengthHolds(f, env, |raw|)
    ensures EncodeSchema(Lone(f), env) == Some(raw)
    ensures DecodeSchema(Lone(f), raw).Some? ==>
              var length := Length(f, map[], raw, 0);
              length.Some? && length.value <= |raw| && DecodeItem(f, raw[..length.value], raw, 0, 0, false, map[], map[]).Item?
  {
    hide EncodeItem, DecodeItem, Placed, Length, LengthHolds;
    var none: seq<Byte> := [];
    PlacedAppends(f, none, raw);
    assert none + raw == raw;
    var items := Supplied(f, env, 1).value;
    assert EncodeItems(f, items[1..], env, false, 0, |raw|, raw) == Wrote(|raw|, raw);
    assert EncodeItems(f, items, env, false, 0, 0, none) == Wrote(|raw|, raw);
    assert Grown(none, 0) == none;
    assert EncodeField(f, env, false, 0, 0, none) == Wrote(|raw|, raw);
    assert [f][1..] == [];
    assert EncodeFields([f], env, false, 0, 0, none) == EncodeFields([f][1..], env, false, 0, |raw|, raw);
    assert DecodeFields([f], raw, 0, 0, false, map[], map[]).Read? ==> DecodeField(f, raw, 0, 0, false, map[], map[]).Read?;
    assert DecodeField(f, raw, 0, 0, false, map[], map[]).Read? ==> DecodeItems(f, 1, raw, 0, 0, false, map[], [], map[]).Got?;
  }

  /** An object that does not end in its terminator: the encoder does not append it. */
  lemma NestedTerminatorLost() returns (schema: Schema, env: Env)
    ensures ValidFields(schema.fields) && EncodeSchema(schema, env) == Some([5]) && DecodeSchema(schema, [5]).None?
  {
    var inner := BareField("x", 1, Uint);
    var f := BareField("o", 1, Octets).(fields := [inner], terminator := Some([0]));
    schema := Lone(f);
    env := map["o" := Object(map["x" := Number(5)])];
    var v: Env := map["x" := Number(5)];
    assert env["o"] == Object(v);
    OneByte();
    var five: seq<Byte> := [5];
    assert five + [] == five;
    assert EncodeItem(inner, Number(5), v, false, 0, 0, []) == Some([5]);
    LoneField(inner, v, [5]);
    assert Grown([], 0) == [];
    assert EncodeFields([inner], v, false, 0, 0, []) == EncodeFields([inner], v, false, 0, 0, Grown([], 0));
    assert EncodeItem(f, Object(v), env, false, 0, 0, []) == Some([5]);
    LoneField(f, env, [5]);
    NoZero(f, five);
  }

  lemma NoZero(f: Field, five: seq<Byte>)
    requires five == [5] && f.terminator == Some([0])
    ensures Length(f, map[], five, 0).None?
  {
    assert five[0..] == five && five[0..1] == five;
    assert FirstMatch(five, [0], 1).None?;
    assert FirstMatch(five, [0], 0).None?;
  }

  lemma OneByte()
    ensures EncodePayload(BareField("x", 1, Uint), Number(5), false) == Some([5])
  {
    Pow2Is256();
    Pow2Is64();
    assert Pow2(0) == 1;
    hide Pow2;
    assert Shifted(5, 0) == 5;
    assert ToBytes(5, 1, false) == [5] by {
      assert ToBytes(0, 0, false) == [];
      assert ToBytes(5, 1, false) == ToBytes(5 / 256, 0, false) + [5 % 256];
    }
  }

  /** The checksum of no bytes at all is 0xffff, which is no text. */
  lemma TextChecksumLost() returns (schema: Schema)
    ensures ValidFields(schema.fields) && EncodeSchema(schema, map[]) == Some([255, 255])
    ensures DecodeSchema(schema, [255, 255]).None?
  {
    var f := BareField("sum", 2, Ascii).(checksum := Some(Internet));
    schema := Lone(f);
    var none: seq<Byte> := [];
    assert none[0..0] == none;
    assert Checksum(Internet, none) == 0xffff;
    TwoBytes();
    assert EncodeItem(f, Null, map[], false, 0, 0, none) == Some([255, 255]);
    LoneField(f, map[], [255, 255]);
    assert [255, 255][..2] == [255, 255];
    assert Length(f, map[], [255, 255], 0) == Some(2);
    assert [255, 255][0] >= 128;
    assert !SevenBit([255, 255]);
    ChecksumTextIff(f, [255, 255], [255, 255], 0, 0, false, map[], map[]);
  }

  lemma TwoBytes()
    ensures WriteField(0xffff, 2, false) == Some([255, 255])
  {
    Pow2Is256();
    Pow2Add(8, 8);
    assert Pow2(8 * 2) == 0x1_0000;
    hide Pow2;
    assert ToBytes(0, 0, false) == [];
    assert ToBytes(255, 1, false) == ToBytes(0, 0, false) + [255];
    assert ToBytes(0xffff, 2, false) == ToBytes(255, 1, false) + [255] == [255, 255];
  }
}
