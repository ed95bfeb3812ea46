/** Thrift values of every wire type, their encoding, and the exactness of `skip` on them. */
module ThriftValues {
  import opened ThriftWire

  datatype Value =
    | Bool(b: byte)
    | Byte(b: byte)
    | I16(v16: i16)
    | I32(v32: i32)
    | I64(raw: bytes)
    | Double(raw: bytes)
    | Str(text: bytes)
    | Struct(fields: seq<Field>)
    | Map(kt: byte, vt: byte, pairs: seq<Pair>)
    | List(et: byte, elems: seq<Value>)
    | Set(et: byte, elems: seq<Value>)

  datatype Field = Field(id: i16, value: Value)
  datatype Pair = Pair(key: Value, value: Value)

  function TypeOf(v: Value): (t: byte)
    ensures t != T_STOP
  {
    match v
    case Bool(_) => T_BOOL
    case Byte(_) => T_BYTE
    case I16(_) => T_I16
    case I32(_) => T_I32
    case I64(_) => T_I64
    case Double(_) => T_DOUBLE
    case Str(_) => T_STRING
    case Struct(_) => T_STRUCT
    case Map(_, _, _) => T_MAP
    case List(_, _) => T_LIST
    case Set(_, _) => T_SET
  }

  /** Sizes fit their prefixes and containers hold what their headers say. */
  predicate WellFormed(v: Value)
    decreases v
  {
    match v
    case I64(raw) => |raw| == 8
    case Double(raw) => |raw| == 8
    case Str(text) => |text| < I32_LIMIT
    case Struct(fields) => AllFields(fields)
    case Map(kt, vt, pairs) => |pairs| < I32_LIMIT && AllPairs(kt, vt, pairs)
    case List(et, elems) => |elems| < I32_LIMIT && AllElems(et, elems)
    case Set(et, elems) => |elems| < I32_LIMIT && AllElems(et, elems)
    case _ => true
  }

  predicate FieldOk(f: Field)
    decreases f
  {
    WellFormed(f.value)
  }

  predicate PairOk(kt: byte, vt: byte, p: Pair)
    decreases p
  {
    && TypeOf(p.key) == kt && TypeOf(p.value) == vt
    && WellFormed(p.key) && WellFormed(p.value)
  }

  predicate AllFields(fields: seq<Field>)
    decreases fields
  {
    forall i :: 0 <= i < |fields| ==> FieldOk(fields[i])
  }

  predicate AllPairs(kt: byte, vt: byte, pairs: seq<Pair>)
    decreases pairs
  {
    forall i :: 0 <= i < |pairs| ==> PairOk(kt, vt, pairs[i])
  }

  predicate AllElems(et: byte, elems: seq<Value>)
    decreases elems
  {
    forall i :: 0 <= i < |elems| ==> TypeOf(elems[i]) == et && WellFormed(elems[i])
  }

  function Encode(v: Value): bytes
    decreases v, 1
  {
    match v
    case Bool(b) => [b]
    case Byte(b) => [b]
    case I16(v) => EncodeI16(v)
    case I32(v) => EncodeI32(v)
    case I64(raw) => raw
    case Double(raw) => raw
    case Str(text) => EncodeString(text)
    case Struct(fields) => EncodeFields(fields)
    case Map(kt, vt, pairs) => [kt] + [vt] + EncodeI32(CastI32(|pairs|)) + EncodePairs(pairs)
    case List(et, elems) => [et] + EncodeI32(CastI32(|elems|)) + EncodeElems(elems)
    case Set(et, elems) => [et] + EncodeI32(CastI32(|elems|)) + EncodeElems(elems)
  }

  function EncodeField(f: Field): bytes
    decreases f
  {
    [TypeOf(f.value)] + EncodeI16(f.id) + Encode(f.value)
  }

  /** The fields and the STOP marker. */
  function EncodeFields(fields: seq<Field>): bytes
    decreases fields, 0
  {
    if fields == [] then [T_STOP] else EncodeField(fields[0]) + EncodeFields(fields[1..])
  }

  /** The fields without the STOP marker. */
  function EncodeBody(fields: seq<Field>): bytes {
    if fields == [] then [] else EncodeBody(fields[..|fields| - 1]) + EncodeField(fields[|fields| - 1])
  }

  function EncodeElems(elems: seq<Value>): bytes
    decreases elems, 0
  {
    if elems == [] then [] else Encode(elems[0]) + EncodeElems(elems[1..])
  }

  function EncodePair(p: Pair): bytes
    decreases p
  {
    Encode(p.key) + Encode(p.value)
  }

  function EncodePairs(pairs: seq<Pair>): bytes
    decreases pairs, 0
  {
    if pairs == [] then [] else EncodePair(pairs[0]) + EncodePairs(pairs[1..])
  }

  lemma {:induction false} BodyThenStop(fields: seq<Field>)
    ensures EncodeFields(fields) == EncodeBody(fields) + [T_STOP]
    decreases |fields|
  {
    BodyThenFields(fields, []);
    assert fields + [] == fields;
  }

  lemma {:induction false} BodyThenFields(front: seq<Field>, back: seq<Field>)
    ensures EncodeFields(front + back) == EncodeBody(front) + EncodeFields(back)
    decreases |front|
  {
    if front == [] {
      assert front + back == back && EncodeBody(front) + EncodeFields(back) == EncodeFields(back);
    } else {
      var init, last := front[..|front| - 1], front[|front| - 1];
      BodyThenFields(init, [last] + back);
      assert front + back == init + ([last] + back);
      assert ([last] + back)[1..] == back;
      assert EncodeBody(init) + (EncodeField(last) + EncodeFields(back)) == EncodeBody(front) + EncodeFields(back);
    }
  }

  /** Appending the next field to a buffer that holds the ones before it. */
  lemma BodyGrows(front: bytes, fields: seq<Field>, k: nat, before: bytes, after: bytes)
    requires k < |fields|
    requires before == front + EncodeBody(fields[..k])
    requires after == before + EncodeField(fields[k])
    ensures after == front + EncodeBody(fields[..k + 1])
  {
    assert fields[..k + 1][..k] == fields[..k];
  }

  // ---- headers read back

  lemma ReadByteOf(b: byte, rest: bytes)
    ensures ReadByte([b] + rest) == Got(b, rest)
  {
    assert ([b] + rest)[1..] == rest;
  }

  lemma FieldHeaderOf(f: Field, rest: bytes)
    ensures ReadFieldHeader(EncodeField(f) + rest) == Got((TypeOf(f.value), f.id), Encode(f.value) + rest)
  {
    var t, tail := TypeOf(f.value), Encode(f.value) + rest;
    assert EncodeField(f) + rest == [t] + (EncodeI16(f.id) + tail);
    ReadByteOf(t, EncodeI16(f.id) + tail);
    I16RoundTrip(f.id, tail);
  }

  lemma StopOf(rest: bytes)
    ensures ReadFieldHeader(EncodeFields([]) + rest) == Got((T_STOP, 0), rest)
  {
    ReadByteOf(T_STOP, rest);
  }

  lemma FieldsSplit(fields: seq<Field>, rest: bytes)
    requires fields != []
    ensures EncodeFields(fields) + rest == EncodeField(fields[0]) + (EncodeFields(fields[1..]) + rest)
  {
  }

  lemma ListHeaderRoundTrip(et: byte, n: nat, tail: bytes)
    requires n < I32_LIMIT
    ensures ReadListHeader([et] + EncodeI32(n) + tail) == Got((et, n), tail)
  {
    assert [et] + EncodeI32(n) + tail == [et] + (EncodeI32(n) + tail);
    ReadByteOf(et, EncodeI32(n) + tail);
    I32RoundTrip(n, tail);
  }

  lemma ListHeaderOf(v: Value, rest: bytes)
    requires (v.List? || v.Set?) && |v.elems| < I32_LIMIT
    ensures ReadListHeader(Encode(v) + rest) == Got((v.et, |v.elems|), EncodeElems(v.elems) + rest)
  {
    var tail := EncodeElems(v.elems) + rest;
    assert CastI32(|v.elems|) == |v.elems|;
    assert Encode(v) + rest == [v.et] + EncodeI32(|v.elems|) + tail;
    ListHeaderRoundTrip(v.et, |v.elems|, tail);
  }

  lemma MapHeaderRoundTrip(kt: byte, vt: byte, n: nat, tail: bytes)
    requires n < I32_LIMIT
    ensures ReadByte([kt] + [vt] + EncodeI32(n) + tail) == Got(kt, [vt] + (EncodeI32(n) + tail))
    ensures ReadByte([vt] + (EncodeI32(n) + tail)) == Got(vt, EncodeI32(n) + tail)
    ensures ReadI32(EncodeI32(n) + tail) == Got(n, tail)
  {
    assert [kt] + [vt] + EncodeI32(n) + tail == [kt] + ([vt] + (EncodeI32(n) + tail));
    ReadByteOf(kt, [vt] + (EncodeI32(n) + tail));
    ReadByteOf(vt, EncodeI32(n) + tail);
    I32RoundTrip(n, tail);
  }

  lemma MapHeaderOf(v: Value, rest: bytes)
    requires v.Map? && |v.pairs| < I32_LIMIT
    ensures var tail := EncodePairs(v.pairs) + rest;
            && ReadByte(Encode(v) + rest) == Got(v.kt, [v.vt] + (EncodeI32(|v.pairs|) + tail))
            && ReadByte([v.vt] + (EncodeI32(|v.pairs|) + tail)) == Got(v.vt, EncodeI32(|v.pairs|) + tail)
            && ReadI32(EncodeI32(|v.pairs|) + tail) == Got(|v.pairs|, tail)
  {
    var n, tail := |v.pairs|, EncodePairs(v.pairs) + rest;
    assert CastI32(n) == n;
    assert Encode(v) + rest == [v.kt] + [v.vt] + EncodeI32(n) + tail;
    MapHeaderRoundTrip(v.kt, v.vt, n, tail);
  }

  // ---- skip is exact

  lemma FixedSizeOf(raw: bytes, rest: bytes)
    ensures ReadN(|raw|, raw + rest) == Got(raw, rest)
  {
    assert (raw + rest)[..|raw|] == raw && (raw + rest)[|raw|..] == rest;
  }

  lemma SkipScalar(v: Value, rest: bytes)
    requires WellFormed(v) && !v.Struct? && !v.Map? && !v.List? && !v.Set?
    ensures Skip(TypeOf(v), Encode(v) + rest) == Got((), rest)
  {
    match v
    case Bool(b) => ReadByteOf(b, rest);
    case Byte(b) => ReadByteOf(b, rest);
    case I16(n) => I16RoundTrip(n, rest);
    case I32(n) => I32RoundTrip(n, rest);
    case I64(raw) => FixedSizeOf(raw, rest);
    case Double(raw) => FixedSizeOf(raw, rest);
    case Str(text) => BlobRoundTrip(text, rest);
  }

  lemma SkipMapBytes(s: bytes, kt: byte, s1: bytes, vt: byte, s2: bytes, n: nat, rest: bytes)
    requires ReadByte(s) == Got(kt, s1) && ReadByte(s1) == Got(vt, s2) && n < I32_LIMIT && ReadI32(s2) == Got(n, rest)
    ensures Skip(T_MAP, s) == SkipPairs(kt, vt, n, rest)
  {
  }

  lemma SkipListBytes(ftype: byte, s: bytes, et: byte, n: nat, rest: bytes)
    requires ftype == T_LIST || ftype == T_SET
    requires n < I32_LIMIT && ReadListHeader(s) == Got((et, n), rest)
    ensures Skip(ftype, s) == SkipMany(et, n, rest)
  {
  }

  /** Skipping a well-formed value of any type consumes its encoding and nothing more. */
  lemma {:induction false} SkipIsExact(v: Value, rest: bytes)
    requires WellFormed(v)
    ensures Skip(TypeOf(v), Encode(v) + rest) == Got((), rest)
    decreases v, 1
  {
    if v.Struct? {
      SkipFieldsIsExact(v.fields, rest);
    } else if v.Map? {
      var tail := EncodePairs(v.pairs) + rest;
      MapHeaderOf(v, rest);
      SkipMapBytes(Encode(v) + rest, v.kt, [v.vt] + (EncodeI32(|v.pairs|) + tail), v.vt,
                   EncodeI32(|v.pairs|) + tail, |v.pairs|, tail);
      SkipPairsIsExact(v.kt, v.vt, v.pairs, rest);
    } else if v.List? || v.Set? {
      ListHeaderOf(v, rest);
      SkipListBytes(TypeOf(v), Encode(v) + rest, v.et, |v.elems|, EncodeElems(v.elems) + rest);
      SkipManyIsExact(v.et, v.elems, rest);
    } else {
      SkipScalar(v, rest);
    }
  }

  lemma SkipFieldIsExact(f: Field, rest: bytes)
    requires FieldOk(f)
    ensures Skip(TypeOf(f.value), Encode(f.value) + rest) == Got((), rest)
    decreases f
  {
    SkipIsExact(f.value, rest);
  }

  lemma SkipPairIsExact(kt: byte, vt: byte, p: Pair, rest: bytes)
    requires PairOk(kt, vt, p)
    ensures Skip(kt, EncodePair(p) + rest) == Got((), Encode(p.value) + rest)
    ensures Skip(vt, Encode(p.value) + rest) == Got((), rest)
    decreases p
  {
    assert EncodePair(p) + rest == Encode(p.key) + (Encode(p.value) + rest);
    SkipIsExact(p.key, Encode(p.value) + rest);
    SkipIsExact(p.value, rest);
  }

  lemma {:induction false} SkipFieldsIsExact(fields: seq<Field>, rest: bytes)
    requires AllFields(fields)
    ensures SkipFields(EncodeFields(fields) + rest) == Got((), rest)
    decreases fields, 0
  {
    if fields == [] {
      StopOf(rest);
    } else {
      var f, tail := fields[0], EncodeFields(fields[1..]) + rest;
      FieldsSplit(fields, rest);
      FieldHeaderOf(f, tail);
      SkipFieldIsExact(f, tail);
      SkipFieldsIsExact(fields[1..], rest);
    }
  }

  lemma SkipManyStep(et: byte, n: nat, s: bytes, rest: bytes)
    requires n > 0 && Skip(et, s) == Got((), rest)
    ensures SkipMany(et, n, s) == SkipMany(et, n - 1, rest)
  {
  }

  lemma {:induction false} SkipManyIsExact(et: byte, elems: seq<Value>, rest: bytes)
    requires AllElems(et, elems)
    ensures SkipMany(et, |elems|, EncodeElems(elems) + rest) == Got((), rest)
    decreases elems, 0
  {
    if elems == [] {
      assert EncodeElems(elems) + rest == rest;
    } else {
      var tail := EncodeElems(elems[1..]) + rest;
      assert EncodeElems(elems) + rest == Encode(elems[0]) + tail;
      assert TypeOf(elems[0]) == et && WellFormed(elems[0]);
      SkipIsExact(elems[0], tail);
      SkipManyIsExact(et, elems[1..], rest);
      SkipManyStep(et, |elems|, EncodeElems(elems) + rest, tail);
    }
  }

  lemma {:induction false} SkipPairsIsExact(kt: byte, vt: byte, pairs: seq<Pair>, rest: bytes)
    requires AllPairs(kt, vt, pairs)
    ensures SkipPairs(kt, vt, |pairs|, EncodePairs(pairs) + rest) == Got((), rest)
    decreases pairs, 0
  {
    if pairs == [] {
      assert EncodePairs(pairs) + rest == rest;
    } else {
      var p, tail := pairs[0], EncodePairs(pairs[1..]) + rest;
      assert EncodePairs(pairs) + rest == EncodePair(p) + tail;
      SkipPairIsExact(kt, vt, p, tail);
      SkipPairsIsExact(kt, vt, pairs[1..], rest);
    }
  }
}
