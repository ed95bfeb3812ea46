/** The Thrift binary protocol on byte sequences: primitive encodings, the primitive readers, and the
    generic `skip`. A reader takes what is left of the stream and fails or returns a value and what is
    left after it. */
module ThriftWire {

  type byte = b: int | 0 <= b < 256
  type bytes = seq<byte>

  const T_STOP: byte := 0
  const T_BOOL: byte := 2
  const T_BYTE: byte := 3
  const T_DOUBLE: byte := 4
  const T_I16: byte := 6
  const T_I32: byte := 8
  const T_I64: byte := 10
  const T_STRING: byte := 11
  const T_STRUCT: byte := 12
  const T_MAP: byte := 13
  const T_SET: byte := 14
  const T_LIST: byte := 15

  const I32_LIMIT: nat := 0x8000_0000

  type i16 = v: int | -0x8000 <= v < 0x8000
  type i32 = v: int | -0x8000_0000 <= v < 0x8000_0000

  datatype Read<+T> = Fail | Got(value: T, rest: bytes) {
    predicate IsFailure() {
      Fail?
    }

    function PropagateFailure<U>(): Read<U>
      requires Fail?
    {
      Fail
    }

    function Extract(): (T, bytes)
      requires Got?
    {
      (value, rest)
    }
  }

  // ---- primitive encodings: big-endian two's complement

  function EncodeI16(v: i16): (b: bytes)
    ensures |b| == 2
  {
    var u := if v < 0 then v + 0x1_0000 else v;
    [u / 0x100, u % 0x100]
  }

  function EncodeI32(v: i32): (b: bytes)
    ensures |b| == 4
  {
    var u := if v < 0 then v + 0x1_0000_0000 else v;
    [u / 0x100_0000, u / 0x1_0000 % 0x100, u / 0x100 % 0x100, u % 0x100]
  }

  function DecodeI16(b: bytes): i16
    requires |b| == 2
  {
    var u := b[0] as int * 0x100 + b[1] as int;
    if u >= 0x8000 then u - 0x1_0000 else u
  }

  function DecodeI32(b: bytes): i32
    requires |b| == 4
  {
    var u := ((b[0] as int * 0x100 + b[1] as int) * 0x100 + b[2] as int) * 0x100 + b[3] as int;
    if u >= 0x8000_0000 then u - 0x1_0000_0000 else u
  }

  /** `len as i32`. */
  function CastI32(n: nat): (v: i32)
    ensures (n - v) % 0x1_0000_0000 == 0
  {
    var u := n % 0x1_0000_0000;
    if u >= 0x8000_0000 then u - 0x1_0000_0000 else u
  }

  function EncodeString(s: bytes): bytes {
    EncodeI32(CastI32(|s|)) + s
  }

  // ---- primitive readers

  function ReadN(n: nat, s: bytes): (r: Read<bytes>)
    ensures r.Got? <==> n <= |s|
    ensures r.Got? ==> |r.value| == n && |r.rest| == |s| - n
  {
    if n <= |s| then Got(s[..n], s[n..]) else Fail
  }

  function ReadByte(s: bytes): (r: Read<byte>)
    ensures r.Got? <==> s != []
    ensures r.Got? ==> |r.rest| == |s| - 1
  {
    if s == [] then Fail else Got(s[0], s[1..])
  }

  function ReadI16(s: bytes): (r: Read<i16>)
    ensures r.Got? ==> |r.rest| == |s| - 2
  {
    var (b, rest) :- ReadN(2, s);
    Got(DecodeI16(b), rest)
  }

  function ReadI32(s: bytes): (r: Read<i32>)
    ensures r.Got? ==> |r.rest| == |s| - 4
  {
    var (b, rest) :- ReadN(4, s);
    Got(DecodeI32(b), rest)
  }

  function Max0(n: int): nat {
    if n < 0 then 0 else n
  }

  /** Length-prefixed bytes, a negative length read as zero. */
  function ReadBlob(s: bytes): (r: Read<bytes>)
    ensures r.Got? ==> |r.rest| < |s|
  {
    var (len, rest) :- ReadI32(s);
    ReadN(Max0(len), rest)
  }

  /** The field type, and the field id unless the type is STOP. */
  function ReadFieldHeader(s: bytes): (r: Read<(byte, i16)>)
    ensures r.Got? ==> |r.rest| < |s|
  {
    var (ftype, rest) :- ReadByte(s);
    if ftype == T_STOP then Got((T_STOP, 0), rest)
    else
      var (id, rest) :- ReadI16(rest);
      Got((ftype, id), rest)
  }

  function ReadListHeader(s: bytes): (r: Read<(byte, i32)>)
    ensures r.Got? ==> |r.rest| < |s|
  {
    var (et, rest) :- ReadByte(s);
    var (size, rest) :- ReadI32(rest);
    Got((et, size), rest)
  }

  // ---- skip: total on every input, and every success consumes something

  function Skip(ftype: byte, s: bytes): (r: Read<()>)
    ensures r.Got? ==> |r.rest| < |s|
    decreases |s|, 1
  {
    if ftype == T_BOOL || ftype == T_BYTE then
      var (_, rest) :- ReadByte(s);
      Got((), rest)
    else if ftype == T_I16 then
      var (_, rest) :- ReadI16(s);
      Got((), rest)
    else if ftype == T_I32 then
      var (_, rest) :- ReadI32(s);
      Got((), rest)
    else if ftype == T_I64 || ftype == T_DOUBLE then
      var (_, rest) :- ReadN(8, s);
      Got((), rest)
    else if ftype == T_STRING then
      var (_, rest) :- ReadBlob(s);
      Got((), rest)
    else if ftype == T_STRUCT then
      SkipFields(s)
    else if ftype == T_MAP then
      var (kt, rest) :- ReadByte(s);
      var (vt, rest) :- ReadByte(rest);
      var (n, rest) :- ReadI32(rest);
      SkipPairs(kt, vt, Max0(n), rest)
    else if ftype == T_LIST || ftype == T_SET then
      var (header, rest) :- ReadListHeader(s);
      SkipMany(header.0, Max0(header.1), rest)
    else
      Fail
  }

  /** Fields up to and including STOP. */
  function SkipFields(s: bytes): (r: Read<()>)
    ensures r.Got? ==> |r.rest| < |s|
    decreases |s|, 0
  {
    var (header, rest) :- ReadFieldHeader(s);
    if header.0 == T_STOP then Got((), rest)
    else
      var (_, rest) :- Skip(header.0, rest);
      SkipFields(rest)
  }

  function SkipMany(et: byte, n: nat, s: bytes): (r: Read<()>)
    ensures r.Got? ==> |r.rest| + n <= |s|
    decreases |s|, 2, n
  {
    if n == 0 then Got((), s)
    else
      var (_, rest) :- Skip(et, s);
      SkipMany(et, n - 1, rest)
  }

  function SkipPairs(kt: byte, vt: byte, n: nat, s: bytes): (r: Read<()>)
    ensures r.Got? ==> |r.rest| + 2 * n <= |s|
    decreases |s|, 2, n
  {
    if n == 0 then Got((), s)
    else
      var (_, rest) :- Skip(kt, s);
      var (_, rest) :- Skip(vt, rest);
      SkipPairs(kt, vt, n - 1, rest)
  }

  // ---- primitive round trips

  /** The bytes of an integer, most significant first, in two's complement. */
  lemma BigEndian16(v: i16)
    ensures var b := EncodeI16(v); b[0] as int * 0x100 + b[1] as int == if v < 0 then v + 0x1_0000 else v
  {
  }

  lemma BigEndian32(v: i32)
    ensures var b := EncodeI32(v);
            ((b[0] as int * 0x100 + b[1] as int) * 0x100 + b[2] as int) * 0x100 + b[3] as int ==
            if v < 0 then v + 0x1_0000_0000 else v
  {
    var u := if v < 0 then v + 0x1_0000_0000 else v;
    assert u / 0x100 == (u / 0x1_0000) * 0x100 + u / 0x100 % 0x100;
    assert u / 0x1_0000 == (u / 0x100_0000) * 0x100 + u / 0x1_0000 % 0x100;
  }

  lemma I16RoundTrip(v: i16, rest: bytes)
    ensures ReadI16(EncodeI16(v) + rest) == Got(v, rest)
  {
    assert (EncodeI16(v) + rest)[..2] == EncodeI16(v) && (EncodeI16(v) + rest)[2..] == rest;
  }

  lemma I32RoundTrip(v: i32, rest: bytes)
    ensures ReadI32(EncodeI32(v) + rest) == Got(v, rest)
  {
    var b := EncodeI32(v);
    assert (b + rest)[..4] == b && (b + rest)[4..] == rest;
    var u := if v < 0 then v + 0x1_0000_0000 else v;
    assert u / 0x100 == (u / 0x1_0000) * 0x100 + u / 0x100 % 0x100;
    assert u / 0x1_0000 == (u / 0x100_0000) * 0x100 + u / 0x1_0000 % 0x100;
  }

  lemma BlobRoundTrip(s: bytes, rest: bytes)
    requires |s| < I32_LIMIT
    ensures ReadBlob(EncodeString(s) + rest) == Got(s, rest)
  {
    assert EncodeString(s) + rest == EncodeI32(|s|) + (s + rest);
    I32RoundTrip(|s|, s + rest);
  }
}
