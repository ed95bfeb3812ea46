/** A stream that breaks off is never taken for a whole one. */
module ThriftTruncation {
  import opened Wrappers
  import opened ThriftWire
  import opened ThriftValues
  import opened ThriftTable
  import opened Utf8

  /** What was read stays read when more follows. */
  ghost predicate Extends<T>(r: Read<T>, r': Read<T>, more: bytes) {
    r.Got? ==> r' == Got(r.value, r.rest + more)
  }

  // ---- primitives

  lemma NMore(n: nat, s: bytes, more: bytes)
    ensures Extends(ReadN(n, s), ReadN(n, s + more), more)
  {
    if n <= |s| {
      assert (s + more)[..n] == s[..n] && (s + more)[n..] == s[n..] + more;
    }
  }

  lemma ByteMore(s: bytes, more: bytes)
    ensures Extends(ReadByte(s), ReadByte(s + more), more)
  {
    if s != [] {
      assert (s + more)[1..] == s[1..] + more;
    }
  }

  lemma I16More(s: bytes, more: bytes)
    ensures Extends(ReadI16(s), ReadI16(s + more), more)
  {
    NMore(2, s, more);
  }

  lemma I32More(s: bytes, more: bytes)
    ensures Extends(ReadI32(s), ReadI32(s + more), more)
  {
    NMore(4, s, more);
  }

  lemma BlobMore(s: bytes, more: bytes)
    ensures Extends(ReadBlob(s), ReadBlob(s + more), more)
  {
    hide ReadN, ReadI32;
    I32More(s, more);
    if ReadI32(s).Got? {
      NMore(Max0(ReadI32(s).value), ReadI32(s).rest, more);
    }
  }

  lemma FieldHeaderMore(s: bytes, more: bytes)
    ensures Extends(ReadFieldHeader(s), ReadFieldHeader(s + more), more)
  {
    hide ReadByte, ReadI16;
    ByteMore(s, more);
    if ReadByte(s).Got? {
      I16More(ReadByte(s).rest, more);
    }
  }

  lemma ListHeaderMore(s: bytes, more: bytes)
    ensures Extends(ReadListHeader(s), ReadListHeader(s + more), more)
  {
    hide ReadByte, ReadI32;
    ByteMore(s, more);
    if ReadByte(s).Got? {
      I32More(ReadByte(s).rest, more);
    }
  }

  /** The header of a map: the types of key and value, and the size. */
  function MapHeader(s: bytes): (r: Read<(byte, byte, i32)>)
    ensures r.Got? ==> |r.rest| < |s|
  {
    var (kt, rest) :- ReadByte(s);
    var (vt, rest) :- ReadByte(rest);
    var (n, rest) :- ReadI32(rest);
    Got((kt, vt, n), rest)
  }

  lemma MapHeaderMore(s: bytes, more: bytes)
    ensures Extends(MapHeader(s), MapHeader(s + more), more)
  {
    hide ReadByte, ReadI32;
    ByteMore(s, more);
    if ReadByte(s).Got? {
      var rest := ReadByte(s).rest;
      ByteMore(rest, more);
      if ReadByte(rest).Got? {
        I32More(ReadByte(rest).rest, more);
      }
    }
  }

  // ---- skip

  lemma SkipMapIs(s: bytes)
    ensures Skip(T_MAP, s) ==
            if MapHeader(s).Fail? then Fail
            else SkipPairs(MapHeader(s).value.0, MapHeader(s).value.1, Max0(MapHeader(s).value.2), MapHeader(s).rest)
  {
  }

  lemma {:induction false} SkipMore(ftype: byte, s: bytes, more: bytes)
    ensures Extends(Skip(ftype, s), Skip(ftype, s + more), more)
    decreases |s|, 1
  {
    hide ReadByte, ReadI16, ReadI32, ReadN, ReadBlob, ReadListHeader, SkipPairs, SkipMany, SkipFields;
    ByteMore(s, more);
    I16More(s, more);
    I32More(s, more);
    NMore(8, s, more);
    BlobMore(s, more);
    if ftype == T_STRUCT {
      SkipFieldsMore(s, more);
    } else if ftype == T_MAP {
      SkipMapMore(s, more);
    } else if ftype == T_LIST || ftype == T_SET {
      ListHeaderMore(s, more);
      if ReadListHeader(s).Got? {
        SkipManyMore(ReadListHeader(s).value.0, Max0(ReadListHeader(s).value.1), ReadListHeader(s).rest, more);
      }
    }
  }

  lemma {:induction false} SkipMapMore(s: bytes, more: bytes)
    ensures Extends(Skip(T_MAP, s), Skip(T_MAP, s + more), more)
    decreases |s|, 0
  {
    hide Skip, SkipPairs, MapHeader;
    SkipMapIs(s);
    SkipMapIs(s + more);
    MapHeaderMore(s, more);
    if MapHeader(s).Got? {
      var (kt, vt, n) := MapHeader(s).value;
      SkipPairsMore(kt, vt, Max0(n), MapHeader(s).rest, more);
    }
  }

  lemma {:induction false} SkipFieldsMore(s: bytes, more: bytes)
    ensures Extends(SkipFields(s), SkipFields(s + more), more)
    decreases |s|, 0
  {
    hide Skip, ReadFieldHeader;
    FieldHeaderMore(s, more);
    var header := ReadFieldHeader(s);
    if header.Got? && header.value.0 != T_STOP {
      SkipMore(header.value.0, header.rest, more);
      var next := Skip(header.value.0, header.rest);
      if next.Got? {
        SkipFieldsMore(next.rest, more);
      }
    }
  }

  lemma {:induction false} SkipManyMore(et: byte, n: nat, s: bytes, more: bytes)
    ensures Extends(SkipMany(et, n, s), SkipMany(et, n, s + more), more)
    decreases |s|, 2, n
  {
    hide Skip;
    if n > 0 {
      SkipMore(et, s, more);
      if Skip(et, s).Got? {
        SkipManyMore(et, n - 1, Skip(et, s).rest, more);
      }
    }
  }

  lemma {:induction false} SkipPairsMore(kt: byte, vt: byte, n: nat, s: bytes, more: bytes)
    ensures Extends(SkipPairs(kt, vt, n, s), SkipPairs(kt, vt, n, s + more), more)
    decreases |s|, 2, n
  {
    hide Skip;
    if n > 0 {
      SkipMore(kt, s, more);
      var key := Skip(kt, s);
      if key.Got? {
        SkipMore(vt, key.rest, more);
        if Skip(vt, key.rest).Got? {
          SkipPairsMore(kt, vt, n - 1, Skip(vt, key.rest).rest, more);
        }
      }
    }
  }

  /** No value is skipped before its last byte is there. */
  lemma TruncatedValueFails(v: Value, n: nat)
    requires WellFormed(v) && n < |Encode(v)|
    ensures Skip(TypeOf(v), Encode(v)[..n]).Fail?
  {
    hide Skip, Encode, WellFormed;
    var part, tail := Encode(v)[..n], Encode(v)[n..];
    SkipIsExact(v, []);
    SkipMore(TypeOf(v), part, tail);
    assert part + tail == Encode(v) + [];
  }

  /** The types of the protocol, by number; no other is skipped. */
  lemma WireTypes(v: Value)
    ensures TypeOf(v) == match v
            case Bool(_) => 2
            case Byte(_) => 3
            case Double(_) => 4
            case I16(_) => 6
            case I32(_) => 8
            case I64(_) => 10
            case Str(_) => 11
            case Struct(_) => 12
            case Map(_, _, _) => 13
            case Set(_, _) => 14
            case List(_, _) => 15
  {
  }

  /** A struct ends with the byte 0. */
  lemma StopIsZero(rest: bytes)
    ensures EncodeFields([]) == [0] && ReadFieldHeader([0] + rest) == Got((0, 0), rest)
  {
    assert ([0] + rest)[1..] == rest;
  }

  /** A negative length or count is read as zero. */
  lemma NegativeIsEmpty(n: i32, et: byte, rest: bytes)
    requires n < 0
    ensures ReadBlob(EncodeI32(n) + rest) == Got([], rest)
    ensures ReadSchemas([et] + EncodeI32(n) + rest) == Got([], rest)
    ensures Skip(T_LIST, [et] + EncodeI32(n) + rest) == Got((), rest)
  {
    I32RoundTrip(n, rest);
    var s := [et] + EncodeI32(n) + rest;
    assert s == [et] + (EncodeI32(n) + rest) && s[1..] == EncodeI32(n) + rest && s[0] == et;
    hide EncodeI32, ReadI32;
    assert ReadListHeader(s) == Got((et, n), rest);
    assert rest[..0] == [] && rest[0..] == rest;
  }

  lemma UnknownTypeFails(ftype: byte, s: bytes)
    requires ftype !in {2, 3, 4, 6, 8, 10, 11, 12, 13, 14, 15}
    ensures Skip(ftype, s).Fail?
  {
  }

  // ---- the table

  lemma StringMore(s: bytes, more: bytes)
    ensures Extends(ReadString(s), ReadString(s + more), more)
  {
    hide ReadBlob;
    BlobMore(s, more);
  }

  lemma {:induction false} SchemaMore(c: (text, text), s: bytes, more: bytes)
    ensures Extends(ReadSchema(c, s), ReadSchema(c, s + more), more)
    decreases |s|
  {
    hide ReadFieldHeader, ReadSchemaField;
    FieldHeaderMore(s, more);
    var header := ReadFieldHeader(s);
    if header.Got? && header.value.0 != T_STOP {
      SchemaFieldMore(c, header.value.0, header.value.1, header.rest, more);
      var next := ReadSchemaField(c, header.value.0, header.value.1, header.rest);
      if next.Got? {
        SchemaMore(next.value, next.rest, more);
      }
    }
  }

  lemma SchemaFieldMore(c: (text, text), ftype: byte, id: i16, s: bytes, more: bytes)
    ensures Extends(ReadSchemaField(c, ftype, id, s), ReadSchemaField(c, ftype, id, s + more), more)
  {
    hide ReadString, Skip;
    StringMore(s, more);
    SkipMore(ftype, s, more);
  }

  lemma {:induction false} SchemaListMore(et: byte, n: nat, s: bytes, more: bytes)
    ensures Extends(ReadSchemaList(et, n, s), ReadSchemaList(et, n, s + more), more)
    decreases n
  {
    hide Skip, ReadSchema;
    if n > 0 {
      SkipMore(et, s, more);
      SchemaMore(([], []), s, more);
      if et != T_STRUCT && Skip(et, s).Got? {
        SchemaListMore(et, n - 1, Skip(et, s).rest, more);
      } else if et == T_STRUCT && ReadSchema(([], []), s).Got? {
        SchemaListMore(et, n - 1, ReadSchema(([], []), s).rest, more);
      }
    }
  }

  lemma SchemasMore(s: bytes, more: bytes)
    ensures Extends(ReadSchemas(s), ReadSchemas(s + more), more)
  {
    hide ReadListHeader, ReadSchemaList;
    ListHeaderMore(s, more);
    var header := ReadListHeader(s);
    if header.Got? {
      SchemaListMore(header.value.0, Max0(header.value.1), header.rest, more);
    }
  }

  lemma OrSkipMore(ty: byte, s: bytes, more: bytes)
    ensures Extends(ReadOrSkip(ty, s), ReadOrSkip(ty, s + more), more)
  {
    hide ReadString, Skip;
    StringMore(s, more);
    SkipMore(ty, s, more);
  }

  lemma EntryMore(kt: byte, vt: byte, s: bytes, more: bytes)
    ensures Extends(ReadEntry(kt, vt, s), ReadEntry(kt, vt, s + more), more)
  {
    hide ReadOrSkip;
    OrSkipMore(kt, s, more);
    if ReadOrSkip(kt, s).Got? {
      OrSkipMore(vt, ReadOrSkip(kt, s).rest, more);
    }
  }

  lemma {:induction false} EntriesMore(kt: byte, vt: byte, n: nat, s: bytes, more: bytes)
    ensures Extends(ReadEntries(kt, vt, n, s), ReadEntries(kt, vt, n, s + more), more)
    decreases n
  {
    hide ReadEntry;
    if n > 0 {
      EntryMore(kt, vt, s, more);
      if ReadEntry(kt, vt, s).Got? {
        EntriesMore(kt, vt, n - 1, ReadEntry(kt, vt, s).rest, more);
      }
    }
  }

  lemma StringMapIs(s: bytes)
    ensures ReadStringMap(s) ==
            if MapHeader(s).Fail? then Fail
            else ReadEntries(MapHeader(s).value.0, MapHeader(s).value.1, Max0(MapHeader(s).value.2), MapHeader(s).rest)
  {
  }

  lemma StringMapMore(s: bytes, more: bytes)
    ensures Extends(ReadStringMap(s), ReadStringMap(s + more), more)
  {
    hide ReadStringMap, ReadEntries, MapHeader;
    StringMapIs(s);
    StringMapIs(s + more);
    MapHeaderMore(s, more);
    if MapHeader(s).Got? {
      var (kt, vt, n) := MapHeader(s).value;
      EntriesMore(kt, vt, Max0(n), MapHeader(s).rest, more);
    }
  }

  lemma SerdeFieldMore(lib: Option<text>, ftype: byte, id: i16, s: bytes, more: bytes)
    ensures Extends(ReadSerdeField(lib, ftype, id, s), ReadSerdeField(lib, ftype, id, s + more), more)
  {
    hide ReadString, Skip;
    StringMore(s, more);
    SkipMore(ftype, s, more);
  }

  lemma {:induction false} SerdeMore(lib: Option<text>, s: bytes, more: bytes)
    ensures Extends(ReadSerde(lib, s), ReadSerde(lib, s + more), more)
    decreases |s|
  {
    hide ReadFieldHeader, ReadSerdeField;
    FieldHeaderMore(s, more);
    var header := ReadFieldHeader(s);
    if header.Got? && header.value.0 != T_STOP {
      SerdeFieldMore(lib, header.value.0, header.value.1, header.rest, more);
      var next := ReadSerdeField(lib, header.value.0, header.value.1, header.rest);
      if next.Got? {
        SerdeMore(next.value, next.rest, more);
      }
    }
  }

  lemma StorageFieldMore(t: HiveTable, ftype: byte, id: i16, s: bytes, more: bytes)
    ensures Extends(ReadStorageField(t, ftype, id, s), ReadStorageField(t, ftype, id, s + more), more)
  {
    hide ReadString, Skip, ReadSchemas, ReadSerde;
    StringMore(s, more);
    SkipMore(ftype, s, more);
    SchemasMore(s, more);
    SerdeMore(None, s, more);
  }

  lemma {:induction false} StorageMore(t: HiveTable, s: bytes, more: bytes)
    ensures Extends(ReadStorage(t, s), ReadStorage(t, s + more), more)
    decreases |s|
  {
    hide ReadFieldHeader, ReadStorageField;
    FieldHeaderMore(s, more);
    var header := ReadFieldHeader(s);
    if header.Got? && header.value.0 != T_STOP {
      StorageFieldMore(t, header.value.0, header.value.1, header.rest, more);
      var next := ReadStorageField(t, header.value.0, header.value.1, header.rest);
      if next.Got? {
        StorageMore(next.value, next.rest, more);
      }
    }
  }

  lemma TableFieldMore(t: HiveTable, ftype: byte, id: i16, s: bytes, more: bytes)
    ensures Extends(ReadTableField(t, ftype, id, s), ReadTableField(t, ftype, id, s + more), more)
  {
    hide ReadString, Skip, ReadSchemas, ReadStorage, ReadStringMap;
    StringMore(s, more);
    SkipMore(ftype, s, more);
    SchemasMore(s, more);
    StorageMore(t, s, more);
    StringMapMore(s, more);
  }

  lemma {:induction false} TableMore(t: HiveTable, s: bytes, more: bytes)
    ensures Extends(ReadTable(t, s), ReadTable(t, s + more), more)
    decreases |s|
  {
    hide ReadFieldHeader, ReadTableField;
    FieldHeaderMore(s, more);
    var header := ReadFieldHeader(s);
    if header.Got? && header.value.0 != T_STOP {
      TableFieldMore(t, header.value.0, header.value.1, header.rest, more);
      var next := ReadTableField(t, header.value.0, header.value.1, header.rest);
      if next.Got? {
        TableMore(next.value, next.rest, more);
      }
    }
  }

  /** A table that breaks off anywhere before its last byte is an error, whatever it holds. */
  lemma TruncatedTableFails(t: HiveTable, fields: seq<Field>, n: nat)
    requires AllFields(fields) && n < |EncodeFields(fields)|
    ensures ReadTable(t, EncodeFields(fields)[..n]).Fail?
  {
    hide ReadTable, TableMeaning, EncodeFields, AllFields;
    var part, tail := EncodeFields(fields)[..n], EncodeFields(fields)[n..];
    TableReadsBack(t, fields, []);
    TableMore(t, part, tail);
    assert part + tail == EncodeFields(fields) + [];
  }
}
