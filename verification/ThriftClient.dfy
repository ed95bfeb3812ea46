/** The reader and writer in their own form: a client that consumes its stream in loops, and a buffer
    that grows by appending. Each method is tied to the byte-sequence function it implements. */
module ThriftClient {
  import opened Wrappers
  import opened Wire = ThriftWire
  import opened ThriftValues
  import opened Table = ThriftTable
  import opened ThriftCompat
  import opened Utf8

  /** `r` and the stream left behind are what `spec` says. After an error nothing is said of
      the stream: the client gives up on it. */
  predicate Agrees<T(==)>(spec: Read<T>, r: Result<T>, stream: bytes) {
    match spec
    case Fail => r == Err(Io)
    case Got(v, rest) => r == Ok(v) && stream == rest
  }

  class MetastoreClient {
    var stream: bytes

    constructor (stream: bytes)
      ensures this.stream == stream
    {
      this.stream := stream;
    }

    method Take(n: nat) returns (r: Result<bytes>)
      modifies this
      ensures Agrees(ReadN(n, old(stream)), r, stream)
    {
      if |stream| < n {
        return Err(Io);
      }
      r := Ok(stream[..n]);
      stream := stream[n..];
    }

    method TakeByte() returns (r: Result<byte>)
      modifies this
      ensures Agrees(ReadByte(old(stream)), r, stream)
    {
      if stream == [] {
        return Err(Io);
      }
      r := Ok(stream[0]);
      stream := stream[1..];
    }

    method TakeI16() returns (r: Result<i16>)
      modifies this
      ensures Agrees(ReadI16(old(stream)), r, stream)
    {
      var b :- Take(2);
      r := Ok(DecodeI16(b));
    }

    method TakeI32() returns (r: Result<i32>)
      modifies this
      ensures Agrees(ReadI32(old(stream)), r, stream)
    {
      var b :- Take(4);
      r := Ok(DecodeI32(b));
    }

    method TakeString() returns (r: Result<text>)
      modifies this
      ensures Agrees(ReadString(old(stream)), r, stream)
    {
      var len :- TakeI32();
      var b :- Take(Max0(len));
      if !Valid(b) {
        return Err(Io);
      }
      r := Ok(b);
    }

    method TakeFieldHeader() returns (r: Result<(byte, i16)>)
      modifies this
      ensures Agrees(ReadFieldHeader(old(stream)), r, stream)
    {
      var ftype :- TakeByte();
      if ftype == T_STOP {
        return Ok((T_STOP, 0));
      }
      var id :- TakeI16();
      r := Ok((ftype, id));
    }

    method TakeListHeader() returns (r: Result<(byte, i32)>)
      modifies this
      ensures Agrees(ReadListHeader(old(stream)), r, stream)
    {
      var et :- TakeByte();
      var size :- TakeI32();
      r := Ok((et, size));
    }

    /** Pass over one value of the given type. Terminates on every stream: what is left shrinks. */
    method Skip(ftype: byte) returns (r: Result<()>)
      modifies this
      ensures Agrees(Wire.Skip(ftype, old(stream)), r, stream)
      decreases |stream|, 1
    {
      if ftype == T_BOOL || ftype == T_BYTE {
        var _ :- TakeByte();
      } else if ftype == T_I16 {
        var _ :- TakeI16();
      } else if ftype == T_I32 {
        var _ :- TakeI32();
      } else if ftype == T_I64 || ftype == T_DOUBLE {
        var _ :- Take(8);
      } else if ftype == T_STRING {
        var len :- TakeI32();
        var _ :- Take(Max0(len));
      } else if ftype == T_STRUCT {
        r := SkipStruct();
        return;
      } else if ftype == T_MAP {
        var kt :- TakeByte();
        var vt :- TakeByte();
        var n :- TakeI32();
        r := SkipEntries(kt, vt, Max0(n));
        return;
      } else if ftype == T_LIST || ftype == T_SET {
        var header :- TakeListHeader();
        r := SkipElements(header.0, Max0(header.1));
        return;
      } else {
        return Err(Io);
      }
      r := Ok(());
    }

    method SkipStruct() returns (r: Result<()>)
      modifies this
      ensures Agrees(SkipFields(old(stream)), r, stream)
      decreases |stream|, 0
    {
      while true
        invariant SkipFields(old(stream)) == SkipFields(stream)
        invariant |stream| <= |old(stream)|
        decreases |stream|
      {
        var header :- TakeFieldHeader();
        if header.0 == T_STOP {
          return Ok(());
        }
        var _ :- Skip(header.0);
      }
    }

    method SkipElements(et: byte, n: nat) returns (r: Result<()>)
      modifies this
      ensures Agrees(SkipMany(et, n, old(stream)), r, stream)
      decreases |stream|, 2
    {
      for i := 0 to n
        invariant SkipMany(et, n, old(stream)) == SkipMany(et, n - i, stream)
        invariant |stream| <= |old(stream)|
      {
        var _ :- Skip(et);
      }
      r := Ok(());
    }

    method SkipEntries(kt: byte, vt: byte, n: nat) returns (r: Result<()>)
      modifies this
      ensures Agrees(SkipPairs(kt, vt, n, old(stream)), r, stream)
      decreases |stream|, 2
    {
      for i := 0 to n
        invariant SkipPairs(kt, vt, n, old(stream)) == SkipPairs(kt, vt, n - i, stream)
        invariant |stream| <= |old(stream)|
      {
        var _ :- Skip(kt);
        var _ :- Skip(vt);
      }
      r := Ok(());
    }

    method TakeSerdeLib() returns (r: Result<Option<text>>)
      modifies this
      ensures Agrees(ReadSerde(None, old(stream)), r, stream)
    {
      var lib: Option<text> := None;
      while true
        invariant ReadSerde(None, old(stream)) == ReadSerde(lib, stream)
        decreases |stream|
      {
        var header :- TakeFieldHeader();
        if header.0 == T_STOP {
          return Ok(lib);
        }
        if header.1 == 2 && header.0 == T_STRING {
          var name :- TakeString();
          lib := Some(name);
        } else {
          var _ :- Skip(header.0);
        }
      }
    }

    method TakeSchema() returns (r: Result<(text, text)>)
      modifies this
      ensures Agrees(ReadSchema(([], []), old(stream)), r, stream)
    {
      var name: text, ty: text := [], [];
      while true
        invariant ReadSchema(([], []), old(stream)) == ReadSchema((name, ty), stream)
        decreases |stream|
      {
        var header :- TakeFieldHeader();
        if header.0 == T_STOP {
          return Ok((name, ty));
        }
        if header.1 == 1 && header.0 == T_STRING {
          name :- TakeString();
        } else if header.1 == 2 && header.0 == T_STRING {
          ty :- TakeString();
        } else {
          var _ :- Skip(header.0);
        }
      }
    }

    /** `front`, then what `r` reads. */
    static function Prepend(front: Columns, r: Read<Columns>): (p: Read<Columns>)
      ensures front == [] ==> p == r
    {
      match r
      case Fail => Fail
      case Got(more, rest) =>
        assert front == [] ==> front + more == more;
        Got(front + more, rest)
    }

    /** One element, appended to the columns so far; `None` for one that is skipped. */
    static function ReadElement(et: byte, s: bytes): Read<Option<(text, text)>> {
      if et != T_STRUCT then
        var (_, rest) :- Wire.Skip(et, s);
        Got(None, rest)
      else
        var (column, rest) :- ReadSchema(([], []), s);
        Got(Some(column), rest)
    }

    static lemma SchemaListStep(columns: Columns, et: byte, n: nat, s: bytes)
      requires n > 0
      ensures Prepend(columns, ReadSchemaList(et, n, s)) ==
              match ReadElement(et, s)
              case Fail => Fail
              case Got(None, rest) => Prepend(columns, ReadSchemaList(et, n - 1, rest))
              case Got(Some(c), rest) => Prepend(columns + [c], ReadSchemaList(et, n - 1, rest))
    {
      var e := ReadElement(et, s);
      if e.Got? && e.value.Some? {
        var more := ReadSchemaList(et, n - 1, e.rest);
        assert more.Got? ==> columns + ([e.value.value] + more.value) == columns + [e.value.value] + more.value;
      }
    }

    method TakeElement(et: byte) returns (r: Result<Option<(text, text)>>)
      modifies this
      ensures Agrees(ReadElement(et, old(stream)), r, stream)
    {
      if et != T_STRUCT {
        var _ :- Skip(et);
        return Ok(None);
      }
      var column :- TakeSchema();
      r := Ok(Some(column));
    }

    method TakeSchemaList(et: byte, n: nat) returns (r: Result<Columns>)
      modifies this
      ensures Agrees(ReadSchemaList(et, n, old(stream)), r, stream)
    {
      var columns: Columns := [];
      for i := 0 to n
        invariant ReadSchemaList(et, n, old(stream)) == Prepend(columns, ReadSchemaList(et, n - i, stream))
      {
        SchemaListStep(columns, et, n - i, stream);
        var element :- TakeElement(et);
        if element.Some? {
          columns := columns + [element.value];
        }
      }
      assert columns + [] == columns;
      r := Ok(columns);
    }

    method TakeSchemas() returns (r: Result<Columns>)
      modifies this
      ensures Agrees(ReadSchemas(old(stream)), r, stream)
    {
      var header :- TakeListHeader();
      r := TakeSchemaList(header.0, Max0(header.1));
    }

    method TakeTextOrSkip(ty: byte) returns (r: Result<text>)
      modifies this
      ensures Agrees(ReadOrSkip(ty, old(stream)), r, stream)
    {
      if ty == T_STRING {
        r := TakeString();
      } else {
        var _ :- Skip(ty);
        r := Ok([]);
      }
    }

    method TakeEntry(kt: byte, vt: byte) returns (r: Result<(text, text)>)
      modifies this
      ensures Agrees(ReadEntry(kt, vt, old(stream)), r, stream)
    {
      var k :- TakeTextOrSkip(kt);
      var v :- TakeTextOrSkip(vt);
      r := Ok((k, v));
    }

    static lemma EntriesStep(entries: Columns, kt: byte, vt: byte, n: nat, s: bytes)
      requires n > 0
      ensures Prepend(entries, ReadEntries(kt, vt, n, s)) ==
              match ReadEntry(kt, vt, s)
              case Fail => Fail
              case Got(entry, rest) => Prepend(entries + [entry], ReadEntries(kt, vt, n - 1, rest))
    {
      var e := ReadEntry(kt, vt, s);
      if e.Got? {
        var more := ReadEntries(kt, vt, n - 1, e.rest);
        assert more.Got? ==> entries + ([e.value] + more.value) == entries + [e.value] + more.value;
      }
    }

    method TakeEntries(kt: byte, vt: byte, n: nat) returns (r: Result<Columns>)
      modifies this
      ensures Agrees(ReadEntries(kt, vt, n, old(stream)), r, stream)
    {
      var entries: Columns := [];
      for i := 0 to n
        invariant ReadEntries(kt, vt, n, old(stream)) == Prepend(entries, ReadEntries(kt, vt, n - i, stream))
      {
        EntriesStep(entries, kt, vt, n - i, stream);
        var entry :- TakeEntry(kt, vt);
        entries := entries + [entry];
      }
      assert entries + [] == entries;
      r := Ok(entries);
    }

    method TakeStringMap() returns (r: Result<Columns>)
      modifies this
      ensures Agrees(ReadStringMap(old(stream)), r, stream)
    {
      var kt :- TakeByte();
      var vt :- TakeByte();
      var size :- TakeI32();
      r := TakeEntries(kt, vt, Max0(size));
    }

    method TakeStorageDescriptor(t0: HiveTable) returns (r: Result<HiveTable>)
      modifies this
      ensures Agrees(ReadStorage(t0, old(stream)), r, stream)
    {
      var t := t0;
      while true
        invariant ReadStorage(t0, old(stream)) == ReadStorage(t, stream)
        decreases |stream|
      {
        var header :- TakeFieldHeader();
        if header.0 == T_STOP {
          return Ok(t);
        }
        if header.1 == 1 && header.0 == T_LIST {
          var columns :- TakeSchemas();
          t := t.(columns := columns);
        } else if header.1 == 2 && header.0 == T_STRING {
          var location :- TakeString();
          t := t.(location := Some(location));
        } else if header.1 == 3 && header.0 == T_STRING {
          var format :- TakeString();
          t := t.(inputFormat := Some(format));
        } else if header.1 == 7 && header.0 == T_STRUCT {
          var lib :- TakeSerdeLib();
          t := t.(serdeLib := lib);
        } else {
          var _ :- Skip(header.0);
        }
      }
    }

    /** The read-relevant part of a `Table` struct. */
    method TakeTable() returns (r: Result<HiveTable>)
      modifies this
      ensures Agrees(ReadTable(EMPTY_TABLE, old(stream)), r, stream)
    {
      var t := EMPTY_TABLE;
      while true
        invariant ReadTable(EMPTY_TABLE, old(stream)) == ReadTable(t, stream)
        decreases |stream|
      {
        var header :- TakeFieldHeader();
        if header.0 == T_STOP {
          return Ok(t);
        }
        if header.1 == 7 && header.0 == T_STRUCT {
          t :- TakeStorageDescriptor(t);
        } else if header.1 == 8 && header.0 == T_LIST {
          var parts :- TakeSchemas();
          t := WithPartitions(t, parts);
        } else if header.1 == 9 && header.0 == T_MAP {
          var params :- TakeStringMap();
          t := t.(parameters := params);
        } else if header.1 == 12 && header.0 == T_STRING {
          var ty :- TakeString();
          t := t.(tableType := Some(ty));
        } else {
          var _ :- Skip(header.0);
        }
      }
    }
  }

  class WriteBuffer {
    var data: bytes

    constructor ()
      ensures data == []
    {
      data := [];
    }

    method PutByte(b: byte)
      modifies this
      ensures data == old(data) + [b]
    {
      data := data + [b];
    }

    method PutI16(v: i16)
      modifies this
      ensures data == old(data) + EncodeI16(v)
    {
      data := data + EncodeI16(v);
    }

    method PutI32(v: i32)
      modifies this
      ensures data == old(data) + EncodeI32(v)
    {
      data := data + EncodeI32(v);
    }

    method PutString(s: text)
      modifies this
      ensures data == old(data) + EncodeString(s)
    {
      PutI32(CastI32(|s|));
      data := data + s;
    }

    method PutFieldHeader(ftype: byte, id: i16)
      modifies this
      ensures data == old(data) + ([ftype] + EncodeI16(id))
    {
      PutByte(ftype);
      PutI16(id);
    }

    /** The buffer holds the first `k` of `fields` after `front`. */
    ghost predicate Holds(front: bytes, fields: seq<Field>, k: nat)
      requires k <= |fields|
      reads this
    {
      data == front + EncodeBody(fields[..k])
    }

    /** Append the string field that comes next. */
    method AppendString(s: text, id: i16, ghost front: bytes, ghost fields: seq<Field>, ghost k: nat)
      requires k < |fields| && fields[k] == Field(id, Str(s)) && Holds(front, fields, k)
      modifies this
      ensures Holds(front, fields, k + 1)
    {
      PutFieldHeader(T_STRING, id);
      PutString(s);
      BodyGrows(front, fields, k, old(data), data);
    }

    /** Close the struct whose fields have all been appended. */
    method PutStop(ghost front: bytes, ghost fields: seq<Field>)
      requires Holds(front, fields, |fields|)
      modifies this
      ensures data == front + EncodeFields(fields)
    {
      BodyThenStop(fields);
      assert fields[..|fields|] == fields;
      PutByte(T_STOP);
    }

    method PutSchema(c: (text, text))
      modifies this
      ensures data == old(data) + Encode(SchemaValue(c))
    {
      ghost var f := SchemaValue(c).fields;
      AppendString(c.0, 1, old(data), f, 0);
      AppendString(c.1, 2, old(data), f, 1);
      PutStop(old(data), f);
    }

    static lemma SchemasStep(columns: Columns, i: nat)
      requires i < |columns|
      ensures EncodeElems(SchemaValues(columns[i..])) ==
              Encode(SchemaValue(columns[i])) + EncodeElems(SchemaValues(columns[i + 1..]))
    {
      assert columns[i..][1..] == columns[i + 1..];
      assert SchemaValues(columns[i..])[1..] == SchemaValues(columns[i + 1..]);
    }

    static lemma PairsStep(pairs: Columns, i: nat)
      requires i < |pairs|
      ensures EncodePairs(StringPairs(pairs[i..])) ==
              EncodeString(pairs[i].0) + EncodeString(pairs[i].1) + EncodePairs(StringPairs(pairs[i + 1..]))
    {
      assert pairs[i..][1..] == pairs[i + 1..];
      var ps := StringPairs(pairs[i..]);
      assert ps[0] == Pair(Str(pairs[i].0), Str(pairs[i].1)) && ps[1..] == StringPairs(pairs[i + 1..]);
      assert EncodePair(ps[0]) == EncodeString(pairs[i].0) + EncodeString(pairs[i].1);
      assert EncodePairs(ps) == EncodePair(ps[0]) + EncodePairs(ps[1..]);
    }

    static lemma Assoc(a: bytes, b: bytes, c: bytes)
      ensures a + (b + c) == a + b + c
    {
    }

    method PutElements(columns: Columns)
      modifies this
      ensures data == old(data) + EncodeElems(SchemaValues(columns))
    {
      for i := 0 to |columns|
        invariant data + EncodeElems(SchemaValues(columns[i..])) == old(data) + EncodeElems(SchemaValues(columns))
      {
        SchemasStep(columns, i);
        Assoc(data, Encode(SchemaValue(columns[i])), EncodeElems(SchemaValues(columns[i + 1..])));
        PutSchema(columns[i]);
      }
      assert columns[|columns|..] == [];
    }

    method PutPairs(pairs: Columns)
      modifies this
      ensures data == old(data) + EncodePairs(StringPairs(pairs))
    {
      for i := 0 to |pairs|
        invariant data + EncodePairs(StringPairs(pairs[i..])) == old(data) + EncodePairs(StringPairs(pairs))
      {
        PairsStep(pairs, i);
        ghost var k, v, more := EncodeString(pairs[i].0), EncodeString(pairs[i].1), EncodePairs(StringPairs(pairs[i + 1..]));
        Assoc(data, k + v, more);
        Assoc(data, k, v);
        PutString(pairs[i].0);
        PutString(pairs[i].1);
      }
      assert pairs[|pairs|..] == [];
    }

    /** Append the list-of-columns field that comes next. */
    method AppendSchemas(columns: Columns, id: i16, ghost front: bytes, ghost fields: seq<Field>, ghost k: nat)
      requires k < |fields| && fields[k] == Field(id, List(T_STRUCT, SchemaValues(columns))) && Holds(front, fields, k)
      modifies this
      ensures Holds(front, fields, k + 1)
    {
      PutFieldHeader(T_LIST, id);
      PutByte(T_STRUCT);
      PutI32(CastI32(|columns|));
      PutElements(columns);
      BodyGrows(front, fields, k, old(data), data);
    }

    /** Append the string-map field that comes next. */
    method AppendStringMap(pairs: Columns, id: i16, ghost front: bytes, ghost fields: seq<Field>, ghost k: nat)
      requires k < |fields| && fields[k] == Field(id, Map(T_STRING, T_STRING, StringPairs(pairs)))
      requires Holds(front, fields, k)
      modifies this
      ensures Holds(front, fields, k + 1)
    {
      PutFieldHeader(T_MAP, id);
      PutByte(T_STRING);
      PutByte(T_STRING);
      PutI32(CastI32(|pairs|));
      PutPairs(pairs);
      BodyGrows(front, fields, k, old(data), data);
    }

    /** The `SerDeInfo` struct. */
    method PutSerde(t: NewHiveTable)
      modifies this
      ensures data == old(data) + EncodeFields(SerdeFields(t))
    {
      ghost var f := SerdeFields(t);
      AppendString(t.serdeLib, 2, old(data), f, 0);
      AppendStringMap(t.serdeParams, 3, old(data), f, 1);
      PutStop(old(data), f);
    }

    /** Append the `SerDeInfo` field that comes next. */
    method AppendSerde(t: NewHiveTable, id: i16, ghost front: bytes, ghost fields: seq<Field>, ghost k: nat)
      requires k < |fields| && fields[k] == Field(id, Struct(SerdeFields(t))) && Holds(front, fields, k)
      modifies this
      ensures Holds(front, fields, k + 1)
    {
      PutFieldHeader(T_STRUCT, id);
      PutSerde(t);
      BodyGrows(front, fields, k, old(data), data);
    }

    /** The `StorageDescriptor` struct. */
    method PutStorage(t: NewHiveTable)
      modifies this
      ensures data == old(data) + EncodeFields(StorageFields(t))
    {
      ghost var f := StorageFields(t);
      AppendSchemas(t.columns, 1, old(data), f, 0);
      AppendString(t.location, 2, old(data), f, 1);
      AppendString(t.inputFormat, 3, old(data), f, 2);
      AppendString(t.outputFormat, 4, old(data), f, 3);
      AppendSerde(t, 7, old(data), f, 4);
      PutStop(old(data), f);
    }

    /** Append the `StorageDescriptor` field that comes next. */
    method AppendStorage(t: NewHiveTable, id: i16, ghost front: bytes, ghost fields: seq<Field>, ghost k: nat)
      requires k < |fields| && fields[k] == Field(id, Struct(StorageFields(t))) && Holds(front, fields, k)
      modifies this
      ensures Holds(front, fields, k + 1)
    {
      PutFieldHeader(T_STRUCT, id);
      PutStorage(t);
      BodyGrows(front, fields, k, old(data), data);
    }

    /** The names and the storage of a `Table`. */
    method PutTableHead(t: NewHiveTable, ghost front: bytes, ghost f: seq<Field>)
      requires |f| >= 3 && data == front
      requires f[0] == Field(1, Str(t.tableName)) && f[1] == Field(2, Str(t.dbName))
      requires f[2] == Field(7, Struct(StorageFields(t)))
      modifies this
      ensures Holds(front, f, 3)
    {
      assert f[..0] == [];
      AppendString(t.tableName, 1, front, f, 0);
      AppendString(t.dbName, 2, front, f, 1);
      AppendStorage(t, 7, front, f, 2);
    }

    /** The partition keys, the empty parameters and the type of a `Table`. */
    method PutTableTail(t: NewHiveTable, tableType: text, ghost front: bytes, ghost f: seq<Field>)
      requires |f| == 6 && Holds(front, f, 3)
      requires f[3] == Field(8, List(T_STRUCT, SchemaValues(t.partitionColumns)))
      requires f[4] == Field(9, Map(T_STRING, T_STRING, [])) && f[5] == Field(12, Str(tableType))
      modifies this
      ensures data == front + EncodeFields(f)
    {
      AppendSchemas(t.partitionColumns, 8, front, f, 3);
      AppendStringMap([], 9, front, f, 4);
      AppendString(tableType, 12, front, f, 5);
      PutStop(front, f);
    }

    method PutTableAs(t: NewHiveTable, tableType: text)
      modifies this
      ensures data == old(data) + EncodeFields(TableFieldsAs(t, tableType))
    {
      ghost var f := TableFieldsAs(t, tableType);
      PutTableHead(t, old(data), f);
      PutTableTail(t, tableType, old(data), f);
    }

    /** The `Table` argument of `create_table`: what it appends is the encoding that reads back as the
        same table. */
    method PutNewTable(t: NewHiveTable)
      modifies this
      ensures data == old(data) + EncodeFields(TableFields(t))
    {
      PutTableAs(t, External());
    }
  }
}
