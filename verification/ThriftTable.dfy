/** The Hive `Table` struct: what the selective reader keeps of a stream, the meaning of a `Table` value
    tree, and the theorem that the first computes the second. */
module ThriftTable {
  import opened Wrappers
  import opened ThriftWire
  import opened ThriftValues
  import opened Utf8

  type Columns = seq<(text, text)>

  datatype HiveTable = HiveTable(
    location: Option<text>,
    inputFormat: Option<text>,
    serdeLib: Option<text>,
    tableType: Option<text>,
    parameters: Columns,
    columns: Columns,
    partitionTyped: Columns,
    partitionColumns: seq<text>)

  const EMPTY_TABLE := HiveTable(None, None, None, None, [], [], [], [])

  function Names(columns: Columns): seq<text> {
    seq(|columns|, i requires 0 <= i < |columns| => columns[i].0)
  }

  function WithPartitions(t: HiveTable, parts: Columns): HiveTable {
    t.(partitionColumns := Names(parts), partitionTyped := parts)
  }

  // ---- the readers. Each takes what it has so far and loops to STOP, or over a counted list; each is
  // ---- total, and a success leaves a strictly shorter stream (a list body: no longer a stream).

  function ReadString(s: bytes): (r: Read<text>)
    ensures r.Got? ==> |r.rest| < |s|
  {
    var (b, rest) :- ReadBlob(s);
    if Valid(b) then Got(b, rest) else Fail
  }

  function ReadTable(t: HiveTable, s: bytes): (r: Read<HiveTable>)
    ensures r.Got? ==> |r.rest| < |s|
    decreases |s|
  {
    var (header, rest) :- ReadFieldHeader(s);
    if header.0 == T_STOP then Got(t, rest)
    else
      var (t, rest) :- ReadTableField(t, header.0, header.1, rest);
      ReadTable(t, rest)
  }

  /** The value of one field of a `Table`: `sd`, `partitionKeys`, `parameters`, `tableType`, or skipped. */
  function ReadTableField(t: HiveTable, ftype: byte, id: i16, s: bytes): (r: Read<HiveTable>)
    ensures r.Got? ==> |r.rest| < |s|
  {
    if id == 7 && ftype == T_STRUCT then ReadStorage(t, s)
    else if id == 8 && ftype == T_LIST then
      var (parts, rest) :- ReadSchemas(s);
      Got(WithPartitions(t, parts), rest)
    else if id == 9 && ftype == T_MAP then
      var (params, rest) :- ReadStringMap(s);
      Got(t.(parameters := params), rest)
    else if id == 12 && ftype == T_STRING then
      var (ty, rest) :- ReadString(s);
      Got(t.(tableType := Some(ty)), rest)
    else
      var (_, rest) :- Skip(ftype, s);
      Got(t, rest)
  }

  function ReadStorage(t: HiveTable, s: bytes): (r: Read<HiveTable>)
    ensures r.Got? ==> |r.rest| < |s|
    decreases |s|
  {
    var (header, rest) :- ReadFieldHeader(s);
    if header.0 == T_STOP then Got(t, rest)
    else
      var (t, rest) :- ReadStorageField(t, header.0, header.1, rest);
      ReadStorage(t, rest)
  }

  /** The value of one field of a `StorageDescriptor`: `cols`, `location`, `inputFormat`, `serdeInfo`,
      or skipped. */
  function ReadStorageField(t: HiveTable, ftype: byte, id: i16, s: bytes): (r: Read<HiveTable>)
    ensures r.Got? ==> |r.rest| < |s|
  {
    if id == 1 && ftype == T_LIST then
      var (cols, rest) :- ReadSchemas(s);
      Got(t.(columns := cols), rest)
    else if id == 2 && ftype == T_STRING then
      var (location, rest) :- ReadString(s);
      Got(t.(location := Some(location)), rest)
    else if id == 3 && ftype == T_STRING then
      var (format, rest) :- ReadString(s);
      Got(t.(inputFormat := Some(format)), rest)
    else if id == 7 && ftype == T_STRUCT then
      var (lib, rest) :- ReadSerde(None, s);
      Got(t.(serdeLib := lib), rest)
    else
      var (_, rest) :- Skip(ftype, s);
      Got(t, rest)
  }

  function ReadSerde(lib: Option<text>, s: bytes): (r: Read<Option<text>>)
    ensures r.Got? ==> |r.rest| < |s|
    decreases |s|
  {
    var (header, rest) :- ReadFieldHeader(s);
    if header.0 == T_STOP then Got(lib, rest)
    else
      var (lib, rest) :- ReadSerdeField(lib, header.0, header.1, rest);
      ReadSerde(lib, rest)
  }

  /** The value of one field of a `SerDeInfo`: `serializationLib`, or skipped. */
  function ReadSerdeField(lib: Option<text>, ftype: byte, id: i16, s: bytes): (r: Read<Option<text>>)
    ensures r.Got? ==> |r.rest| < |s|
  {
    if id == 2 && ftype == T_STRING then
      var (name, rest) :- ReadString(s);
      Got(Some(name), rest)
    else
      var (_, rest) :- Skip(ftype, s);
      Got(lib, rest)
  }

  function ReadSchemas(s: bytes): (r: Read<Columns>)
    ensures r.Got? ==> |r.rest| < |s|
  {
    var (header, rest) :- ReadListHeader(s);
    ReadSchemaList(header.0, Max0(header.1), rest)
  }

  /** `n` elements; those that are not structs are skipped and leave no column. */
  function ReadSchemaList(et: byte, n: nat, s: bytes): (r: Read<Columns>)
    ensures r.Got? ==> |r.rest| + n <= |s|
    decreases n
  {
    if n == 0 then Got([], s)
    else if et != T_STRUCT then
      var (_, rest) :- Skip(et, s);
      ReadSchemaList(et, n - 1, rest)
    else
      var (column, rest) :- ReadSchema(([], []), s);
      var (more, rest) :- ReadSchemaList(et, n - 1, rest);
      Got([column] + more, rest)
  }

  function ReadSchema(c: (text, text), s: bytes): (r: Read<(text, text)>)
    ensures r.Got? ==> |r.rest| < |s|
    decreases |s|
  {
    var (header, rest) :- ReadFieldHeader(s);
    if header.0 == T_STOP then Got(c, rest)
    else
      var (c, rest) :- ReadSchemaField(c, header.0, header.1, rest);
      ReadSchema(c, rest)
  }

  /** The value of one field of a `FieldSchema`: `name`, `type`, or skipped. */
  function ReadSchemaField(c: (text, text), ftype: byte, id: i16, s: bytes): (r: Read<(text, text)>)
    ensures r.Got? ==> |r.rest| < |s|
  {
    if id == 1 && ftype == T_STRING then
      var (name, rest) :- ReadString(s);
      Got((name, c.1), rest)
    else if id == 2 && ftype == T_STRING then
      var (ty, rest) :- ReadString(s);
      Got((c.0, ty), rest)
    else
      var (_, rest) :- Skip(ftype, s);
      Got(c, rest)
  }

  function ReadStringMap(s: bytes): (r: Read<Columns>)
    ensures r.Got? ==> |r.rest| < |s|
  {
    var (kt, rest) :- ReadByte(s);
    var (vt, rest) :- ReadByte(rest);
    var (n, rest) :- ReadI32(rest);
    ReadEntries(kt, vt, Max0(n), rest)
  }

  /** A string, or the empty string for a skipped value of another type. */
  function ReadOrSkip(ty: byte, s: bytes): (r: Read<text>)
    ensures r.Got? ==> |r.rest| < |s|
  {
    if ty == T_STRING then ReadString(s)
    else
      var (_, rest) :- Skip(ty, s);
      Got([], rest)
  }

  function ReadEntry(kt: byte, vt: byte, s: bytes): (r: Read<(text, text)>)
    ensures r.Got? ==> |r.rest| < |s|
  {
    var (k, rest) :- ReadOrSkip(kt, s);
    var (v, rest) :- ReadOrSkip(vt, rest);
    Got((k, v), rest)
  }

  function ReadEntries(kt: byte, vt: byte, n: nat, s: bytes): (r: Read<Columns>)
    ensures r.Got? ==> |r.rest| + n <= |s|
    decreases n
  {
    if n == 0 then Got([], s)
    else
      var (entry, rest) :- ReadEntry(kt, vt, s);
      var (more, rest) :- ReadEntries(kt, vt, n - 1, rest);
      Got([entry] + more, rest)
  }

  // ---- what a value tree means: fold its fields, the last matching one winning. `None` is a string that
  // ---- is read and is not UTF-8.

  function Text(s: bytes): Option<text> {
    if Valid(s) then Some(s) else None
  }

  function SchemaField(c: (text, text), f: Field): Option<(text, text)> {
    if f.value.Str? && (f.id == 1 || f.id == 2) then
      match Text(f.value.text)
      case None => None
      case Some(s) => Some(if f.id == 1 then (s, c.1) else (c.0, s))
    else Some(c)
  }

  function SchemaMeaning(c: (text, text), fields: seq<Field>): Option<(text, text)>
    decreases |fields|
  {
    if fields == [] then Some(c)
    else match SchemaField(c, fields[0])
      case None => None
      case Some(c) => SchemaMeaning(c, fields[1..])
  }

  function ColumnsMeaning(elems: seq<Value>): Option<Columns> {
    if elems == [] then Some([])
    else if !elems[0].Struct? then ColumnsMeaning(elems[1..])
    else match (SchemaMeaning(([], []), elems[0].fields), ColumnsMeaning(elems[1..]))
      case (Some(c), Some(cs)) => Some([c] + cs)
      case _ => None
  }

  function TextOrEmpty(v: Value): Option<text> {
    if v.Str? then Text(v.text) else Some([])
  }

  function EntryMeaning(p: Pair): Option<(text, text)> {
    match (TextOrEmpty(p.key), TextOrEmpty(p.value))
    case (Some(k), Some(v)) => Some((k, v))
    case _ => None
  }

  function MapMeaning(pairs: seq<Pair>): Option<Columns> {
    if pairs == [] then Some([])
    else match (EntryMeaning(pairs[0]), MapMeaning(pairs[1..]))
      case (Some(entry), Some(more)) => Some([entry] + more)
      case _ => None
  }

  function SerdeField(lib: Option<text>, f: Field): Option<Option<text>> {
    if f.id == 2 && f.value.Str? then
      match Text(f.value.text)
      case None => None
      case Some(s) => Some(Some(s))
    else Some(lib)
  }

  function SerdeMeaning(lib: Option<text>, fields: seq<Field>): Option<Option<text>>
    decreases |fields|
  {
    if fields == [] then Some(lib)
    else match SerdeField(lib, fields[0])
      case None => None
      case Some(lib) => SerdeMeaning(lib, fields[1..])
  }

  function StorageField(t: HiveTable, f: Field): Option<HiveTable> {
    if f.id == 1 && f.value.List? then
      match ColumnsMeaning(f.value.elems) case None => None case Some(cs) => Some(t.(columns := cs))
    else if f.id == 2 && f.value.Str? then
      match Text(f.value.text) case None => None case Some(s) => Some(t.(location := Some(s)))
    else if f.id == 3 && f.value.Str? then
      match Text(f.value.text) case None => None case Some(s) => Some(t.(inputFormat := Some(s)))
    else if f.id == 7 && f.value.Struct? then
      match SerdeMeaning(None, f.value.fields) case None => None case Some(lib) => Some(t.(serdeLib := lib))
    else Some(t)
  }

  function StorageMeaning(t: HiveTable, fields: seq<Field>): Option<HiveTable>
    decreases |fields|
  {
    if fields == [] then Some(t)
    else match StorageField(t, fields[0])
      case None => None
      case Some(t) => StorageMeaning(t, fields[1..])
  }

  function TableField(t: HiveTable, f: Field): Option<HiveTable> {
    if f.id == 7 && f.value.Struct? then StorageMeaning(t, f.value.fields)
    else if f.id == 8 && f.value.List? then
      match ColumnsMeaning(f.value.elems) case None => None case Some(cs) => Some(WithPartitions(t, cs))
    else if f.id == 9 && f.value.Map? then
      match MapMeaning(f.value.pairs) case None => None case Some(ps) => Some(t.(parameters := ps))
    else if f.id == 12 && f.value.Str? then
      match Text(f.value.text) case None => None case Some(s) => Some(t.(tableType := Some(s)))
    else Some(t)
  }

  function TableMeaning(t: HiveTable, fields: seq<Field>): Option<HiveTable>
    decreases |fields|
  {
    if fields == [] then Some(t)
    else match TableField(t, fields[0])
      case None => None
      case Some(t) => TableMeaning(t, fields[1..])
  }

  function Lift<T>(meaning: Option<T>, rest: bytes): Read<T> {
    match meaning
    case None => Fail
    case Some(v) => Got(v, rest)
  }

  // ---- reading an encoding gives its meaning

  lemma ReadStringOf(s: bytes, rest: bytes)
    requires |s| < I32_LIMIT
    ensures ReadString(EncodeString(s) + rest) == Lift(Text(s), rest)
  {
    BlobRoundTrip(s, rest);
  }

  lemma ReadStringValue(v: Value, rest: bytes)
    requires v.Str? && WellFormed(v)
    ensures ReadString(Encode(v) + rest) == Lift(Text(v.text), rest)
  {
    ReadStringOf(v.text, rest);
  }

  /** The header of the first field. */
  lemma FirstField(fields: seq<Field>, rest: bytes)
    requires fields != [] && AllFields(fields)
    ensures var f, tail := fields[0], EncodeFields(fields[1..]) + rest;
            ReadFieldHeader(EncodeFields(fields) + rest) == Got((TypeOf(f.value), f.id), Encode(f.value) + tail)
    ensures FieldOk(fields[0]) && AllFields(fields[1..])
  {
    FieldsSplit(fields, rest);
    FieldHeaderOf(fields[0], EncodeFields(fields[1..]) + rest);
  }

  lemma SchemaFieldReadsBack(c: (text, text), f: Field, rest: bytes)
    requires FieldOk(f)
    ensures ReadSchemaField(c, TypeOf(f.value), f.id, Encode(f.value) + rest) == Lift(SchemaField(c, f), rest)
  {
    if f.value.Str? && (f.id == 1 || f.id == 2) {
      ReadStringValue(f.value, rest);
    } else {
      SkipFieldIsExact(f, rest);
    }
  }

  lemma {:induction false} SchemaReadsBack(c: (text, text), fields: seq<Field>, rest: bytes)
    requires AllFields(fields)
    ensures ReadSchema(c, EncodeFields(fields) + rest) == Lift(SchemaMeaning(c, fields), rest)
    decreases |fields|
  {
    if fields == [] {
      StopOf(rest);
    } else {
      FirstField(fields, rest);
      SchemaFieldReadsBack(c, fields[0], EncodeFields(fields[1..]) + rest);
      match SchemaField(c, fields[0])
      case None =>
      case Some(c') => SchemaReadsBack(c', fields[1..], rest);
    }
  }

  lemma {:induction false} SchemaListReadsBack(et: byte, elems: seq<Value>, rest: bytes)
    requires AllElems(et, elems)
    ensures ReadSchemaList(et, |elems|, EncodeElems(elems) + rest) == Lift(ColumnsMeaning(elems), rest)
    decreases |elems|
  {
    if elems == [] {
      assert EncodeElems(elems) + rest == rest;
    } else {
      var tail := EncodeElems(elems[1..]) + rest;
      assert EncodeElems(elems) + rest == Encode(elems[0]) + tail;
      assert TypeOf(elems[0]) == et && WellFormed(elems[0]);
      SchemaListReadsBack(et, elems[1..], rest);
      if elems[0].Struct? {
        SchemaReadsBack(([], []), elems[0].fields, tail);
      } else {
        SkipIsExact(elems[0], tail);
      }
    }
  }

  lemma SchemasReadBack(v: Value, rest: bytes)
    requires v.List? && WellFormed(v)
    ensures ReadSchemas(Encode(v) + rest) == Lift(ColumnsMeaning(v.elems), rest)
  {
    ListHeaderOf(v, rest);
    SchemaListReadsBack(v.et, v.elems, rest);
  }

  lemma TextReadsBack(v: Value, rest: bytes)
    requires WellFormed(v)
    ensures ReadOrSkip(TypeOf(v), Encode(v) + rest) == Lift(TextOrEmpty(v), rest)
  {
    if v.Str? {
      ReadStringValue(v, rest);
    } else {
      SkipIsExact(v, rest);
    }
  }

  lemma EntryReadsBack(kt: byte, vt: byte, p: Pair, rest: bytes)
    requires PairOk(kt, vt, p)
    ensures ReadEntry(kt, vt, EncodePair(p) + rest) == Lift(EntryMeaning(p), rest)
  {
    assert EncodePair(p) + rest == Encode(p.key) + (Encode(p.value) + rest);
    TextReadsBack(p.key, Encode(p.value) + rest);
    TextReadsBack(p.value, rest);
  }

  lemma {:induction false} EntriesReadBack(kt: byte, vt: byte, pairs: seq<Pair>, rest: bytes)
    requires AllPairs(kt, vt, pairs)
    ensures ReadEntries(kt, vt, |pairs|, EncodePairs(pairs) + rest) == Lift(MapMeaning(pairs), rest)
    decreases |pairs|
  {
    if pairs == [] {
      assert EncodePairs(pairs) + rest == rest;
    } else {
      var tail := EncodePairs(pairs[1..]) + rest;
      assert EncodePairs(pairs) + rest == EncodePair(pairs[0]) + tail;
      EntryReadsBack(kt, vt, pairs[0], tail);
      EntriesReadBack(kt, vt, pairs[1..], rest);
    }
  }

  lemma StringMapReadsBack(v: Value, rest: bytes)
    requires v.Map? && WellFormed(v)
    ensures ReadStringMap(Encode(v) + rest) == Lift(MapMeaning(v.pairs), rest)
  {
    MapHeaderOf(v, rest);
    EntriesReadBack(v.kt, v.vt, v.pairs, rest);
  }

  lemma SerdeFieldReadsBack(lib: Option<text>, f: Field, rest: bytes)
    requires FieldOk(f)
    ensures ReadSerdeField(lib, TypeOf(f.value), f.id, Encode(f.value) + rest) == Lift(SerdeField(lib, f), rest)
  {
    if f.id == 2 && f.value.Str? {
      ReadStringValue(f.value, rest);
    } else {
      SkipFieldIsExact(f, rest);
    }
  }

  lemma {:induction false} SerdeReadsBack(lib: Option<text>, fields: seq<Field>, rest: bytes)
    requires AllFields(fields)
    ensures ReadSerde(lib, EncodeFields(fields) + rest) == Lift(SerdeMeaning(lib, fields), rest)
    decreases |fields|
  {
    if fields == [] {
      StopOf(rest);
    } else {
      FirstField(fields, rest);
      SerdeFieldReadsBack(lib, fields[0], EncodeFields(fields[1..]) + rest);
      match SerdeField(lib, fields[0])
      case None =>
      case Some(lib') => SerdeReadsBack(lib', fields[1..], rest);
    }
  }

  lemma StorageFieldReadsBack(t: HiveTable, f: Field, rest: bytes)
    requires FieldOk(f)
    ensures ReadStorageField(t, TypeOf(f.value), f.id, Encode(f.value) + rest) == Lift(StorageField(t, f), rest)
  {
    if f.id == 1 && f.value.List? {
      SchemasReadBack(f.value, rest);
    } else if f.id == 7 && f.value.Struct? {
      SerdeReadsBack(None, f.value.fields, rest);
    } else if (f.id == 2 || f.id == 3) && f.value.Str? {
      ReadStringValue(f.value, rest);
    } else {
      SkipFieldIsExact(f, rest);
    }
  }

  lemma {:induction false} StorageReadsBack(t: HiveTable, fields: seq<Field>, rest: bytes)
    requires AllFields(fields)
    ensures ReadStorage(t, EncodeFields(fields) + rest) == Lift(StorageMeaning(t, fields), rest)
    decreases |fields|
  {
    if fields == [] {
      StopOf(rest);
    } else {
      FirstField(fields, rest);
      StorageFieldReadsBack(t, fields[0], EncodeFields(fields[1..]) + rest);
      match StorageField(t, fields[0])
      case None =>
      case Some(t') => StorageReadsBack(t', fields[1..], rest);
    }
  }

  lemma TableFieldReadsBack(t: HiveTable, f: Field, rest: bytes)
    requires FieldOk(f)
    ensures ReadTableField(t, TypeOf(f.value), f.id, Encode(f.value) + rest) == Lift(TableField(t, f), rest)
  {
    if f.id == 7 && f.value.Struct? {
      StorageReadsBack(t, f.value.fields, rest);
    } else if f.id == 8 && f.value.List? {
      SchemasReadBack(f.value, rest);
    } else if f.id == 9 && f.value.Map? {
      StringMapReadsBack(f.value, rest);
    } else if f.id == 12 && f.value.Str? {
      ReadStringValue(f.value, rest);
    } else {
      SkipFieldIsExact(f, rest);
    }
  }

  /** Reading any well-formed `Table` struct, with whatever follows it, gives its meaning and leaves
      exactly what follows; it fails just when a string it keeps is not UTF-8. */
  lemma {:induction false} TableReadsBack(t: HiveTable, fields: seq<Field>, rest: bytes)
    requires AllFields(fields)
    ensures ReadTable(t, EncodeFields(fields) + rest) == Lift(TableMeaning(t, fields), rest)
    decreases |fields|
  {
    if fields == [] {
      StopOf(rest);
    } else {
      FirstField(fields, rest);
      TableFieldReadsBack(t, fields[0], EncodeFields(fields[1..]) + rest);
      match TableField(t, fields[0])
      case None =>
      case Some(t') => TableReadsBack(t', fields[1..], rest);
    }
  }
}
