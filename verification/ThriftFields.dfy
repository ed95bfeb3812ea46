/** What the reader keeps of a `Table`, by field id alone: the last field of an id and a type is the one that
    counts, over all storage descriptors of the table. And what a metastore finds in a table that was written. */
module ThriftFields {
  import opened Wrappers
  import opened ThriftValues
  import opened ThriftTable
  import opened ThriftCompat
  import opened Utf8
  import opened ThriftWire

  // ---- the last value of an id and a type

  function LastStr(fields: seq<Field>, id: int): Option<bytes> {
    if fields == [] then None
    else if LastStr(fields[1..], id).Some? then LastStr(fields[1..], id)
    else if fields[0].id == id && fields[0].value.Str? then Some(fields[0].value.text)
    else None
  }

  function LastList(fields: seq<Field>, id: int): Option<seq<Value>> {
    if fields == [] then None
    else if LastList(fields[1..], id).Some? then LastList(fields[1..], id)
    else if fields[0].id == id && fields[0].value.List? then Some(fields[0].value.elems)
    else None
  }

  function LastMap(fields: seq<Field>, id: int): Option<seq<Pair>> {
    if fields == [] then None
    else if LastMap(fields[1..], id).Some? then LastMap(fields[1..], id)
    else if fields[0].id == id && fields[0].value.Map? then Some(fields[0].value.pairs)
    else None
  }

  function LastStruct(fields: seq<Field>, id: int): Option<seq<Field>> {
    if fields == [] then None
    else if LastStruct(fields[1..], id).Some? then LastStruct(fields[1..], id)
    else if fields[0].id == id && fields[0].value.Struct? then Some(fields[0].value.fields)
    else None
  }

  /** The fields of all the structs of an id, one after the other. */
  function Within(fields: seq<Field>, id: int): seq<Field> {
    if fields == [] then []
    else (if fields[0].id == id && fields[0].value.Struct? then fields[0].value.fields else []) + Within(fields[1..], id)
  }

  function StrOf(v: Value): bytes {
    if v.Str? then v.text else []
  }

  function Structs(elems: seq<Value>): seq<seq<Field>> {
    if elems == [] then []
    else (if elems[0].Struct? then [elems[0].fields] else []) + Structs(elems[1..])
  }

  /** Each column is the name and the type of one struct of the list, in order. */
  predicate ColumnsAre(columns: Columns, elems: seq<Value>) {
    var structs := Structs(elems);
    && |columns| == |structs|
    && forall i :: 0 <= i < |columns| ==>
         && columns[i].0 == LastStr(structs[i], 1).GetOr([])
         && columns[i].1 == LastStr(structs[i], 2).GetOr([])
  }

  predicate EntriesAre(entries: Columns, pairs: seq<Pair>) {
    && |entries| == |pairs|
    && forall i :: 0 <= i < |pairs| ==> entries[i].0 == StrOf(pairs[i].key) && entries[i].1 == StrOf(pairs[i].value)
  }

  // ---- the meaning, by last values

  lemma {:induction false} SchemaByLast(c: (text, text), fields: seq<Field>)
    requires SchemaMeaning(c, fields).Some?
    ensures SchemaMeaning(c, fields).value.0 == LastStr(fields, 1).GetOr(c.0)
    ensures SchemaMeaning(c, fields).value.1 == LastStr(fields, 2).GetOr(c.1)
    decreases |fields|
  {
    if fields != [] {
      SchemaByLast(SchemaField(c, fields[0]).value, fields[1..]);
    }
  }

  lemma ColumnsCons(fields: seq<Field>, c: (text, text), columns: Columns, elems: seq<Value>)
    requires ColumnsAre(columns, elems)
    requires c.0 == LastStr(fields, 1).GetOr([]) && c.1 == LastStr(fields, 2).GetOr([])
    ensures ColumnsAre([c] + columns, [Struct(fields)] + elems)
  {
    hide LastStr;
    assert ([Struct(fields)] + elems)[1..] == elems;
    assert Structs([Struct(fields)] + elems) == [fields] + Structs(elems);
  }

  lemma {:induction false} ColumnsByLast(elems: seq<Value>)
    requires ColumnsMeaning(elems).Some?
    ensures ColumnsAre(ColumnsMeaning(elems).value, elems)
  {
    if elems == [] {
      NoColumns();
    } else {
      hide ColumnsAre, LastStr, SchemaMeaning;
      ColumnsByLast(elems[1..]);
      if elems[0].Struct? {
        SchemaByLast(([], []), elems[0].fields);
        assert elems == [Struct(elems[0].fields)] + elems[1..];
        ColumnsCons(elems[0].fields, SchemaMeaning(([], []), elems[0].fields).value, ColumnsMeaning(elems[1..]).value, elems[1..]);
      } else {
        SkippedElement(ColumnsMeaning(elems).value, elems);
      }
    }
  }

  lemma SkippedElement(columns: Columns, elems: seq<Value>)
    requires elems != [] && !elems[0].Struct? && ColumnsAre(columns, elems[1..])
    ensures ColumnsAre(columns, elems)
  {
    hide LastStr;
    assert Structs(elems) == Structs(elems[1..]);
  }

  lemma {:induction false} MapByEntries(pairs: seq<Pair>)
    requires MapMeaning(pairs).Some?
    ensures EntriesAre(MapMeaning(pairs).value, pairs)
  {
    if pairs != [] {
      MapByEntries(pairs[1..]);
    }
  }

  lemma {:induction false} SerdeByLast(lib: Option<text>, fields: seq<Field>)
    requires SerdeMeaning(lib, fields).Some?
    ensures var r := SerdeMeaning(lib, fields).value;
            if LastStr(fields, 2).Some? then r == LastStr(fields, 2) else r == lib
    decreases |fields|
  {
    if fields != [] {
      SerdeByLast(SerdeField(lib, fields[0]).value, fields[1..]);
    }
  }

  function Or<T>(last: Option<T>, before: Option<T>): Option<T> {
    if last.Some? then last else before
  }

  /** The parts a storage descriptor sets are those of its last fields; the rest of the table stays. */
  ghost predicate StorageIs(before: HiveTable, fields: seq<Field>, t: HiveTable) {
    && t.location == Or(LastStr(fields, 2), before.location)
    && t.inputFormat == Or(LastStr(fields, 3), before.inputFormat)
    && t.serdeLib == (if LastStruct(fields, 7).None? then before.serdeLib else LastStr(LastStruct(fields, 7).value, 2))
    && (if LastList(fields, 1).None? then t.columns == before.columns else ColumnsAre(t.columns, LastList(fields, 1).value))
    && t == before.(location := t.location, inputFormat := t.inputFormat, serdeLib := t.serdeLib, columns := t.columns)
  }

  lemma LastOfOne(f: Field, id: int)
    ensures LastStr([f], id) == (if f.id == id && f.value.Str? then Some(f.value.text) else None)
    ensures LastList([f], id) == (if f.id == id && f.value.List? then Some(f.value.elems) else None)
    ensures LastMap([f], id) == (if f.id == id && f.value.Map? then Some(f.value.pairs) else None)
    ensures LastStruct([f], id) == (if f.id == id && f.value.Struct? then Some(f.value.fields) else None)
  {
    assert [f][1..] == [];
  }

  lemma StorageFieldIs(before: HiveTable, f: Field)
    requires StorageField(before, f).Some?
    ensures StorageIs(before, [f], StorageField(before, f).value)
  {
    LastOfOne(f, 1);
    LastOfOne(f, 2);
    LastOfOne(f, 3);
    LastOfOne(f, 7);
    hide ColumnsAre, LastStr, LastList, LastStruct, ColumnsMeaning, SerdeMeaning;
    if f.id == 1 && f.value.List? {
      ColumnsByLast(f.value.elems);
    } else if f.id == 7 && f.value.Struct? {
      SerdeByLast(None, f.value.fields);
    }
  }

  lemma {:induction false} LastSplit(a: seq<Field>, b: seq<Field>, id: int)
    ensures LastStr(a + b, id) == Or(LastStr(b, id), LastStr(a, id))
    ensures LastList(a + b, id) == Or(LastList(b, id), LastList(a, id))
    ensures LastStruct(a + b, id) == Or(LastStruct(b, id), LastStruct(a, id))
    decreases |a|
  {
    if a == [] {
      assert a + b == b;
    } else {
      assert (a + b)[1..] == a[1..] + b;
      LastSplit(a[1..], b, id);
    }
  }

  lemma StorageIsThen(before: HiveTable, a: seq<Field>, mid: HiveTable, b: seq<Field>, t: HiveTable)
    requires StorageIs(before, a, mid) && StorageIs(mid, b, t)
    ensures StorageIs(before, a + b, t)
  {
    hide ColumnsAre;
    LastSplit(a, b, 1);
    LastSplit(a, b, 2);
    LastSplit(a, b, 3);
    LastSplit(a, b, 7);
    hide LastStr, LastList, LastStruct;
  }

  lemma {:induction false} StorageByLast(before: HiveTable, fields: seq<Field>)
    requires StorageMeaning(before, fields).Some?
    ensures StorageIs(before, fields, StorageMeaning(before, fields).value)
    decreases |fields|
  {
    if fields != [] {
      hide StorageIs, StorageField;
      var mid := StorageField(before, fields[0]).value;
      StorageFieldIs(before, fields[0]);
      StorageByLast(mid, fields[1..]);
      StorageIsThen(before, [fields[0]], mid, fields[1..], StorageMeaning(before, fields).value);
      assert [fields[0]] + fields[1..] == fields;
    }
  }

  /** The partition columns are the names of the typed ones. */
  predicate PartitionsNamed(t: HiveTable) {
    && |t.partitionColumns| == |t.partitionTyped|
    && forall i :: 0 <= i < |t.partitionTyped| ==> t.partitionColumns[i] == t.partitionTyped[i].0
  }

  /** What the table's own fields set, its storage descriptors aside. */
  ghost predicate OwnIs(before: HiveTable, fields: seq<Field>, t: HiveTable) {
    && t.tableType == Or(LastStr(fields, 12), before.tableType)
    && (if LastList(fields, 8).None? then t.partitionTyped == before.partitionTyped
        else ColumnsAre(t.partitionTyped, LastList(fields, 8).value))
    && (if LastMap(fields, 9).None? then t.parameters == before.parameters
        else EntriesAre(t.parameters, LastMap(fields, 9).value))
    && (PartitionsNamed(before) ==> PartitionsNamed(t))
  }

  lemma TableFieldIs(before: HiveTable, f: Field, t: HiveTable)
    requires TableField(before, f) == Some(t)
    ensures OwnIs(before, [f], t)
    ensures if f.id == 7 && f.value.Struct? then StorageIs(before, f.value.fields, t)
            else t == before.(tableType := t.tableType, partitionTyped := t.partitionTyped,
                              partitionColumns := t.partitionColumns, parameters := t.parameters)
  {
    LastOfOne(f, 12);
    LastOfOne(f, 8);
    LastOfOne(f, 9);
    hide ColumnsAre, EntriesAre, StorageMeaning, LastStr, LastList, LastMap, LastStruct, ColumnsMeaning, MapMeaning;
    if f.id == 7 && f.value.Struct? {
      StorageByLast(before, f.value.fields);
    } else if f.id == 8 && f.value.List? {
      ColumnsByLast(f.value.elems);
    } else if f.id == 9 && f.value.Map? {
      MapByEntries(f.value.pairs);
    }
  }

  ghost predicate TableIs(before: HiveTable, fields: seq<Field>, t: HiveTable) {
    && OwnIs(before, fields, t)
    && StorageIs(before, Within(fields, 7), t.(tableType := before.tableType, partitionTyped := before.partitionTyped,
         partitionColumns := before.partitionColumns, parameters := before.parameters))
  }

  lemma OwnIsThen(before: HiveTable, f: Field, mid: HiveTable, rest: seq<Field>, t: HiveTable)
    requires OwnIs(before, [f], mid) && OwnIs(mid, rest, t)
    ensures OwnIs(before, [f] + rest, t)
  {
    hide ColumnsAre, EntriesAre, PartitionsNamed;
    LastSplit([f], rest, 12);
    LastSplit([f], rest, 8);
    LastMapSplit(f, rest, 9);
    hide LastStr, LastList, LastMap;
  }

  lemma LastMapSplit(f: Field, rest: seq<Field>, id: int)
    ensures LastMap([f] + rest, id) == Or(LastMap(rest, id), LastMap([f], id))
  {
    assert ([f] + rest)[1..] == rest && [f][1..] == [];
  }

  lemma NoStorage(before: HiveTable)
    ensures StorageIs(before, [], before)
  {
  }

  /** Storage fields do not look at the table's own parts. */
  lemma StorageAside(before: HiveTable, fields: seq<Field>, t: HiveTable, own: HiveTable)
    requires StorageIs(before, fields, t)
    ensures StorageIs(
              before.(tableType := own.tableType, partitionTyped := own.partitionTyped,
                      partitionColumns := own.partitionColumns, parameters := own.parameters),
              fields,
              t.(tableType := own.tableType, partitionTyped := own.partitionTyped,
                 partitionColumns := own.partitionColumns, parameters := own.parameters))
  {
    hide ColumnsAre, LastStr, LastList, LastStruct;
  }

  lemma {:induction false} TableByLastFrom(before: HiveTable, fields: seq<Field>)
    requires TableMeaning(before, fields).Some?
    ensures TableIs(before, fields, TableMeaning(before, fields).value)
    decreases |fields|
  {
    var t := TableMeaning(before, fields).value;
    if fields == [] {
      NoStorage(before);
      assert t.(tableType := before.tableType, partitionTyped := before.partitionTyped,
                partitionColumns := before.partitionColumns, parameters := before.parameters) == before;
    } else {
      hide StorageIs, OwnIs, TableField;
      var f, rest := fields[0], fields[1..];
      var mid := TableField(before, f).value;
      TableFieldIs(before, f, mid);
      TableByLastFrom(mid, rest);
      OwnIsThen(before, f, mid, rest, t);
      assert [f] + rest == fields;
      var inner := t.(tableType := mid.tableType, partitionTyped := mid.partitionTyped,
                      partitionColumns := mid.partitionColumns, parameters := mid.parameters);
      StorageAside(mid, Within(rest, 7), inner, before);
      var mid' := mid.(tableType := before.tableType, partitionTyped := before.partitionTyped,
                       partitionColumns := before.partitionColumns, parameters := before.parameters);
      var own := if f.id == 7 && f.value.Struct? then f.value.fields else [];
      NoStorage(before);
      if f.id == 7 && f.value.Struct? {
        StorageAside(before, own, mid, before);
      }
      StorageIsThen(before, own, mid', Within(rest, 7), inner.(tableType := before.tableType,
        partitionTyped := before.partitionTyped, partitionColumns := before.partitionColumns, parameters := before.parameters));
    }
  }

  /** What is read of a well-formed table: location, input format, SerDe library and columns are those of the
      last such fields over all its storage descriptors; partition keys, parameters and table type those of its
      own last fields; the partition columns are the names of the partition keys. */
  lemma TableByLast(fields: seq<Field>, rest: bytes)
    requires AllFields(fields) && ReadTable(EMPTY_TABLE, EncodeFields(fields) + rest).Got?
    ensures var t := ReadTable(EMPTY_TABLE, EncodeFields(fields) + rest).value;
            var sd := Within(fields, 7);
            && t.location == LastStr(sd, 2)
            && t.inputFormat == LastStr(sd, 3)
            && t.serdeLib == (if LastStruct(sd, 7).None? then None else LastStr(LastStruct(sd, 7).value, 2))
            && ColumnsAre(t.columns, LastList(sd, 1).GetOr([]))
            && ColumnsAre(t.partitionTyped, LastList(fields, 8).GetOr([]))
            && PartitionsNamed(t)
            && EntriesAre(t.parameters, LastMap(fields, 9).GetOr([]))
            && t.tableType == LastStr(fields, 12)
  {
    TableReadsBack(EMPTY_TABLE, fields, rest);
    TableByLastFrom(EMPTY_TABLE, fields);
    hide TableMeaning, LastStr, LastList, LastStruct, LastMap, ReadTable;
    NoColumns();
  }

  lemma NoColumns()
    ensures ColumnsAre([], []) && EntriesAre([], []) && PartitionsNamed(EMPTY_TABLE)
  {
  }

  // ---- every stream, well-formed or not

  lemma {:induction false} StorageKeepsPartitions(t: HiveTable, s: bytes)
    ensures var r := ReadStorage(t, s);
            r.Got? ==> r.value.partitionColumns == t.partitionColumns && r.value.partitionTyped == t.partitionTyped
    decreases |s|
  {
    var header := ReadFieldHeader(s);
    if header.Got? && header.value.0 != T_STOP {
      var next := ReadStorageField(t, header.value.0, header.value.1, header.rest);
      if next.Got? {
        StorageKeepsPartitions(next.value, next.rest);
      }
    }
  }

  lemma FieldNamesPartitions(t: HiveTable, ftype: byte, id: i16, s: bytes)
    requires PartitionsNamed(t)
    ensures var r := ReadTableField(t, ftype, id, s); r.Got? ==> PartitionsNamed(r.value)
  {
    hide ReadStorage, ReadSchemas, ReadStringMap, ReadString, Skip;
    StorageKeepsPartitions(t, s);
  }

  lemma {:induction false} StreamNamesPartitions(t: HiveTable, s: bytes)
    requires PartitionsNamed(t)
    ensures ReadTable(t, s).Got? ==> PartitionsNamed(ReadTable(t, s).value)
    decreases |s|
  {
    hide PartitionsNamed, ReadTableField, ReadFieldHeader;
    var header := ReadFieldHeader(s);
    if header.Got? && header.value.0 != T_STOP {
      FieldNamesPartitions(t, header.value.0, header.value.1, header.rest);
      var next := ReadTableField(t, header.value.0, header.value.1, header.rest);
      if next.Got? {
        StreamNamesPartitions(next.value, next.rest);
      }
    }
  }

  /** Whatever the stream holds, the partition columns that are read are the names of the partition keys that
      are read. */
  lemma PartitionsAreNamed(s: bytes)
    ensures var r := ReadTable(EMPTY_TABLE, s);
            r.Got? ==>
              && |r.value.partitionColumns| == |r.value.partitionTyped|
              && forall i :: 0 <= i < |r.value.partitionTyped| ==> r.value.partitionColumns[i] == r.value.partitionTyped[i].0
  {
    StreamNamesPartitions(EMPTY_TABLE, s);
  }

  // ---- what a metastore finds in a written table

  function Find(fields: seq<Field>, id: int): Option<Value> {
    if fields == [] then None else if fields[0].id == id then Some(fields[0].value) else Find(fields[1..], id)
  }

  /** The columns of a list of `FieldSchema`: name under 1, type under 2. */
  predicate Holds(v: Option<Value>, columns: Columns) {
    && v.Some? && v.value.List? && v.value.et == T_STRUCT && |v.value.elems| == |columns|
    && forall i :: 0 <= i < |columns| ==>
         && v.value.elems[i].Struct?
         && Find(v.value.elems[i].fields, 1) == Some(Str(columns[i].0))
         && Find(v.value.elems[i].fields, 2) == Some(Str(columns[i].1))
  }

  predicate HoldsPairs(v: Option<Value>, entries: Columns) {
    && v.Some? && v.value.Map? && v.value.kt == v.value.vt == T_STRING && |v.value.pairs| == |entries|
    && forall i :: 0 <= i < |entries| ==> v.value.pairs[i] == Pair(Str(entries[i].0), Str(entries[i].1))
  }

  lemma {:induction false} WrittenColumns(columns: Columns)
    ensures Holds(Some(List(T_STRUCT, SchemaValues(columns))), columns)
  {
    if columns != [] {
      WrittenColumns(columns[1..]);
      var f := SchemaValue(columns[0]).fields;
      assert f[1..] == [f[1]] && Find(f[1..], 2) == Some(Str(columns[0].1));
    }
  }

  lemma {:induction false} WrittenPairs(entries: Columns)
    ensures HoldsPairs(Some(Map(T_STRING, T_STRING, StringPairs(entries))), entries)
  {
    if entries != [] {
      WrittenPairs(entries[1..]);
    }
  }

  lemma WrittenStorage(t: NewHiveTable)
    ensures var sd := StorageFields(t);
            && Holds(Find(sd, 1), t.columns)
            && Find(sd, 2) == Some(Str(t.location))
            && Find(sd, 3) == Some(Str(t.inputFormat))
            && Find(sd, 4) == Some(Str(t.outputFormat))
            && Find(sd, 7) == Some(Struct(SerdeFields(t)))
            && Find(SerdeFields(t), 2) == Some(Str(t.serdeLib))
            && HoldsPairs(Find(SerdeFields(t), 3), t.serdeParams)
  {
    hide Holds, HoldsPairs;
    WrittenColumns(t.columns);
    WrittenPairs(t.serdeParams);
    var sd, serde := StorageFields(t), SerdeFields(t);
    assert sd[1..][1..] == sd[2..] && sd[2..][1..] == sd[3..] && sd[3..][1..] == sd[4..];
    assert Find(sd, 7) == Find(sd[1..], 7) == Find(sd[2..], 7) == Find(sd[3..], 7) == Find(sd[4..], 7);
    assert Find(sd, 4) == Find(sd[1..], 4) == Find(sd[2..], 4) == Find(sd[3..], 4);
    assert Find(sd, 3) == Find(sd[1..], 3) == Find(sd[2..], 3);
    assert Find(serde, 3) == Find(serde[1..], 3);
  }

  /** Every part of a new table is in the struct that is written, under the id the metastore's definition of
      `Table` gives it, and the table is an external one. */
  lemma WrittenTable(t: NewHiveTable)
    ensures var f := TableFields(t);
            && Find(f, 1) == Some(Str(t.tableName))
            && Find(f, 2) == Some(Str(t.dbName))
            && Find(f, 7) == Some(Struct(StorageFields(t)))
            && Holds(Find(f, 8), t.partitionColumns)
            && HoldsPairs(Find(f, 9), [])
            && Find(f, 12) == Some(Str(External()))
            && |External()| == 14 && forall i :: 0 <= i < 14 ==> External()[i] == "EXTERNAL_TABLE"[i] as int
  {
    WrittenColumns(t.partitionColumns);
    hide Holds, External;
    WrittenPairs([]);
    var f := TableFields(t);
    assert f[1..][1..] == f[2..] && f[2..][1..] == f[3..] && f[3..][1..] == f[4..] && f[4..][1..] == f[5..];
    assert Find(f, 12) == Find(f[1..], 12) == Find(f[2..], 12) == Find(f[3..], 12) == Find(f[4..], 12) == Find(f[5..], 12);
    assert Find(f, 9) == Find(f[1..], 9) == Find(f[2..], 9) == Find(f[3..], 9) == Find(f[4..], 9);
    assert Find(f, 8) == Find(f[1..], 8) == Find(f[2..], 8) == Find(f[3..], 8);
    assert Find(f, 7) == Find(f[1..], 7) == Find(f[2..], 7);
    IsExternal();
  }

  lemma IsExternal()
    ensures |External()| == 14 && forall i :: 0 <= i < 14 ==> External()[i] == "EXTERNAL_TABLE"[i] as int
  {
  }
}
