/** Two consequences of reading by meaning: fields the reader does not know are harmless wherever they
    are, and a table written by `create_table` reads back as itself. */
module ThriftCompat {
  import opened Wrappers
  import opened ThriftWire
  import opened ThriftValues
  import opened ThriftTable
  import opened Utf8

  // ---- the fields each reader matches, by id and type together

  predicate KnownInSchema(f: Field) {
    (f.id == 1 || f.id == 2) && f.value.Str?
  }

  predicate KnownInSerde(f: Field) {
    f.id == 2 && f.value.Str?
  }

  predicate KnownInStorage(f: Field) {
    || (f.id == 1 && f.value.List?)
    || ((f.id == 2 || f.id == 3) && f.value.Str?)
    || (f.id == 7 && f.value.Struct?)
  }

  predicate KnownInTable(f: Field) {
    || (f.id == 7 && f.value.Struct?)
    || (f.id == 8 && f.value.List?)
    || (f.id == 9 && f.value.Map?)
    || (f.id == 12 && f.value.Str?)
  }

  // ---- a `Table` without anything the reader does not match, at any depth

  function Keep(fields: seq<Field>, known: Field -> bool): seq<Field> {
    if fields == [] then []
    else if known(fields[0]) then [fields[0]] + Keep(fields[1..], known)
    else Keep(fields[1..], known)
  }

  function StripSchemas(elems: seq<Value>): seq<Value> {
    if elems == [] then []
    else
      var e := if elems[0].Struct? then Struct(Keep(elems[0].fields, KnownInSchema)) else elems[0];
      [e] + StripSchemas(elems[1..])
  }

  function StripStorageField(f: Field): Field {
    match f.value
    case List(et, elems) => f.(value := List(et, StripSchemas(elems)))
    case Struct(fields) => f.(value := Struct(Keep(fields, KnownInSerde)))
    case _ => f
  }

  function StripStorage(fields: seq<Field>): seq<Field> {
    if fields == [] then []
    else if KnownInStorage(fields[0]) then [StripStorageField(fields[0])] + StripStorage(fields[1..])
    else StripStorage(fields[1..])
  }

  function StripTableField(f: Field): Field {
    match f.value
    case List(et, elems) => f.(value := List(et, StripSchemas(elems)))
    case Struct(fields) => f.(value := Struct(StripStorage(fields)))
    case _ => f
  }

  function StripTable(fields: seq<Field>): seq<Field> {
    if fields == [] then []
    else if KnownInTable(fields[0]) then [StripTableField(fields[0])] + StripTable(fields[1..])
    else StripTable(fields[1..])
  }

  lemma {:induction false} SchemaIgnoresUnknown(c: (text, text), fields: seq<Field>)
    ensures SchemaMeaning(c, Keep(fields, KnownInSchema)) == SchemaMeaning(c, fields)
    decreases |fields|
  {
    if fields != [] {
      match SchemaField(c, fields[0])
      case None =>
      case Some(c') => SchemaIgnoresUnknown(c', fields[1..]);
    }
  }

  lemma {:induction false} ColumnsIgnoreUnknown(elems: seq<Value>)
    ensures ColumnsMeaning(StripSchemas(elems)) == ColumnsMeaning(elems)
  {
    if elems != [] {
      ColumnsIgnoreUnknown(elems[1..]);
      if elems[0].Struct? {
        SchemaIgnoresUnknown(([], []), elems[0].fields);
      }
    }
  }

  lemma {:induction false} SerdeIgnoresUnknown(lib: Option<text>, fields: seq<Field>)
    ensures SerdeMeaning(lib, Keep(fields, KnownInSerde)) == SerdeMeaning(lib, fields)
    decreases |fields|
  {
    if fields != [] {
      match SerdeField(lib, fields[0])
      case None =>
      case Some(lib') => SerdeIgnoresUnknown(lib', fields[1..]);
    }
  }

  lemma StorageFieldIgnoresUnknown(t: HiveTable, f: Field)
    ensures StorageField(t, StripStorageField(f)) == StorageField(t, f)
  {
    if f.value.List? {
      ColumnsIgnoreUnknown(f.value.elems);
    } else if f.value.Struct? {
      SerdeIgnoresUnknown(None, f.value.fields);
    }
  }

  lemma {:induction false} StorageIgnoresUnknown(t: HiveTable, fields: seq<Field>)
    ensures StorageMeaning(t, StripStorage(fields)) == StorageMeaning(t, fields)
    decreases |fields|
  {
    if fields != [] {
      StorageFieldIgnoresUnknown(t, fields[0]);
      match StorageField(t, fields[0])
      case None =>
      case Some(t') => StorageIgnoresUnknown(t', fields[1..]);
    }
  }

  lemma TableFieldIgnoresUnknown(t: HiveTable, f: Field)
    ensures TableField(t, StripTableField(f)) == TableField(t, f)
  {
    if f.value.List? {
      ColumnsIgnoreUnknown(f.value.elems);
    } else if f.value.Struct? {
      StorageIgnoresUnknown(t, f.value.fields);
    }
  }

  lemma {:induction false} TableIgnoresUnknown(t: HiveTable, fields: seq<Field>)
    ensures TableMeaning(t, StripTable(fields)) == TableMeaning(t, fields)
    decreases |fields|
  {
    if fields != [] {
      TableFieldIgnoresUnknown(t, fields[0]);
      match TableField(t, fields[0])
      case None =>
      case Some(t') => TableIgnoresUnknown(t', fields[1..]);
    }
  }

  /** Forward compatibility: two `Table` structs that differ only in fields the readers do not match, at
      any depth, read as the same table, each leaving exactly what follows it. */
  lemma UnknownFieldsAreHarmless(fields: seq<Field>, fields': seq<Field>, rest: bytes, rest': bytes)
    requires AllFields(fields) && AllFields(fields')
    requires StripTable(fields) == StripTable(fields')
    ensures var r, r' := ReadTable(EMPTY_TABLE, EncodeFields(fields) + rest),
                         ReadTable(EMPTY_TABLE, EncodeFields(fields') + rest');
            || (r.Fail? && r'.Fail?)
            || (r.Got? && r'.Got? && r.value == r'.value && r.rest == rest && r'.rest == rest')
  {
    TableReadsBack(EMPTY_TABLE, fields, rest);
    TableReadsBack(EMPTY_TABLE, fields', rest');
    TableIgnoresUnknown(EMPTY_TABLE, fields);
    TableIgnoresUnknown(EMPTY_TABLE, fields');
  }

  // ---- inserting one such field changes nothing that is kept

  lemma {:induction false} StripTableSplit(x: seq<Field>, y: seq<Field>)
    ensures StripTable(x + y) == StripTable(x) + StripTable(y)
  {
    hide KnownInTable, StripTableField;
    if x == [] {
      assert x + y == y;
    } else {
      assert (x + y)[1..] == x[1..] + y;
      StripTableSplit(x[1..], y);
    }
  }

  lemma {:induction false} StripStorageSplit(x: seq<Field>, y: seq<Field>)
    ensures StripStorage(x + y) == StripStorage(x) + StripStorage(y)
  {
    hide KnownInStorage, StripStorageField;
    if x == [] {
      assert x + y == y;
    } else {
      assert (x + y)[1..] == x[1..] + y;
      StripStorageSplit(x[1..], y);
    }
  }

  lemma InsertUnknownInStorage(a: seq<Field>, u: Field, b: seq<Field>)
    requires !KnownInStorage(u)
    ensures StripStorage(a + [u] + b) == StripStorage(a + b)
  {
    StripStorageSplit(a + [u], b);
    StripStorageSplit(a, [u]);
    StripStorageSplit(a, b);
    assert [u][1..] == [];
  }

  lemma InsertUnknownInTable(a: seq<Field>, u: Field, b: seq<Field>)
    requires !KnownInTable(u)
    ensures StripTable(a + [u] + b) == StripTable(a + b)
  {
    StripTableSplit(a + [u], b);
    StripTableSplit(a, [u]);
    StripTableSplit(a, b);
    assert [u][1..] == [];
  }

  ghost predicate ReadsTheSame(fields: seq<Field>, fields': seq<Field>, rest: bytes) {
    var r, r' := ReadTable(EMPTY_TABLE, EncodeFields(fields) + rest), ReadTable(EMPTY_TABLE, EncodeFields(fields') + rest);
    || (r.Fail? && r'.Fail?)
    || (r == r' && r.Got? && r.rest == rest)
  }

  /** A field the table reader does not match can be put in anywhere between its fields. */
  lemma InsertedFieldIsHarmless(a: seq<Field>, u: Field, b: seq<Field>, rest: bytes)
    requires AllFields(a + [u] + b) && AllFields(a + b) && !KnownInTable(u)
    ensures ReadsTheSame(a + [u] + b, a + b, rest)
  {
    InsertUnknownInTable(a, u, b);
    UnknownFieldsAreHarmless(a + [u] + b, a + b, rest, rest);
  }

  /** And one the storage reader does not match, anywhere between the fields of a storage descriptor. */
  lemma InsertedInStorageIsHarmless(x: seq<Field>, a: seq<Field>, u: Field, b: seq<Field>, y: seq<Field>, rest: bytes)
    requires !KnownInStorage(u)
    requires AllFields(x + [Field(7, Struct(a + [u] + b))] + y) && AllFields(x + [Field(7, Struct(a + b))] + y)
    ensures ReadsTheSame(x + [Field(7, Struct(a + [u] + b))] + y, x + [Field(7, Struct(a + b))] + y, rest)
  {
    hide AllFields;
    InsertUnknownInStorage(a, u, b);
    StorageReadsTheSame(x, a + [u] + b, a + b, y, rest);
  }

  /** Storage descriptors that hold the same but for what is not matched can be put for each other. */
  lemma StorageReadsTheSame(x: seq<Field>, p: seq<Field>, q: seq<Field>, y: seq<Field>, rest: bytes)
    requires StripStorage(p) == StripStorage(q)
    requires AllFields(x + [Field(7, Struct(p))] + y) && AllFields(x + [Field(7, Struct(q))] + y)
    ensures ReadsTheSame(x + [Field(7, Struct(p))] + y, x + [Field(7, Struct(q))] + y, rest)
  {
    hide AllFields, StripStorage;
    var f, g := [Field(7, Struct(p))], [Field(7, Struct(q))];
    StripTableSplit(x + f, y);
    StripTableSplit(x, f);
    StripTableSplit(x + g, y);
    StripTableSplit(x, g);
    assert f[1..] == [] && g[1..] == [] && StripTable(f) == StripTable(g);
    UnknownFieldsAreHarmless(x + f + y, x + g + y, rest, rest);
  }

  lemma {:induction false} KeepSplit(a: seq<Field>, b: seq<Field>, known: Field -> bool)
    ensures Keep(a + b, known) == Keep(a, known) + Keep(b, known)
  {
    if a == [] {
      assert a + b == b;
    } else {
      assert (a + b)[1..] == a[1..] + b;
      KeepSplit(a[1..], b, known);
    }
  }

  lemma KeepInserted(a: seq<Field>, u: Field, b: seq<Field>, known: Field -> bool)
    requires !known(u)
    ensures Keep(a + [u] + b, known) == Keep(a + b, known)
  {
    KeepSplit(a + [u], b, known);
    KeepSplit(a, [u], known);
    KeepSplit(a, b, known);
    assert [u][1..] == [];
  }

  lemma StorageFieldSwap(s: seq<Field>, f: Field, g: Field, t: seq<Field>)
    requires KnownInStorage(f) && KnownInStorage(g) && StripStorageField(f) == StripStorageField(g)
    ensures StripStorage(s + [f] + t) == StripStorage(s + [g] + t)
  {
    hide KnownInStorage, StripStorageField;
    StripStorageSplit(s + [f], t);
    StripStorageSplit(s, [f]);
    StripStorageSplit(s + [g], t);
    StripStorageSplit(s, [g]);
    assert [f][1..] == [] && [g][1..] == [];
  }

  /** Likewise in the SerDe info of a storage descriptor. */
  lemma InsertedInSerdeIsHarmless(x: seq<Field>, s: seq<Field>, a: seq<Field>, u: Field, b: seq<Field>, t: seq<Field>,
                                  y: seq<Field>, rest: bytes)
    requires !KnownInSerde(u)
    requires AllFields(x + [Field(7, Struct(s + [Field(7, Struct(a + [u] + b))] + t))] + y)
    requires AllFields(x + [Field(7, Struct(s + [Field(7, Struct(a + b))] + t))] + y)
    ensures ReadsTheSame(x + [Field(7, Struct(s + [Field(7, Struct(a + [u] + b))] + t))] + y,
                         x + [Field(7, Struct(s + [Field(7, Struct(a + b))] + t))] + y, rest)
  {
    hide AllFields, Keep;
    KeepInserted(a, u, b, KnownInSerde);
    var f, g := Field(7, Struct(a + [u] + b)), Field(7, Struct(a + b));
    StorageFieldSwap(s, f, g, t);
    StorageReadsTheSame(x, s + [f] + t, s + [g] + t, y, rest);
  }

  lemma {:induction false} SchemasSplit(a: seq<Value>, b: seq<Value>)
    ensures StripSchemas(a + b) == StripSchemas(a) + StripSchemas(b)
  {
    hide Keep;
    if a == [] {
      assert a + b == b;
    } else {
      assert (a + b)[1..] == a[1..] + b;
      SchemasSplit(a[1..], b);
    }
  }

  lemma SchemaInserted(e: seq<Value>, a: seq<Field>, u: Field, b: seq<Field>, g: seq<Value>)
    requires !KnownInSchema(u)
    ensures StripSchemas(e + [Struct(a + [u] + b)] + g) == StripSchemas(e + [Struct(a + b)] + g)
  {
    hide Keep;
    KeepInserted(a, u, b, KnownInSchema);
    var v, w := Struct(a + [u] + b), Struct(a + b);
    SchemasSplit(e + [v], g);
    SchemasSplit(e, [v]);
    SchemasSplit(e + [w], g);
    SchemasSplit(e, [w]);
    assert [v][1..] == [] && [w][1..] == [] && StripSchemas([v]) == StripSchemas([w]);
  }

  /** Likewise in any column of a storage descriptor. */
  lemma InsertedInColumnIsHarmless(x: seq<Field>, s: seq<Field>, e: seq<Value>, a: seq<Field>, u: Field, b: seq<Field>,
                                   g: seq<Value>, t: seq<Field>, y: seq<Field>, rest: bytes)
    requires !KnownInSchema(u)
    requires AllFields(x + [Field(7, Struct(s + [Field(1, List(T_STRUCT, e + [Struct(a + [u] + b)] + g))] + t))] + y)
    requires AllFields(x + [Field(7, Struct(s + [Field(1, List(T_STRUCT, e + [Struct(a + b)] + g))] + t))] + y)
    ensures ReadsTheSame(x + [Field(7, Struct(s + [Field(1, List(T_STRUCT, e + [Struct(a + [u] + b)] + g))] + t))] + y,
                         x + [Field(7, Struct(s + [Field(1, List(T_STRUCT, e + [Struct(a + b)] + g))] + t))] + y, rest)
  {
    hide AllFields, StripSchemas;
    SchemaInserted(e, a, u, b, g);
    var f := Field(1, List(T_STRUCT, e + [Struct(a + [u] + b)] + g));
    var f' := Field(1, List(T_STRUCT, e + [Struct(a + b)] + g));
    StorageFieldSwap(s, f, f', t);
    StorageReadsTheSame(x, s + [f] + t, s + [f'] + t, y, rest);
  }

  /** And in any partition key. */
  lemma InsertedInKeyIsHarmless(x: seq<Field>, e: seq<Value>, a: seq<Field>, u: Field, b: seq<Field>, g: seq<Value>,
                                y: seq<Field>, rest: bytes)
    requires !KnownInSchema(u)
    requires AllFields(x + [Field(8, List(T_STRUCT, e + [Struct(a + [u] + b)] + g))] + y)
    requires AllFields(x + [Field(8, List(T_STRUCT, e + [Struct(a + b)] + g))] + y)
    ensures ReadsTheSame(x + [Field(8, List(T_STRUCT, e + [Struct(a + [u] + b)] + g))] + y,
                         x + [Field(8, List(T_STRUCT, e + [Struct(a + b)] + g))] + y, rest)
  {
    hide AllFields, StripSchemas;
    SchemaInserted(e, a, u, b, g);
    var f := [Field(8, List(T_STRUCT, e + [Struct(a + [u] + b)] + g))];
    var f' := [Field(8, List(T_STRUCT, e + [Struct(a + b)] + g))];
    StripTableSplit(x + f, y);
    StripTableSplit(x, f);
    StripTableSplit(x + f', y);
    StripTableSplit(x, f');
    assert f[1..] == [] && f'[1..] == [] && StripTable(f) == StripTable(f');
    UnknownFieldsAreHarmless(x + f + y, x + f' + y, rest, rest);
  }

  // ---- the table `create_table` declares

  datatype NewHiveTable = NewHiveTable(
    dbName: text,
    tableName: text,
    location: text,
    inputFormat: text,
    outputFormat: text,
    serdeLib: text,
    serdeParams: Columns,
    columns: Columns,
    partitionColumns: Columns)

  /** The table type of every table Oxidant declares: it never owns the data. */
  function External(): (b: text)
    ensures |b| < I32_LIMIT
  {
    Ascii("EXTERNAL_TABLE")
  }

  function SchemaValue(c: (text, text)): Value {
    Struct([Field(1, Str(c.0)), Field(2, Str(c.1))])
  }

  function SchemaValues(columns: Columns): (vs: seq<Value>)
    ensures |vs| == |columns|
  {
    if columns == [] then [] else [SchemaValue(columns[0])] + SchemaValues(columns[1..])
  }

  function StringPairs(columns: Columns): (ps: seq<Pair>)
    ensures |ps| == |columns|
  {
    if columns == [] then [] else [Pair(Str(columns[0].0), Str(columns[0].1))] + StringPairs(columns[1..])
  }

  function SerdeFields(t: NewHiveTable): seq<Field> {
    [Field(2, Str(t.serdeLib)), Field(3, Map(T_STRING, T_STRING, StringPairs(t.serdeParams)))]
  }

  function StorageFields(t: NewHiveTable): seq<Field> {
    [Field(1, List(T_STRUCT, SchemaValues(t.columns))),
     Field(2, Str(t.location)),
     Field(3, Str(t.inputFormat)),
     Field(4, Str(t.outputFormat)),
     Field(7, Struct(SerdeFields(t)))]
  }

  /** The `Table` struct of a new table. */
  function TableFields(t: NewHiveTable): seq<Field> {
    TableFieldsAs(t, External())
  }

  function TableFieldsAs(t: NewHiveTable, tableType: text): seq<Field> {
    [Field(1, Str(t.tableName)),
     Field(2, Str(t.dbName)),
     Field(7, Struct(StorageFields(t))),
     Field(8, List(T_STRUCT, SchemaValues(t.partitionColumns))),
     Field(9, Map(T_STRING, T_STRING, [])),
     Field(12, Str(tableType))]
  }

  predicate ColumnsFit(columns: Columns) {
    && |columns| < I32_LIMIT
    && forall c <- columns :: |c.0| < I32_LIMIT && |c.1| < I32_LIMIT
  }

  /** Every length and count fits an `i32`. */
  predicate Fits(t: NewHiveTable) {
    && |t.dbName| < I32_LIMIT && |t.tableName| < I32_LIMIT && |t.location| < I32_LIMIT
    && |t.inputFormat| < I32_LIMIT && |t.outputFormat| < I32_LIMIT && |t.serdeLib| < I32_LIMIT
    && ColumnsFit(t.serdeParams) && ColumnsFit(t.columns) && ColumnsFit(t.partitionColumns)
  }

  lemma SchemaOfNew(c: (text, text))
    ensures SchemaMeaning(([], []), SchemaValue(c).fields) == Some(c)
  {
    var f := SchemaValue(c).fields;
    assert f[1..] == [f[1]] && f[1..][1..] == [];
    assert SchemaField(([], []), f[0]) == Some((c.0, []));
    assert SchemaField((c.0, []), f[1]) == Some(c);
    assert SchemaMeaning((c.0, []), f[1..]) == SchemaMeaning(c, []);
  }

  lemma SchemaWellFormed(c: (text, text))
    requires |c.0| < I32_LIMIT && |c.1| < I32_LIMIT
    ensures WellFormed(SchemaValue(c)) && PairOk(T_STRING, T_STRING, Pair(Str(c.0), Str(c.1)))
  {
    assert AllFields(SchemaValue(c).fields);
  }

  lemma {:induction false} SchemasWellFormed(columns: Columns)
    requires forall c <- columns :: |c.0| < I32_LIMIT && |c.1| < I32_LIMIT
    ensures AllElems(T_STRUCT, SchemaValues(columns))
    ensures AllPairs(T_STRING, T_STRING, StringPairs(columns))
  {
    if columns != [] {
      SchemasWellFormed(columns[1..]);
      assert columns[0] in columns;
      SchemaWellFormed(columns[0]);
    }
  }

  lemma {:induction false} ColumnsOfNew(columns: Columns)
    ensures ColumnsMeaning(SchemaValues(columns)) == Some(columns)
  {
    if columns != [] {
      ColumnsOfNew(columns[1..]);
      SchemaOfNew(columns[0]);
      assert SchemaValues(columns)[1..] == SchemaValues(columns[1..]);
      assert columns == [columns[0]] + columns[1..];
    }
  }

  lemma SerdeWellFormed(t: NewHiveTable)
    requires Fits(t)
    ensures AllFields(SerdeFields(t))
  {
    SchemasWellFormed(t.serdeParams);
  }

  lemma StorageWellFormed(t: NewHiveTable)
    requires Fits(t)
    ensures AllFields(StorageFields(t))
  {
    SchemasWellFormed(t.columns);
    SerdeWellFormed(t);
  }

  lemma TableFieldsWellFormed(t: NewHiveTable, tableType: text)
    requires Fits(t) && |tableType| < I32_LIMIT
    ensures AllFields(TableFieldsAs(t, tableType))
  {
    SchemasWellFormed(t.partitionColumns);
    StorageWellFormed(t);
  }

  lemma SerdeOfNew(t: NewHiveTable)
    ensures SerdeMeaning(None, SerdeFields(t)) == Some(Some(t.serdeLib))
  {
    var f := SerdeFields(t);
    assert f[1..] == [f[1]] && f[1..][1..] == [];
    assert SerdeField(None, f[0]) == Some(Some(t.serdeLib));
    assert SerdeMeaning(Some(t.serdeLib), f[1..]) == SerdeMeaning(Some(t.serdeLib), []);
  }

  lemma StorageOfNew(t: NewHiveTable, h: HiveTable)
    ensures StorageMeaning(h, StorageFields(t)) == Some(h.(columns := t.columns, location := Some(t.location),
              inputFormat := Some(t.inputFormat), serdeLib := Some(t.serdeLib)))
  {
    ColumnsOfNew(t.columns);
    SerdeOfNew(t);
    var f := StorageFields(t);
    var h1 := h.(columns := t.columns);
    var h2 := h1.(location := Some(t.location));
    var h3 := h2.(inputFormat := Some(t.inputFormat));
    var h4 := h3.(serdeLib := Some(t.serdeLib));
    assert StorageField(h, f[0]) == Some(h1) && StorageField(h1, f[1]) == Some(h2);
    assert StorageField(h2, f[2]) == Some(h3) && StorageField(h3, f[3]) == Some(h3);
    assert StorageField(h3, f[4]) == Some(h4);
    assert f[4..][1..] == [] && StorageMeaning(h3, f[4..]) == StorageMeaning(h4, []);
    assert f[3..][1..] == f[4..] && StorageMeaning(h3, f[3..]) == StorageMeaning(h3, f[4..]);
    assert f[2..][1..] == f[3..] && StorageMeaning(h2, f[2..]) == StorageMeaning(h3, f[3..]);
    assert f[1..][1..] == f[2..] && StorageMeaning(h1, f[1..]) == StorageMeaning(h2, f[2..]);
  }

  /** What reading a new table back gives. */
  function AsRead(t: NewHiveTable, tableType: text): HiveTable {
    HiveTable(Some(t.location), Some(t.inputFormat), Some(t.serdeLib), Some(tableType), [],
              t.columns, t.partitionColumns, Names(t.partitionColumns))
  }

  /** What each field of the written table does to the table being read. */
  lemma FieldsOfNew(t: NewHiveTable, tableType: text)
    ensures var f := TableFieldsAs(t, tableType);
            var s := StorageMeaning(EMPTY_TABLE, StorageFields(t));
            && s.Some?
            && var h := WithPartitions(s.value, t.partitionColumns);
               && |f| == 6
               && TableField(EMPTY_TABLE, f[0]) == Some(EMPTY_TABLE) && TableField(EMPTY_TABLE, f[1]) == Some(EMPTY_TABLE)
               && TableField(EMPTY_TABLE, f[2]) == s && TableField(s.value, f[3]) == Some(h)
               && TableField(h, f[4]) == Some(h) && TableField(h, f[5]) == Some(AsRead(t, tableType))
  {
    ColumnsOfNew(t.partitionColumns);
    StorageOfNew(t, EMPTY_TABLE);
  }

  lemma MeaningOfNew(t: NewHiveTable, tableType: text)
    ensures TableMeaning(EMPTY_TABLE, TableFieldsAs(t, tableType)) == Some(AsRead(t, tableType))
  {
    FieldsOfNew(t, tableType);
    hide TableField, TableFieldsAs, StorageMeaning, StorageFields, WithPartitions, AsRead;
    var h0, f := EMPTY_TABLE, TableFieldsAs(t, tableType);
    var h1 := StorageMeaning(h0, StorageFields(t)).value;
    var h2 := WithPartitions(h1, t.partitionColumns);
    assert f[5..][1..] == [] && TableMeaning(h2, f[5..]) == TableMeaning(AsRead(t, tableType), []);
    assert f[4..][1..] == f[5..] && TableMeaning(h2, f[4..]) == TableMeaning(h2, f[5..]);
    assert f[3..][1..] == f[4..] && TableMeaning(h1, f[3..]) == TableMeaning(h2, f[4..]);
    assert f[2..][1..] == f[3..] && TableMeaning(h0, f[2..]) == TableMeaning(h1, f[3..]);
    assert f[1..][1..] == f[2..] && TableMeaning(h0, f[1..]) == TableMeaning(h0, f[2..]);
  }

  /** Round trip: the encoded new table, followed by anything, reads back as the same location, formats,
      columns, partition keys and table type, and leaves exactly what follows. */
  lemma NewTableRoundTrip(t: NewHiveTable, rest: bytes)
    requires Fits(t)
    ensures ReadTable(EMPTY_TABLE, EncodeFields(TableFields(t)) + rest) == Got(AsRead(t, External()), rest)
    ensures var names := AsRead(t, External()).partitionColumns;
            && |names| == |t.partitionColumns|
            && forall i :: 0 <= i < |names| ==> names[i] == t.partitionColumns[i].0
  {
    TableFieldsWellFormed(t, External());
    TableReadsBack(EMPTY_TABLE, TableFields(t), rest);
    MeaningOfNew(t, External());
  }
}
