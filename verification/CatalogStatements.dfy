/** What each statement does to the manifest and to the loads after it, in terms of its own words. */
module CatalogStatements {
  import opened AlterTables
  import opened CatalogRefinement
  import opened Catalogs
  import opened HiveTypes
  import opened Manifests
  import opened Strings
  import opened TableFormats
  import opened Wrappers

  // ---- what stays

  /** Nothing changed but, perhaps, what is under one key. */
  ghost predicate OnlyKey(m: Manifest, m': Manifest, key: string) {
    && m'.version == m.version
    && forall k: string :: k != key ==> Under(m', k) == Under(m, k)
  }

  function Under(m: Manifest, key: string): Option<TableEntry> {
    if key in m.tables then Some(m.tables[key]) else None
  }

  function Described(m: Manifest, database: string): Option<DatabaseEntry> {
    if database in m.databases then Some(m.databases[database]) else None
  }

  /** Nothing changed of any database but, perhaps, one. */
  ghost predicate OnlyDatabase(m: Manifest, m': Manifest, database: string) {
    && m'.version == m.version
    && forall d: string :: d != database ==> Described(m', d) == Described(m, d)
  }

  // ---- databases

  ghost predicate HasTables(m: Manifest, database: string) {
    exists t: string :: Entry(m, database, t).Some?
  }

  lemma HasTablesIs(m: Manifest, database: string)
    ensures HasTables(m, database) <==> KeysUnder(m, Prefix(database)) != {}
  {
    if t: string :| Entry(m, database, t).Some? {
      KeyTail(database, t);
      assert TableKey(database, t) in KeysUnder(m, Prefix(database));
    }
    if k :| k in KeysUnder(m, Prefix(database)) {
      var t := k[|Prefix(database)|..];
      assert k == TableKey(database, t);
      assert Entry(m, database, t).Some?;
    }
  }

  /** The database and all of its tables are gone, and nothing else. */
  ghost predicate Gone(m: Manifest, m': Manifest, database: string) {
    && OnlyDatabase(m, m', database) && Described(m', database).None?
    && (forall t: string :: Entry(m', database, t).None?)
    && forall k: string :: !(Prefix(database) <= k) ==> Under(m', k) == Under(m, k)
  }

  /** DROP DATABASE: one that has tables needs CASCADE, one that is not there IF EXISTS. */
  lemma DropDatabaseDoes(cat: LocalCatalog, m: Manifest, database: string, ifExists: bool, cascade: bool)
    ensures var r := Execute(cat, m, DropDatabase(database, ifExists, cascade));
            if HasTables(m, database) && !cascade then r == Err(Plan)
            else if !HasTables(m, database) && database !in m.databases then r == if ifExists then Ok(m) else Err(Plan)
            else r.Ok? && Gone(m, r.value, database)
  {
    HasTablesIs(m, database);
    var op := RemoveDatabase(database, ifExists, cascade);
    if Mutate(op, m).Ok? {
      DropEmpties(m, database, ifExists, cascade);
    }
  }

  /** CREATE DATABASE: without a location the name must be an identifier; one that is there needs IF NOT EXISTS.
      The database then has the comment given, and the location given or that of its name in the warehouse. */
  lemma CreateDatabaseDoes(cat: LocalCatalog, m: Manifest, database: string, ifNotExists: bool, comment: Option<string>,
                           at: Option<string>)
    ensures var r := Execute(cat, m, CreateDatabase(database, ifNotExists, comment, at));
            if (at.None? && !IsIdentifier(database)) || (database in m.databases && !ifNotExists) then r == Err(Plan)
            else
              var location := if at.Some? then at.value else TrimSlashes(cat.warehouse) + "/" + database + ".db/";
              && r.Ok? && OnlyDatabase(m, r.value, database) && r.value.tables == m.tables
              && Described(r.value, database) == Some(DatabaseEntry(comment, Some(location)))
  {
    hide IsIdentifier, TrimSlashes;
  }

  /** Identifiers, by code point: digits, upper-case letters, the underscore, lower-case letters. */
  lemma IdentifiersExactly(s: string)
    ensures IsIdentifier(s) <==>
            && |s| > 0
            && forall i :: 0 <= i < |s| ==>
                 var c := s[i] as int;
                 48 <= c <= 57 || 65 <= c <= 90 || c == 95 || 97 <= c <= 122
  {
    assert forall i :: 0 <= i < |s| ==> s[i] in s;
  }

  // ---- tables

  /** DROP TABLE: refused for a declared table, and for one that is not there unless IF EXISTS is said. */
  lemma DropTableDoes(cat: LocalCatalog, m: Manifest, namespace: seq<string>, table: string, ifExists: bool)
    ensures var r := Execute(cat, m, DropTable(namespace, table, ifExists));
            if |namespace| != 1 || namespace[0] == "" || (namespace[0], table) in cat.declared then r == Err(Plan)
            else if Entry(m, namespace[0], table).None? && !ifExists then r == Err(Plan)
            else
              && r.Ok? && r.value.databases == m.databases && OnlyKey(m, r.value, TableKey(namespace[0], table))
              && Entry(r.value, namespace[0], table).None?
  {
  }

  predicate Refuses(cat: LocalCatalog, namespace: seq<string>, table: string) {
    |namespace| != 1 || namespace[0] == "" || (namespace[0], table) in cat.declared
  }

  /** CREATE TABLE: a type without a Hive name is not supported; a database that is not there is added with neither
      comment nor location, one that is there stays as it is, and so does every other table. */
  lemma CreateTableDoes(cat: LocalCatalog, m: Manifest, st: Statement)
    requires st.CreateTable?
    ensures var r := Execute(cat, m, st);
            if Refuses(cat, st.namespace, st.table) then r == Err(Plan)
            else
              var db := st.namespace[0];
              if st.at.None? && !(IsIdentifier(db) && IsIdentifier(st.table)) then r == Err(Plan)
              else if exists f <- st.schema :: ArrowToHive(f.dataType).None? then r == Err(Unsupported)
              else
                && r.Ok? && OnlyKey(m, r.value, TableKey(db, st.table)) && OnlyDatabase(m, r.value, db)
                && Described(r.value, db) == (if db in m.databases then Described(m, db) else Some(DatabaseEntry(None, None)))
                && Entry(r.value, db, st.table).Some?
  {
    hide ArrowToHive, IsIdentifier, TrimSlashes, WithSlash;
    assert Mappable(st.schema) <==> !exists f <- st.schema :: ArrowToHive(f.dataType).None?;
  }

  /** What a load shows of a managed table: each part of its entry as it is, the names of its partition columns, and
      Parquet when the stored format is not known. */
  lemma LoadShows(cat: LocalCatalog, m: Manifest, database: string, table: string)
    requires database != "" && (database, table) !in cat.declared
    ensures match Entry(m, database, table)
            case None => LoadTable(cat, m, [database], table) == Err(Plan)
            case Some(e) =>
              var r := LoadTable(cat, m, [database], table);
              && r.Ok? && r.value.name == cat.name + "." + database + "." + table
              && r.value.location == e.location && r.value.storageOptions == e.storageOptions
              && r.value.comment == e.comment && r.value.properties == e.properties
              && r.value.columnComments == e.columnComments
              && r.value.format == (if FromProvider(e.format).Some? then FromProvider(e.format).value else Parquet)
              && |r.value.partitionColumns| == |e.partitionColumns|
              && forall i :: 0 <= i < |e.partitionColumns| ==> r.value.partitionColumns[i] == e.partitionColumns[i].0
  {
    hide FromProvider, ColumnsToSchema;
  }

  // ---- ALTER TABLE

  /** Why the entry does not admit a change: a type without a Hive name, or a comment for a column it has not. */
  function Objection(e: TableEntry, c: TableChange): Option<Error> {
    match c
    case AddColumns(fields) =>
      if exists f <- fields :: ArrowToHive(f.dataType).None? then Some(Unsupported) else None
    case SetColumnComment(column, _) =>
      if exists col <- e.columns + e.partitionColumns :: col.0 == column then None else Some(Plan)
    case _ => None
  }

  lemma ObjectionIsCheck(e: TableEntry, c: TableChange)
    ensures Check(e, c) == Objection(e, c)
  {
    hide ArrowToHive;
    if c.AddColumns? {
      assert Mappable(c.fields) <==> !exists f <- c.fields :: ArrowToHive(f.dataType).None?;
    } else if c.SetColumnComment? {
      assert forall col :: col in e.columns + e.partitionColumns <==> col in e.columns || col in e.partitionColumns;
    }
  }

  lemma {:induction false} FirstRefusalIs(e: TableEntry, changes: seq<TableChange>, i: nat)
    requires i < |changes| && Check(e, changes[i]).Some? && forall j :: 0 <= j < i ==> Check(e, changes[j]).None?
    ensures FirstRefusal(e, changes) == Check(e, changes[i])
    decreases i
  {
    hide Check;
    if i > 0 {
      FirstRefusalIs(e, changes[1..], i - 1);
    }
  }

  /** The first change the entry does not admit decides the error. */
  lemma AlterRefuses(e: TableEntry, changes: seq<TableChange>, i: nat)
    requires i < |changes| && Objection(e, changes[i]).Some? && forall j :: 0 <= j < i ==> Objection(e, changes[j]).None?
    ensures AlterEntry(e, changes) == Err(Objection(e, changes[i]).value)
  {
    hide Check, Objection;
    forall j | 0 <= j <= i
      ensures Check(e, changes[j]) == Objection(e, changes[j])
    {
      ObjectionIsCheck(e, changes[j]);
    }
    FirstRefusalIs(e, changes, i);
    assert changes[i] in changes;
  }

  /** The fields the list adds, in order. */
  function Added(changes: seq<TableChange>): Schema {
    if changes == [] then []
    else AddedBy(changes[0]) + Added(changes[1..])
  }

  /** How a change shows in a load, the schema aside. */
  function Shown(md: TableMetadata, c: TableChange): TableMetadata {
    match c
    case SetProperties(props) => md.(properties := md.properties + props)
    case UnsetProperties(keys) => md.(properties := map k | k in md.properties && k !in keys :: md.properties[k])
    case SetComment(text) => md.(comment := text)
    case SetLocation(location) => md.(location := location)
    case AddColumns(_) => md
    case SetColumnComment(column, text) =>
      if text.Some? && text.value != "" then md.(columnComments := md.columnComments[column := text.value])
      else md.(columnComments := map k | k in md.columnComments && k != column :: md.columnComments[k])
  }

  function ShownAll(md: TableMetadata, changes: seq<TableChange>): TableMetadata
    decreases |changes|
  {
    if changes == [] then md else ShownAll(Shown(md, changes[0]), changes[1..])
  }

  lemma ChangeShows(cat: LocalCatalog, db: string, table: string, e: TableEntry, c: TableChange)
    requires c.AddColumns? ==> Mappable(c.fields)
    ensures ManagedMetadata(cat, db, table, Change(e, c)).(schema := None) ==
            Shown(ManagedMetadata(cat, db, table, e), c).(schema := None)
  {
    hide ColumnsToSchema, FromProvider, Mappable;
    if c.UnsetProperties? {
      assert (map k | k in e.properties && k !in c.keys :: e.properties[k]) == e.properties - (set k | k in c.keys);
    } else if c.SetColumnComment? {
      assert (map k | k in e.columnComments && k != c.column :: e.columnComments[k]) == e.columnComments - {c.column};
    }
  }

  lemma ShownAside(md: TableMetadata, other: TableMetadata, c: TableChange)
    requires md.(schema := None) == other.(schema := None)
    ensures Shown(md, c).(schema := None) == Shown(other, c).(schema := None)
  {
  }

  lemma {:induction false} ShownAllAside(md: TableMetadata, other: TableMetadata, changes: seq<TableChange>)
    requires md.(schema := None) == other.(schema := None)
    ensures ShownAll(md, changes).(schema := None) == ShownAll(other, changes).(schema := None)
    decreases |changes|
  {
    if changes != [] {
      hide Shown;
      ShownAside(md, other, changes[0]);
      ShownAllAside(Shown(md, changes[0]), Shown(other, changes[0]), changes[1..]);
    }
  }

  lemma {:induction false} ChangesShow(cat: LocalCatalog, db: string, table: string, e: TableEntry, changes: seq<TableChange>)
    requires AllMappable(changes)
    ensures ManagedMetadata(cat, db, table, ChangeAll(e, changes)).(schema := None) ==
            ShownAll(ManagedMetadata(cat, db, table, e), changes).(schema := None)
    decreases |changes|
  {
    if changes != [] {
      hide Shown, Change, ManagedMetadata, Mappable;
      assert changes[0] in changes;
      var e' := Change(e, changes[0]);
      ChangeShows(cat, db, table, e, changes[0]);
      ChangesShow(cat, db, table, e', changes[1..]);
      ShownAllAside(ManagedMetadata(cat, db, table, e'), Shown(ManagedMetadata(cat, db, table, e), changes[0]), changes[1..]);
    }
  }

  function AddedBy(c: TableChange): Schema {
    if c.AddColumns? then c.fields else []
  }

  lemma ChangeKeeps(e: TableEntry, c: TableChange)
    requires c.AddColumns? ==> Mappable(c.fields)
    ensures Mappable(AddedBy(c))
    ensures var e' := Change(e, c);
            && e'.columns == e.columns + ToColumns(AddedBy(c))
            && e'.partitionColumns == e.partitionColumns && e'.format == e.format && e'.storageOptions == e.storageOptions
  {
    hide ArrowToHive;
    if !c.AddColumns? {
      assert e.columns + ToColumns([]) == e.columns;
    }
  }

  /** A list adds its fields after the data columns; the stored format, the storage options and the partition columns
      are never touched. */
  lemma {:induction false} ChangesKeep(e: TableEntry, changes: seq<TableChange>)
    requires AllMappable(changes)
    ensures Mappable(Added(changes))
    ensures var e' := ChangeAll(e, changes);
            && e'.columns == e.columns + ToColumns(Added(changes))
            && e'.partitionColumns == e.partitionColumns && e'.format == e.format && e'.storageOptions == e.storageOptions
    decreases |changes|
  {
    hide ArrowToHive, Change, ToColumns;
    if changes == [] {
      NothingAdded(e.columns);
    } else {
      assert changes[0] in changes;
      var fields, more := AddedBy(changes[0]), Added(changes[1..]);
      ChangeKeeps(e, changes[0]);
      ChangesKeep(Change(e, changes[0]), changes[1..]);
      ToColumnsConcat(fields, more);
      assert e.columns + ToColumns(fields) + ToColumns(more) == e.columns + (ToColumns(fields) + ToColumns(more));
    }
  }

  lemma NothingAdded(columns: HiveColumns)
    ensures columns + ToColumns([]) == columns
  {
  }

  lemma AlterKeeps(e: TableEntry, changes: seq<TableChange>)
    requires AlterEntry(e, changes).Ok?
    ensures var e' := AlterEntry(e, changes).value;
            e'.partitionColumns == e.partitionColumns && e'.format == e.format && e'.storageOptions == e.storageOptions
  {
    NoRefusal(e, changes);
    ChangesKeep(e, changes);
  }

  /** The fields of the columns, one by one; none of them when one has no known type. */
  function Parsed(columns: HiveColumns): Option<Schema> {
    if columns == [] then Some([])
    else
      var front, last := Parsed(columns[..|columns| - 1]), columns[|columns| - 1];
      match (front, HiveToArrow(last.1))
      case (Some(fields), Some(dt)) => Some(fields + [Field(last.0, dt, true)])
      case _ => None
  }

  lemma {:induction false} ParsedExactly(columns: HiveColumns)
    ensures Parsed(columns).Some? <==> forall c <- columns :: HiveToArrow(c.1).Some?
    ensures Parsed(columns).Some? ==>
              && |Parsed(columns).value| == |columns|
              && forall i :: 0 <= i < |columns| ==>
                   && HiveToArrow(columns[i].1).Some?
                   && Parsed(columns).value[i] == Field(columns[i].0, HiveToArrow(columns[i].1).value, true)
    decreases |columns|
  {
    hide HiveToArrow;
    if columns != [] {
      var front, last := columns[..|columns| - 1], columns[|columns| - 1];
      assert columns == front + [last];
      ParsedExactly(front);
      assert forall c <- columns :: c in front || c == last;
    }
  }

  /** A schema is what its columns parse as, if there are any. */
  lemma SchemaIsParsed(columns: HiveColumns)
    ensures ColumnsToSchema(columns) == if columns == [] then None else Parsed(columns)
  {
    hide HiveToArrow, Parsed;
    ParsedExactly(columns);
    if columns != [] && Parsed(columns).Some? {
      assert ColumnsToSchema(columns).value == Parsed(columns).value;
    }
  }

  lemma {:induction false} ParsedConcat(a: HiveColumns, b: HiveColumns)
    ensures Parsed(a + b) ==
            if Parsed(a).Some? && Parsed(b).Some? then Some(Parsed(a).value + Parsed(b).value) else None
    decreases |b|
  {
    hide HiveToArrow;
    if b == [] {
      assert a + b == a;
      assert Parsed(a).Some? ==> Parsed(a).value + [] == Parsed(a).value;
    } else {
      assert (a + b)[..|a + b| - 1] == a + b[..|b| - 1];
      ParsedConcat(a, b[..|b| - 1]);
      var front, last := Parsed(b[..|b| - 1]), HiveToArrow(b[|b| - 1].1);
      assert (a + b)[|a + b| - 1] == b[|b| - 1];
      if Parsed(a).Some? && front.Some? && last.Some? {
        var f := Field(b[|b| - 1].0, last.value, true);
        assert Parsed(a).value + front.value + [f] == Parsed(a).value + (front.value + [f]);
      }
    }
  }

  lemma ParsedAdded(fields: Schema)
    requires Mappable(fields)
    ensures Parsed(ToColumns(fields)) == if AllRecoverable(fields) then Some(Recovered(fields)) else None
  {
    hide ArrowToHive, HiveToArrow, Normal, Recoverable, ColumnsToSchema, Parsed;
    ColumnsReadBack(fields);
    SchemaIsParsed(ToColumns(fields));
    if fields == [] {
      assert ToColumns(fields) == [];
      NothingParsed();
    }
  }

  lemma NothingParsed()
    ensures Parsed([]) == Some([])
  {
  }

  /** Added fields come between the data and the partition fields of the schema. */
  lemma SchemaWithAdded(data: HiveColumns, fields: Schema, parts: HiveColumns)
    requires Mappable(fields) && ColumnsToSchema(data + parts).Some?
    ensures var s := ColumnsToSchema(data + parts).value;
            && |s| == |data| + |parts|
            && ColumnsToSchema(data + ToColumns(fields) + parts) ==
               if AllRecoverable(fields) then Some(s[..|data|] + Recovered(fields) + s[|data|..]) else None
  {
    hide HiveToArrow, ArrowToHive, Normal, ColumnsToSchema, AllRecoverable, Parsed, Mappable, ToColumns;
    var added := ToColumns(fields);
    SchemaIsParsed(data + parts);
    SchemaIsParsed(data + added + parts);
    ParsedConcat(data, parts);
    ParsedConcat(data + added, parts);
    ParsedConcat(data, added);
    ParsedAdded(fields);
    ParsedExactly(data);
    ParsedExactly(parts);
    var a, b := Parsed(data).value, Parsed(parts).value;
    assert (a + b)[..|data|] == a && (a + b)[|data|..] == b;
  }

  /** ALTER TABLE: refused for a declared table and for one that is not there, and with the error of the first change
      that is not admitted. Otherwise it answers as the next load does, and that differs from the load before it by
      each change in turn: properties set and unset, comment, location and column comments; nothing else but the
      schema, where the added fields come after the data fields, and where there is none when a type does not come
      back. */
  lemma AlterTableDoes(cat: LocalCatalog, m: Manifest, namespace: seq<string>, table: string, changes: seq<TableChange>)
    ensures var r := Execute(cat, m, AlterTable(namespace, table, changes));
            if Refuses(cat, namespace, table) || Entry(m, namespace[0], table).None? then r == Err(Plan)
            else
              var altered := AlterEntry(Entry(m, namespace[0], table).value, changes);
              if altered.Err? then r == Err(altered.error)
              else
                && r.Ok? && r.value.databases == m.databases && OnlyKey(m, r.value, TableKey(namespace[0], table))
                && LoadTable(cat, m, namespace, table).Ok? && LoadTable(cat, r.value, namespace, table).Ok?
                && Alters(LoadTable(cat, m, namespace, table).value, changes, LoadTable(cat, r.value, namespace, table).value)
  {
    var r := Execute(cat, m, AlterTable(namespace, table, changes));
    if !Refuses(cat, namespace, table) && Entry(m, namespace[0], table).Some? {
      var e := Entry(m, namespace[0], table).value;
      if AlterEntry(e, changes).Ok? {
        AlterShows(cat, namespace[0], table, e, changes);
        hide AlterEntry, ManagedMetadata, Alters;
      }
    }
  }

  ghost predicate Alters(before: TableMetadata, changes: seq<TableChange>, after: TableMetadata) {
    && after.(schema := None) == ShownAll(before, changes).(schema := None)
    && (Added(changes) == [] ==> after.schema == before.schema)
    && (before.schema.Some? ==>
          && |before.partitionColumns| <= |before.schema.value|
          && var s, n := before.schema.value, |before.schema.value| - |before.partitionColumns|;
             after.schema == if AllRecoverable(Added(changes)) then Some(s[..n] + Recovered(Added(changes)) + s[n..]) else None)
  }

  lemma AlterShows(cat: LocalCatalog, db: string, table: string, e: TableEntry, changes: seq<TableChange>)
    requires AlterEntry(e, changes).Ok?
    ensures Alters(ManagedMetadata(cat, db, table, e), changes, ManagedMetadata(cat, db, table, AlterEntry(e, changes).value))
  {
    NoRefusal(e, changes);
    ChangesShow(cat, db, table, e, changes);
    ChangesKeep(e, changes);
    AddedShows(cat, db, table, e, Added(changes), ChangeAll(e, changes));
    hide ManagedMetadata, Change, Check, ShownAll, Added, AllRecoverable;
  }

  lemma AddedShows(cat: LocalCatalog, db: string, table: string, e: TableEntry, fields: Schema, e': TableEntry)
    requires Mappable(fields) && e'.columns == e.columns + ToColumns(fields) && e'.partitionColumns == e.partitionColumns
    ensures var before, after := ManagedMetadata(cat, db, table, e), ManagedMetadata(cat, db, table, e');
            && (fields == [] ==> after.schema == before.schema)
            && (before.schema.Some? ==>
                  && |before.partitionColumns| <= |before.schema.value|
                  && var s, n := before.schema.value, |before.schema.value| - |before.partitionColumns|;
                     after.schema == if AllRecoverable(fields) then Some(s[..n] + Recovered(fields) + s[n..]) else None)
  {
    hide ColumnsToSchema, FromProvider, AllRecoverable, Mappable, ToColumns;
    if ColumnsToSchema(e.columns + e.partitionColumns).Some? {
      SchemaWithAdded(e.columns, fields, e.partitionColumns);
    }
    if fields == [] {
      NothingAdded(e.columns);
    }
  }
}
