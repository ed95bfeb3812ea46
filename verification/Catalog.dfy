/** The local catalog: declared tables from configuration over managed tables in the manifest. */
module Catalogs {
  import opened AlterTables
  import opened HiveTypes
  import opened Manifests
  import opened Sorting
  import opened Strings
  import opened TableFormats
  import opened Wrappers

  datatype DeclaredTable = DeclaredTable(
    location: string,
    format: TableFormat,
    storageOptions: map<string, string>,
    partitionColumns: seq<string>)

  /** `declared` is keyed by database and table, and fixed when the catalog is built. */
  datatype LocalCatalog = LocalCatalog(
    name: string,
    warehouse: string,
    declared: map<(string, string), DeclaredTable>)

  datatype TableMetadata = TableMetadata(
    name: string,
    location: string,
    format: TableFormat,
    schema: Option<Schema>,
    storageOptions: map<string, string>,
    partitionColumns: seq<string>,
    comment: Option<string>,
    properties: map<string, string>,
    columnComments: map<string, string>)

  function TableKey(database: string, table: string): string {
    database + "." + table
  }

  /** What every key of the database's tables starts with. */
  function Prefix(database: string): string {
    database + "."
  }

  // ---- statements

  datatype Statement =
    | CreateTable(namespace: seq<string>, table: string, schema: Schema, format: TableFormat,
                  at: Option<string>, partitions: seq<string>)
    | CreateDatabase(database: string, ifNotExists: bool, comment: Option<string>, at: Option<string>)
    | DropDatabase(database: string, ifExists: bool, cascade: bool)
    | DropTable(namespace: seq<string>, table: string, ifExists: bool)
    | AlterTable(namespace: seq<string>, table: string, changes: seq<TableChange>)

  /** What a statement asks of the manifest once it has been checked against the catalog. */
  datatype Operation =
    | PutTable(database: string, table: string, entry: TableEntry)
    | PutDatabase(database: string, ifNotExists: bool, made: DatabaseEntry)
    | RemoveDatabase(database: string, ifExists: bool, cascade: bool)
    | RemoveTable(database: string, table: string, ifExists: bool)
    | ChangeTable(database: string, table: string, changes: seq<TableChange>)

  function SingleDb(namespace: seq<string>): Result<string> {
    if |namespace| == 1 && namespace[0] != "" then Ok(namespace[0]) else Err(Plan)
  }

  predicate IsIdentifier(s: string) {
    && s != ""
    && forall c <- s :: 'a' <= c <= 'z' || 'A' <= c <= 'Z' || '0' <= c <= '9' || c == '_'
  }

  /** A given location is taken as it is, up to a trailing slash; only a default one needs identifiers. */
  function ResolveCreateLocation(cat: LocalCatalog, database: string, table: string, at: Option<string>): Result<string> {
    match at
    case Some(location) => Ok(WithSlash(location))
    case None =>
      if IsIdentifier(database) && IsIdentifier(table) then
        Ok(TrimSlashes(cat.warehouse) + "/" + database + ".db/" + table + "/")
      else Err(Plan)
  }

  function Managed(cat: LocalCatalog, namespace: seq<string>, table: string): Result<string> {
    var db :- SingleDb(namespace);
    if (db, table) in cat.declared then Err(Plan) else Ok(db)
  }

  function NewEntry(location: string, format: TableFormat, schema: Schema, partitions: seq<string>): TableEntry
    requires Mappable(schema)
  {
    TableEntry(location, FormatName(format),
      ToColumns(Select(schema, partitions, false)), ToColumns(Select(schema, partitions, true)),
      None, map[], map[], map[])
  }

  /** The checks made before the manifest is touched. */
  function Prepare(cat: LocalCatalog, st: Statement): Result<Operation> {
    match st
    case CreateTable(namespace, table, schema, format, at, partitions) =>
      var db :- Managed(cat, namespace, table);
      var location :- ResolveCreateLocation(cat, db, table, at);
      if !Mappable(schema) then Err(Unsupported)
      else Ok(PutTable(db, table, NewEntry(location, format, schema, partitions)))
    case CreateDatabase(database, ifNotExists, comment, at) =>
      (match at
       case Some(location) => Ok(PutDatabase(database, ifNotExists, DatabaseEntry(comment, Some(location))))
       case None =>
         if !IsIdentifier(database) then Err(Plan)
         else
           var location := TrimSlashes(cat.warehouse) + "/" + database + ".db/";
           Ok(PutDatabase(database, ifNotExists, DatabaseEntry(comment, Some(location)))))
    case DropDatabase(database, ifExists, cascade) => Ok(RemoveDatabase(database, ifExists, cascade))
    case DropTable(namespace, table, ifExists) =>
      var db :- Managed(cat, namespace, table);
      Ok(RemoveTable(db, table, ifExists))
    case AlterTable(namespace, table, changes) =>
      var db :- Managed(cat, namespace, table);
      Ok(ChangeTable(db, table, changes))
  }

  /** What CREATE TABLE answers with: the schema and the partition columns as they were given. */
  function CreatedMetadata(cat: LocalCatalog, database: string, table: string, location: string, format: TableFormat,
                           schema: Schema, partitions: seq<string>): TableMetadata
  {
    TableMetadata(cat.name + "." + database + "." + table, location, format, Some(schema), map[], partitions,
      None, map[], map[])
  }

  // ---- the manifest edits

  function KeysUnder(m: Manifest, prefix: string): set<string> {
    set k | k in m.tables && prefix <= k
  }

  /** The edit an operation makes. Creating a database that exists, when that is allowed, replaces its
      comment and location. */
  function Mutate(op: Operation, m: Manifest): Result<Manifest> {
    match op
    case PutTable(database, table, entry) =>
      var databases :=
        if database in m.databases then m.databases else m.databases[database := DatabaseEntry(None, None)];
      Ok(m.(databases := databases, tables := m.tables[TableKey(database, table) := entry]))
    case PutDatabase(database, ifNotExists, made) =>
      if database in m.databases && !ifNotExists then Err(Plan)
      else Ok(m.(databases := m.databases[database := made]))
    case RemoveDatabase(database, ifExists, cascade) =>
      var keys := KeysUnder(m, Prefix(database));
      if database !in m.databases && keys == {} then (if ifExists then Ok(m) else Err(Plan))
      else if keys != {} && !cascade then Err(Plan)
      else Ok(m.(databases := m.databases - {database}, tables := m.tables - keys))
    case RemoveTable(database, table, ifExists) =>
      if TableKey(database, table) !in m.tables && !ifExists then Err(Plan)
      else Ok(m.(tables := m.tables - {TableKey(database, table)}))
    case ChangeTable(database, table, changes) =>
      var key := TableKey(database, table);
      if key !in m.tables then Err(Plan)
      else
        var entry :- AlterEntry(m.tables[key], changes);
        Ok(m.(tables := m.tables[key := entry]))
  }

  /** An edit did what `Mutate` says, or refused and left the manifest alone. */
  predicate Edited(op: Operation, before: Manifest, after: Manifest, r: Result<()>) {
    match Mutate(op, before)
    case Ok(m) => r.Ok? && after == m
    case Err(error) => r == Err(error) && after == before
  }

  /** The manifest an update closure edits in place. */
  class Draft {
    var version: nat
    var databases: map<string, DatabaseEntry>
    var tables: map<string, TableEntry>

    function Contents(): Manifest
      reads this
    {
      Manifest(version, databases, tables)
    }

    constructor (m: Manifest)
      ensures Contents() == m
    {
      version, databases, tables := m.version, m.databases, m.tables;
    }

    method InsertTable(database: string, table: string, entry: TableEntry) returns (r: Result<()>)
      modifies this
      ensures Edited(PutTable(database, table, entry), old(Contents()), Contents(), r)
    {
      if database !in databases {
        databases := databases[database := DatabaseEntry(None, None)];
      }
      tables := tables[TableKey(database, table) := entry];
      r := Ok(());
    }

    method InsertDatabase(database: string, ifNotExists: bool, made: DatabaseEntry) returns (r: Result<()>)
      modifies this
      ensures Edited(PutDatabase(database, ifNotExists, made), old(Contents()), Contents(), r)
    {
      if database in databases && !ifNotExists {
        return Err(Plan);
      }
      databases := databases[database := made];
      r := Ok(());
    }

    /** The keys that start with `prefix`, gathered one by one. */
    method Under(prefix: string) returns (keys: set<string>)
      ensures keys == KeysUnder(Contents(), prefix)
    {
      keys := {};
      var rest := tables.Keys;
      while rest != {}
        invariant rest <= tables.Keys
        invariant keys == set k | k in tables.Keys - rest && prefix <= k
        decreases |rest|
      {
        var k :| k in rest;
        if prefix <= k {
          keys := keys + {k};
        }
        rest := rest - {k};
      }
    }

    method DropDatabase(database: string, ifExists: bool, cascade: bool) returns (r: Result<()>)
      modifies this
      ensures Edited(RemoveDatabase(database, ifExists, cascade), old(Contents()), Contents(), r)
    {
      var known := database in databases;
      var keys := Under(Prefix(database));
      if !known && keys == {} {
        return if ifExists then Ok(()) else Err(Plan);
      }
      if keys != {} && !cascade {
        return Err(Plan);
      }
      var rest := keys;
      while rest != {}
        invariant rest <= keys
        invariant Contents() == old(Contents()).(tables := old(tables) - (keys - rest))
        decreases |rest|
      {
        var k :| k in rest;
        tables := tables - {k};
        rest := rest - {k};
      }
      databases := databases - {database};
      r := Ok(());
    }

    method DropTable(database: string, table: string, ifExists: bool) returns (r: Result<()>)
      modifies this
      ensures Edited(RemoveTable(database, table, ifExists), old(Contents()), Contents(), r)
    {
      var key := TableKey(database, table);
      var found := key in tables;
      tables := tables - {key};
      if !found && !ifExists {
        return Err(Plan);
      }
      r := Ok(());
    }

    method AlterTable(database: string, table: string, changes: seq<TableChange>) returns (r: Result<()>)
      modifies this
      ensures Edited(ChangeTable(database, table, changes), old(Contents()), Contents(), r)
    {
      var key := TableKey(database, table);
      if key !in tables {
        return Err(Plan);
      }
      var entry :- Alter(tables[key], changes);
      tables := tables[key := entry];
      r := Ok(());
    }
  }

  // ---- reading

  function DeclaredMetadata(cat: LocalCatalog, database: string, table: string, d: DeclaredTable): TableMetadata {
    TableMetadata(cat.name + "." + database + "." + table, d.location, d.format, None, d.storageOptions,
      d.partitionColumns, None, map[], map[])
  }

  function Names(columns: HiveColumns): seq<string> {
    seq(|columns|, i requires 0 <= i < |columns| => columns[i].0)
  }

  function ManagedMetadata(cat: LocalCatalog, database: string, table: string, e: TableEntry): TableMetadata {
    TableMetadata(cat.name + "." + database + "." + table, e.location, FromProvider(e.format).GetOr(Parquet),
      ColumnsToSchema(e.columns + e.partitionColumns), e.storageOptions, Names(e.partitionColumns),
      e.comment, e.properties, e.columnComments)
  }

  function LoadTable(cat: LocalCatalog, m: Manifest, namespace: seq<string>, table: string): Result<TableMetadata> {
    var db :- SingleDb(namespace);
    if (db, table) in cat.declared then Ok(DeclaredMetadata(cat, db, table, cat.declared[(db, table)]))
    else if TableKey(db, table) in m.tables then
      Ok(ManagedMetadata(cat, db, table, m.tables[TableKey(db, table)]))
    else Err(Plan)
  }

  /** The names under a database, in order: declared ones, and what remains of each key that starts with it. */
  method ListTables(cat: LocalCatalog, m: Manifest, namespace: seq<string>) returns (r: Result<seq<string>>)
    ensures r.Ok? <==> SingleDb(namespace).Ok?
    ensures r.Err? ==> r.error == Plan
    ensures r.Ok? ==> Sorted(r.value) && forall t: string :: t in r.value <==> LoadTable(cat, m, namespace, t).Ok?
  {
    var db :- SingleDb(namespace);
    var names := set p | p in cat.declared && p.0 == db :: p.1;
    var rest := m.tables.Keys;
    while rest != {}
      invariant rest <= m.tables.Keys
      invariant forall t: string ::
                  t in names <==> (db, t) in cat.declared || TableKey(db, t) in m.tables.Keys - rest
      decreases |rest|
    {
      var k :| k in rest;
      if Prefix(db) <= k {
        var found := k[|Prefix(db)|..];
        assert k == TableKey(db, found);
        forall t: string
          ensures TableKey(db, t) == k <==> t == found
        {
          KeyTail(db, t);
        }
        names := names + {found};
      } else {
        forall t: string
          ensures TableKey(db, t) != k
        {
          KeyTail(db, t);
        }
      }
      rest := rest - {k};
    }
    var list := InOrder(names);
    r := Ok(list);
  }

  lemma KeyTail(database: string, table: string)
    ensures Prefix(database) <= TableKey(database, table)
    ensures TableKey(database, table)[|Prefix(database)|..] == table
  {
  }

  /** The database part of a key: what is before its first dot. */
  function DatabaseOf(key: string): Option<string> {
    if key == "" then None
    else if key[0] == '.' then Some("")
    else
      match DatabaseOf(key[1..])
      case None => None
      case Some(db) => Some([key[0]] + db)
  }

  function DatabasesOf(keys: set<string>): set<string> {
    set k | k in keys && DatabaseOf(k).Some? :: DatabaseOf(k).value
  }

  function Namespaces(cat: LocalCatalog, m: Manifest): set<string> {
    (set p | p in cat.declared :: p.0) + m.databases.Keys + DatabasesOf(m.tables.Keys)
  }

  lemma DatabasesOfMore(keys: set<string>, k: string)
    ensures DatabasesOf({}) == {}
    ensures DatabasesOf(keys + {k}) ==
            if DatabaseOf(k).Some? then DatabasesOf(keys) + {DatabaseOf(k).value} else DatabasesOf(keys)
  {
  }

  /** The loop that adds the database of every key. */
  method AddDatabases(given: set<string>, keys: set<string>) returns (names: set<string>)
    ensures names == given + DatabasesOf(keys)
  {
    hide DatabasesOf, DatabaseOf;
    DatabasesOfMore({}, "");
    names := given;
    var rest := keys;
    assert keys - rest == {};
    while rest != {}
      invariant rest <= keys
      invariant names == given + DatabasesOf(keys - rest)
      decreases |rest|
    {
      var k :| k in rest;
      var db := DatabaseOf(k);
      if db.Some? {
        names := names + {db.value};
      }
      DatabasesOfMore(keys - rest, k);
      assert keys - rest + {k} == keys - (rest - {k});
      rest := rest - {k};
    }
    assert keys - rest == keys;
  }

  method ListNamespaces(cat: LocalCatalog, m: Manifest, parent: seq<string>) returns (names: seq<string>)
    ensures Sorted(names)
    ensures forall n: string :: n in names <==> parent == [] && n in Namespaces(cat, m)
  {
    hide Sorted;
    if parent != [] {
      NothingSorted();
      return [];
    }
    var all := AddDatabases((set p | p in cat.declared :: p.0) + m.databases.Keys, m.tables.Keys);
    names := InOrder(all);
  }
}
