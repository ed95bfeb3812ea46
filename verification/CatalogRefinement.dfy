/** The catalog over string keys refines a plain map from (database, table) to entry. */
module CatalogRefinement {
  import opened AlterTables
  import opened Catalogs
  import opened HiveTypes
  import opened ManifestLog
  import opened ManifestTheorems
  import opened Manifests
  import opened SchemaOrder
  import opened Strings
  import opened TableFormats
  import opened Wrappers

  // ---- keys

  predicate DotFree(s: string) {
    '.' !in s
  }

  /** `inner` is below `outer` when names are read as dotted paths. */
  predicate Nested(outer: string, inner: string) {
    outer + "." <= inner
  }

  predicate Related(d: string, e: string) {
    d == e || Nested(d, e) || Nested(e, d)
  }

  lemma PrefixBelow(d: string, e: string, rest: string)
    requires |d| < |e| && d + "." <= e + "." + rest
    ensures Nested(d, e)
  {
    assert (d + ".")[..|d| + 1] == (e + "." + rest)[..|d| + 1] == e[..|d| + 1];
  }

  lemma PrefixSame(d: string, e: string, rest: string)
    requires |d| == |e| && d + "." <= e + "." + rest
    ensures d == e
  {
    assert (d + ".")[..|d|] == d && (e + "." + rest)[..|e|] == e;
  }

  /** A key of database `e` counts as a key of `d` only when one of the names is below the other. */
  lemma SharedKey(d: string, e: string, table: string)
    requires Prefix(d) <= TableKey(e, table)
    ensures Related(d, e)
  {
    if |d| < |e| {
      PrefixBelow(d, e, table);
    } else if |d| == |e| {
      PrefixSame(d, e, table);
    } else {
      assert (e + "." + table)[..|d| + 1] == d + ".";
      assert e + "." <= (e + "." + table)[..|d|] == d;
    }
  }

  lemma NestedKey(outer: string, inner: string, table: string)
    requires Nested(outer, inner)
    ensures TableKey(outer, inner[|outer| + 1..] + "." + table) == TableKey(inner, table)
  {
    assert inner == outer + "." + inner[|outer| + 1..];
  }

  lemma NestedHasDot(outer: string, inner: string)
    requires Nested(outer, inner)
    ensures !DotFree(inner)
  {
    assert inner[|outer|] == '.';
  }

  /** The exact collisions of the string key: the same pair, or a name below the other with the rest of
      it moved into the table name. */
  lemma KeyCollision(d: string, t: string, e: string, u: string)
    ensures TableKey(d, t) == TableKey(e, u) <==>
            || (d == e && t == u)
            || (Nested(d, e) && t == e[|d| + 1..] + "." + u)
            || (Nested(e, d) && u == d[|e| + 1..] + "." + t)
  {
    var k, l := TableKey(d, t), TableKey(e, u);
    KeyTail(d, t);
    KeyTail(e, u);
    if k == l {
      SharedKey(d, e, u);
      if Nested(d, e) {
        assert l[|d| + 1..] == e[|d| + 1..] + "." + u;
      } else if Nested(e, d) {
        assert k[|e| + 1..] == d[|e| + 1..] + "." + t;
      }
    }
    if Nested(d, e) {
      NestedKey(d, e, u);
    }
    if Nested(e, d) {
      NestedKey(e, d, t);
    }
  }

  lemma DotFreeUnrelated(d: string, e: string)
    requires DotFree(d) && DotFree(e)
    ensures Related(d, e) <==> d == e
  {
    if Nested(d, e) {
      NestedHasDot(d, e);
    }
    if Nested(e, d) {
      NestedHasDot(e, d);
    }
  }

  /** Dot-free database names make keys unambiguous. */
  lemma KeyIsInjective(d: string, t: string, e: string, u: string)
    requires DotFree(d) && DotFree(e)
    ensures TableKey(d, t) == TableKey(e, u) <==> d == e && t == u
  {
    KeyCollision(d, t, e, u);
    DotFreeUnrelated(d, e);
  }

  // ---- each operation stays in its database

  /** What a database shows under a table name, declared tables aside. */
  function Entry(m: Manifest, database: string, table: string): Option<TableEntry> {
    var key := TableKey(database, table);
    if key in m.tables then Some(m.tables[key]) else None
  }

  ghost predicate LeavesAlone(op: Operation, m: Manifest, other: string) {
    Mutate(op, m).Ok? ==> forall t: string :: Entry(Mutate(op, m).value, other, t) == Entry(m, other, t)
  }

  /** An operation on one database changes no table of an unrelated one. */
  lemma StaysHome(op: Operation, m: Manifest, other: string)
    requires !Related(op.database, other)
    ensures LeavesAlone(op, m, other)
  {
    if Mutate(op, m).Ok? {
      forall t: string
        ensures Entry(Mutate(op, m).value, other, t) == Entry(m, other, t)
      {
        if Prefix(op.database) <= TableKey(other, t) {
          SharedKey(op.database, other, t);
        }
        if !op.PutDatabase? && !op.RemoveDatabase? {
          KeyCollision(op.database, op.table, other, t);
        }
      }
    }
  }

  lemma NewTableShows(m: Manifest, d: string, t: string, e: string, u: string, entry: TableEntry)
    requires TableKey(d, t) == TableKey(e, u) && m.tables == map[]
    ensures !LeavesAlone(PutTable(d, t, entry), m, e)
  {
    assert Entry(Mutate(PutTable(d, t, entry), m).value, e, u) != Entry(m, e, u);
  }

  /** And exactly of those: between related names some operation does. */
  lemma OnlyRelatedNamesInterfere(d: string, e: string)
    ensures Related(d, e) <==> exists op: Operation, m: Manifest :: op.database == d && !LeavesAlone(op, m, e)
  {
    if Related(d, e) {
      var entry := TableEntry("", "", [], [], None, map[], map[], map[]);
      var t := if Nested(d, e) then e[|d| + 1..] + "." else "";
      var u := if Nested(e, d) then d[|e| + 1..] + "." else "";
      KeyCollision(d, t, e, u);
      NewTableShows(EMPTY_MANIFEST, d, t, e, u, entry);
      assert PutTable(d, t, entry).database == d;
    }
    if op: Operation, m: Manifest :| op.database == d && !LeavesAlone(op, m, e) {
      if !Related(d, e) {
        StaysHome(op, m, e);
      }
    }
  }

  /** A drop that succeeds leaves neither the database nor any table of it, and without cascade it
      removes no table at all. */
  lemma DropEmpties(m: Manifest, database: string, ifExists: bool, cascade: bool)
    requires Mutate(RemoveDatabase(database, ifExists, cascade), m).Ok?
    ensures var m' := Mutate(RemoveDatabase(database, ifExists, cascade), m).value;
            && database !in m'.databases
            && (forall t: string :: Entry(m', database, t).None?)
            && (!cascade ==> m'.tables == m.tables)
  {
    var m' := Mutate(RemoveDatabase(database, ifExists, cascade), m).value;
    forall t: string
      ensures Entry(m', database, t).None?
    {
      KeyTail(database, t);
      assert TableKey(database, t) in m.tables ==> TableKey(database, t) in KeysUnder(m, Prefix(database));
    }
  }

  // ---- the plain map

  datatype Lake = Lake(databases: map<string, DatabaseEntry>, tables: map<(string, string), TableEntry>)

  function TablesIn(l: Lake, database: string): set<(string, string)> {
    set p | p in l.tables && p.0 == database
  }

  function LakeMutate(op: Operation, l: Lake): Result<Lake> {
    match op
    case PutTable(database, table, entry) =>
      var databases :=
        if database in l.databases then l.databases else l.databases[database := DatabaseEntry(None, None)];
      Ok(Lake(databases, l.tables[(database, table) := entry]))
    case PutDatabase(database, ifNotExists, made) =>
      if database in l.databases && !ifNotExists then Err(Plan)
      else Ok(l.(databases := l.databases[database := made]))
    case RemoveDatabase(database, ifExists, cascade) =>
      var own := TablesIn(l, database);
      if database !in l.databases && own == {} then (if ifExists then Ok(l) else Err(Plan))
      else if own != {} && !cascade then Err(Plan)
      else Ok(Lake(l.databases - {database}, l.tables - own))
    case RemoveTable(database, table, ifExists) =>
      if (database, table) !in l.tables && !ifExists then Err(Plan)
      else Ok(l.(tables := l.tables - {(database, table)}))
    case ChangeTable(database, table, changes) =>
      if (database, table) !in l.tables then Err(Plan)
      else
        var entry :- AlterEntry(l.tables[(database, table)], changes);
        Ok(l.(tables := l.tables[(database, table) := entry]))
  }

  /** The manifest holds the tables of the lake under their keys. */
  predicate Filed(m: Manifest, l: Lake, p: (string, string)) {
    && (p in l.tables <==> TableKey(p.0, p.1) in m.tables)
    && (p in l.tables ==> l.tables[p] == m.tables[TableKey(p.0, p.1)])
  }

  /** And nothing else: each key is that of a table of the lake, whose database it implies. */
  ghost predicate Represents(m: Manifest, l: Lake) {
    && m.databases == l.databases
    && (forall p: (string, string) :: DotFree(p.0) ==> Filed(m, l, p))
    && (forall p <- l.tables :: DotFree(p.0) && p.0 in l.databases)
    && (forall k <- m.tables :: Owned(l, k))
  }

  ghost predicate Owned(l: Lake, key: string) {
    exists p :: p in l.tables && key == TableKey(p.0, p.1)
  }

  lemma PutTableRefines(m: Manifest, l: Lake, database: string, table: string, entry: TableEntry)
    requires Represents(m, l) && DotFree(database)
    ensures var op := PutTable(database, table, entry);
            Represents(Mutate(op, m).value, LakeMutate(op, l).value)
  {
    var op, q := PutTable(database, table, entry), (database, table);
    var m', l' := Mutate(op, m).value, LakeMutate(op, l).value;
    forall p: (string, string) | DotFree(p.0)
      ensures Filed(m', l', p)
    {
      assert Filed(m, l, p);
      KeyIsInjective(p.0, p.1, database, table);
    }
    forall k <- m'.tables
      ensures Owned(l', k)
    {
      if k == TableKey(database, table) {
        assert q in l'.tables;
      } else {
        assert Owned(l, k);
        var p :| p in l.tables && k == TableKey(p.0, p.1);
        assert p in l'.tables;
      }
    }
  }

  lemma RemoveTableRefines(m: Manifest, l: Lake, database: string, table: string)
    requires Represents(m, l) && DotFree(database)
    ensures TableKey(database, table) in m.tables <==> (database, table) in l.tables
    ensures Represents(m.(tables := m.tables - {TableKey(database, table)}), l.(tables := l.tables - {(database, table)}))
  {
    var m', l' := m.(tables := m.tables - {TableKey(database, table)}), l.(tables := l.tables - {(database, table)});
    assert Filed(m, l, (database, table));
    forall p: (string, string) | DotFree(p.0)
      ensures Filed(m', l', p)
    {
      assert Filed(m, l, p);
      KeyIsInjective(p.0, p.1, database, table);
    }
    forall k <- m'.tables
      ensures Owned(l', k)
    {
      assert Owned(l, k);
      var p :| p in l.tables && k == TableKey(p.0, p.1);
      assert p in l'.tables;
    }
  }

  /** The keys with a database's prefix are those of its tables. */
  lemma KeysUnderAreTablesIn(m: Manifest, l: Lake, database: string, p: (string, string))
    requires Represents(m, l) && DotFree(database) && p in l.tables
    ensures TableKey(p.0, p.1) in KeysUnder(m, Prefix(database)) <==> p in TablesIn(l, database)
  {
    assert Filed(m, l, p);
    KeyTail(p.0, p.1);
    if Prefix(database) <= TableKey(p.0, p.1) {
      SharedKey(database, p.0, p.1);
      DotFreeUnrelated(database, p.0);
    }
  }

  lemma RemoveDatabaseRefines(m: Manifest, l: Lake, database: string)
    requires Represents(m, l) && DotFree(database)
    ensures KeysUnder(m, Prefix(database)) == {} <==> TablesIn(l, database) == {}
    ensures Represents(m.(databases := m.databases - {database}, tables := m.tables - KeysUnder(m, Prefix(database))),
                       Lake(l.databases - {database}, l.tables - TablesIn(l, database)))
  {
    hide TableKey, Prefix;
    var keys, own := KeysUnder(m, Prefix(database)), TablesIn(l, database);
    var m' := m.(databases := m.databases - {database}, tables := m.tables - keys);
    var l' := Lake(l.databases - {database}, l.tables - own);
    forall p: (string, string) | DotFree(p.0)
      ensures Filed(m', l', p)
    {
      assert Filed(m, l, p);
      if p in l.tables {
        KeysUnderAreTablesIn(m, l, database, p);
      }
    }
    forall k <- m.tables
      ensures k in keys ==> own != {}
      ensures k !in keys ==> Owned(l', k)
    {
      assert Owned(l, k);
      var p :| p in l.tables && k == TableKey(p.0, p.1);
      KeysUnderAreTablesIn(m, l, database, p);
      assert k !in keys ==> p in l'.tables;
    }
    if p :| p in own {
      KeysUnderAreTablesIn(m, l, database, p);
    }
  }

  /** One operation: the manifest and the lake accept or refuse together, with the same error, and still
      hold the same tables. */
  lemma OperationRefines(op: Operation, m: Manifest, l: Lake)
    requires Represents(m, l) && DotFree(op.database)
    ensures match (Mutate(op, m), LakeMutate(op, l))
            case (Ok(m'), Ok(l')) => Represents(m', l')
            case (Err(e), Err(f)) => e == f
            case _ => false
  {
    match op
    case PutTable(database, table, entry) => PutTableRefines(m, l, database, table, entry);
    case PutDatabase(database, _, made) =>
      PutDatabaseRefines(m, l, database, made);
    case RemoveDatabase(database, _, _) =>
      RemoveDatabaseRefines(m, l, database);
    case RemoveTable(database, table, _) => RemoveTableRefines(m, l, database, table);
    case ChangeTable(database, table, changes) =>
      assert Filed(m, l, (database, table));
      if TableKey(database, table) in m.tables && AlterEntry(l.tables[(database, table)], changes).Ok? {
        PutTableRefines(m, l, database, table, AlterEntry(l.tables[(database, table)], changes).value);
      }
  }

  lemma PutDatabaseRefines(m: Manifest, l: Lake, database: string, made: DatabaseEntry)
    requires Represents(m, l)
    ensures Represents(m.(databases := m.databases[database := made]), l.(databases := l.databases[database := made]))
  {
    var m', l' := m.(databases := m.databases[database := made]), l.(databases := l.databases[database := made]);
    forall p: (string, string) | DotFree(p.0)
      ensures Filed(m', l', p)
    {
      assert Filed(m, l, p);
    }
    forall k <- m'.tables
      ensures Owned(l', k)
    {
      assert Owned(l, k);
      var p :| p in l.tables && k == TableKey(p.0, p.1);
      assert p in l'.tables;
    }
  }

  // ---- what is read

  function LakeLoad(cat: LocalCatalog, l: Lake, database: string, table: string): Result<TableMetadata> {
    if (database, table) in cat.declared then
      Ok(DeclaredMetadata(cat, database, table, cat.declared[(database, table)]))
    else if (database, table) in l.tables then
      Ok(ManagedMetadata(cat, database, table, l.tables[(database, table)]))
    else Err(Plan)
  }

  lemma LoadAgrees(cat: LocalCatalog, m: Manifest, l: Lake, database: string, table: string)
    requires Represents(m, l) && DotFree(database) && database != ""
    ensures LoadTable(cat, m, [database], table) == LakeLoad(cat, l, database, table)
  {
    assert Filed(m, l, (database, table));
  }

  lemma {:induction false} DatabaseOfKey(database: string, table: string)
    requires DotFree(database)
    ensures DatabaseOf(TableKey(database, table)) == Some(database)
  {
    var key := TableKey(database, table);
    if database != "" {
      assert database[0] in database;
      assert key[1..] == TableKey(database[1..], table);
      DatabaseOfKey(database[1..], table);
      assert database == [database[0]] + database[1..];
    } else {
      assert key[0] == '.';
    }
  }

  /** No database is listed that was not declared or created and not dropped, and none is missing. */
  lemma NamespacesAgree(cat: LocalCatalog, m: Manifest, l: Lake)
    requires Represents(m, l)
    ensures Namespaces(cat, m) == (set p | p in cat.declared :: p.0) + l.databases.Keys
  {
    forall k | k in m.tables && DatabaseOf(k).Some?
      ensures DatabaseOf(k).value in l.databases
    {
      assert Owned(l, k);
      var p :| p in l.tables && k == TableKey(p.0, p.1);
      DatabaseOfKey(p.0, p.1);
    }
  }

  // ---- whole runs

  /** A statement is checked, and then edits the manifest or changes nothing. */
  function Execute(cat: LocalCatalog, m: Manifest, st: Statement): Result<Manifest> {
    var op :- Prepare(cat, st);
    Mutate(op, m)
  }

  /** A statement on the plain map, read off its own words. */
  function LakeExecute(cat: LocalCatalog, l: Lake, st: Statement): Result<Lake> {
    match st
    case CreateTable(namespace, table, schema, format, at, partitions) =>
      if !Open(cat, namespace, table) then Err(Plan)
      else
        var db := namespace[0];
        var location :- ResolveCreateLocation(cat, db, table, at);
        if exists f <- schema :: ArrowToHive(f.dataType).None? then Err(Unsupported)
        else
          var databases := if db in l.databases then map[] else map[db := DatabaseEntry(None, None)];
          Ok(Lake(l.databases + databases, l.tables[(db, table) := NewEntry(location, format, schema, partitions)]))
    case CreateDatabase(database, ifNotExists, comment, at) =>
      if at.None? && !IsIdentifier(database) then Err(Plan)
      else if database in l.databases && !ifNotExists then Err(Plan)
      else
        var location := at.GetOr(TrimSlashes(cat.warehouse) + "/" + database + ".db/");
        Ok(Lake(l.databases[database := DatabaseEntry(comment, Some(location))], l.tables))
    case DropDatabase(database, ifExists, cascade) =>
      if exists p <- l.tables :: p.0 == database then
        if cascade then
          Ok(Lake(l.databases - {database}, map p | p in l.tables && p.0 != database :: l.tables[p]))
        else Err(Plan)
      else if database in l.databases || ifExists then Ok(Lake(l.databases - {database}, l.tables))
      else Err(Plan)
    case DropTable(namespace, table, ifExists) =>
      if !Open(cat, namespace, table) || ((namespace[0], table) !in l.tables && !ifExists) then Err(Plan)
      else Ok(Lake(l.databases, map p | p in l.tables && p != (namespace[0], table) :: l.tables[p]))
    case AlterTable(namespace, table, changes) =>
      if !Open(cat, namespace, table) || (namespace[0], table) !in l.tables then Err(Plan)
      else
        var entry :- AlterEntry(l.tables[(namespace[0], table)], changes);
        Ok(Lake(l.databases, l.tables[(namespace[0], table) := entry]))
  }

  /** One database is named, and the table is not one of the declared ones. */
  predicate Open(cat: LocalCatalog, namespace: seq<string>, table: string) {
    |namespace| == 1 && namespace[0] != "" && (namespace[0], table) !in cat.declared
  }

  lemma OpenIsManaged(cat: LocalCatalog, namespace: seq<string>, table: string)
    ensures Managed(cat, namespace, table) == if Open(cat, namespace, table) then Ok(namespace[0]) else Err(Plan)
  {
  }

  lemma CreatesAgree(cat: LocalCatalog, l: Lake, st: Statement)
    requires st.CreateTable? || st.CreateDatabase?
    ensures match Prepare(cat, st)
            case Err(e) => LakeExecute(cat, l, st) == Err(e)
            case Ok(op) => LakeExecute(cat, l, st) == LakeMutate(op, l)
  {
    hide ResolveCreateLocation, ArrowToHive, IsIdentifier, TrimSlashes;
    if st.CreateTable? {
      OpenIsManaged(cat, st.namespace, st.table);
      var db := if st.namespace != [] then st.namespace[0] else "";
      assert db in l.databases ==> l.databases + map[] == l.databases;
      var empty := DatabaseEntry(None, None);
      assert l.databases + map[db := empty] == l.databases[db := empty];
      assert Mappable(st.schema) <==> !exists f <- st.schema :: ArrowToHive(f.dataType).None?;
    }
  }

  lemma DropsAgree(cat: LocalCatalog, l: Lake, st: Statement)
    requires st.DropDatabase? || st.DropTable? || st.AlterTable?
    ensures match Prepare(cat, st)
            case Err(e) => LakeExecute(cat, l, st) == Err(e)
            case Ok(op) => LakeExecute(cat, l, st) == LakeMutate(op, l)
  {
    hide AlterEntry;
    match st
    case DropDatabase(database, _, _) =>
      var own := TablesIn(l, database);
      assert (exists p <- l.tables :: p.0 == database) <==> own != {} by {
        assert forall p :: p in own <==> p in l.tables && p.0 == database;
      }
      assert (map p | p in l.tables && p.0 != database :: l.tables[p]) == l.tables - own;
      if own == {} {
        assert l.tables - own == l.tables;
      }
      if database !in l.databases {
        assert l.databases - {database} == l.databases;
      }
    case DropTable(namespace, table, _) =>
      OpenIsManaged(cat, namespace, table);
      if Open(cat, namespace, table) {
        var p0 := (namespace[0], table);
        assert (map p | p in l.tables && p != p0 :: l.tables[p]) == l.tables - {p0};
      }
    case AlterTable(namespace, table, _) =>
      OpenIsManaged(cat, namespace, table);
  }

  lemma LakeExecuteAgrees(cat: LocalCatalog, l: Lake, st: Statement)
    ensures match Prepare(cat, st)
            case Err(e) => LakeExecute(cat, l, st) == Err(e)
            case Ok(op) => LakeExecute(cat, l, st) == LakeMutate(op, l)
  {
    hide LakeExecute, LakeMutate, Prepare;
    if st.CreateTable? || st.CreateDatabase? {
      CreatesAgree(cat, l, st);
    } else {
      DropsAgree(cat, l, st);
    }
  }

  function Or<T>(r: Result<T>, before: T): T {
    if r.Ok? then r.value else before
  }

  function Answer<T>(r: Result<T>): Result<()> {
    match r
    case Ok(_) => Ok(())
    case Err(e) => Err(e)
  }

  /** The state after the statements, and the answer to each. */
  function Play(cat: LocalCatalog, m: Manifest, sts: seq<Statement>): (Manifest, seq<Result<()>>)
    decreases |sts|
  {
    if sts == [] then (m, [])
    else
      var r := Execute(cat, m, sts[0]);
      var (m', answers) := Play(cat, Or(r, m), sts[1..]);
      (m', [Answer(r)] + answers)
  }

  function LakePlay(cat: LocalCatalog, l: Lake, sts: seq<Statement>): (Lake, seq<Result<()>>)
    decreases |sts|
  {
    if sts == [] then (l, [])
    else
      var r := LakeExecute(cat, l, sts[0]);
      var (l', answers) := LakePlay(cat, Or(r, l), sts[1..]);
      (l', [Answer(r)] + answers)
  }

  predicate Addressed(cat: LocalCatalog, st: Statement) {
    Prepare(cat, st).Ok? ==> DotFree(Prepare(cat, st).value.database)
  }

  /** No managed table has the name of a declared one. */
  predicate Undeclared(cat: LocalCatalog, l: Lake) {
    forall p <- l.tables :: p !in cat.declared
  }

  /** A statement that gets past the checks does not name a declared table. */
  lemma PreparedIsManaged(cat: LocalCatalog, st: Statement)
    requires Prepare(cat, st).Ok?
    ensures var op := Prepare(cat, st).value;
            op.PutDatabase? || op.RemoveDatabase? || (op.database, op.table) !in cat.declared
  {
    hide ResolveCreateLocation, NewEntry, Mappable;
  }

  lemma KeepsUndeclared(cat: LocalCatalog, l: Lake, op: Operation)
    requires Undeclared(cat, l) && LakeMutate(op, l).Ok?
    requires op.PutDatabase? || op.RemoveDatabase? || (op.database, op.table) !in cat.declared
    ensures Undeclared(cat, LakeMutate(op, l).value)
  {
    hide AlterEntry;
  }

  lemma StatementRefines(cat: LocalCatalog, m: Manifest, l: Lake, st: Statement)
    requires Represents(m, l) && Undeclared(cat, l) && Addressed(cat, st)
    ensures var r, q := Execute(cat, m, st), LakeExecute(cat, l, st);
            && Answer(r) == Answer(q)
            && Represents(Or(r, m), Or(q, l))
            && Undeclared(cat, Or(q, l))
  {
    hide Prepare, Mutate, LakeMutate, LakeExecute, Represents, Undeclared;
    LakeExecuteAgrees(cat, l, st);
    if Prepare(cat, st).Ok? {
      var op := Prepare(cat, st).value;
      OperationRefines(op, m, l);
      PreparedIsManaged(cat, st);
      if LakeMutate(op, l).Ok? {
        KeepsUndeclared(cat, l, op);
      }
    }
  }

  /** Every sequence of statements gets from the manifest the answers it would get from the plain map, and
      leaves the same tables behind. */
  lemma {:induction false} StatementsRefine(cat: LocalCatalog, m: Manifest, l: Lake, sts: seq<Statement>)
    requires Represents(m, l) && Undeclared(cat, l)
    requires forall st <- sts :: Addressed(cat, st)
    ensures Play(cat, m, sts).1 == LakePlay(cat, l, sts).1
    ensures Represents(Play(cat, m, sts).0, LakePlay(cat, l, sts).0)
    ensures Undeclared(cat, LakePlay(cat, l, sts).0)
    decreases |sts|
  {
    if sts != [] {
      assert sts[0] in sts;
      StatementRefines(cat, m, l, sts[0]);
      StatementsRefine(cat, Or(Execute(cat, m, sts[0]), m), Or(LakeExecute(cat, l, sts[0]), l), sts[1..]);
    }
  }

  predicate Targets(st: Statement, database: string, table: string) {
    (st.CreateTable? || st.DropTable? || st.AlterTable?) && st.namespace == [database] && st.table == table
  }

  /** A declared table answers the same to every load, whatever statements ran, and refuses every statement
      that targets it. */
  lemma {:induction false} DeclaredAreFixed(cat: LocalCatalog, m: Manifest, sts: seq<Statement>, database: string, table: string)
    requires (database, table) in cat.declared && database != ""
    ensures |Play(cat, m, sts).1| == |sts|
    ensures forall i :: 0 <= i < |sts| && Targets(sts[i], database, table) ==> Play(cat, m, sts).1[i] == Err(Plan)
    ensures var d, r := cat.declared[(database, table)], LoadTable(cat, Play(cat, m, sts).0, [database], table);
            r == Ok(TableMetadata(cat.name + "." + database + "." + table, d.location, d.format, None, d.storageOptions,
                                  d.partitionColumns, None, map[], map[]))
    decreases |sts|
  {
    if sts != [] {
      DeclaredAreFixed(cat, Or(Execute(cat, m, sts[0]), m), sts[1..], database, table);
      hide Mutate;
      var answers := Play(cat, m, sts).1;
      assert answers[1..] == Play(cat, Or(Execute(cat, m, sts[0]), m), sts[1..]).1;
      forall i | 0 <= i < |sts| && Targets(sts[i], database, table)
        ensures answers[i] == Err(Plan)
      {
        if i > 0 {
          assert sts[i] == sts[1..][i - 1] && answers[i] == answers[1..][i - 1];
        }
      }
    }
  }

  const EMPTY_LAKE := Lake(map[], map[])

  lemma EmptyRepresents()
    ensures Represents(EMPTY_MANIFEST, EMPTY_LAKE)
  {
  }

  /** In particular from a catalog that was never written: every load of the manifest afterwards is one of the
      plain map. */
  lemma CatalogRefines(cat: LocalCatalog, sts: seq<Statement>, database: string, table: string)
    requires forall st <- sts :: Addressed(cat, st)
    requires DotFree(database) && database != ""
    ensures Play(cat, EMPTY_MANIFEST, sts).1 == LakePlay(cat, EMPTY_LAKE, sts).1
    ensures LoadTable(cat, Play(cat, EMPTY_MANIFEST, sts).0, [database], table) ==
            LakeLoad(cat, LakePlay(cat, EMPTY_LAKE, sts).0, database, table)
  {
    EmptyRepresents();
    StatementsRefine(cat, EMPTY_MANIFEST, EMPTY_LAKE, sts);
    hide Play, LakePlay, LoadTable, LakeLoad, Represents;
    LoadAgrees(cat, Play(cat, EMPTY_MANIFEST, sts).0, LakePlay(cat, EMPTY_LAKE, sts).0, database, table);
  }

  // ---- creating a database that exists

  /** Allowed when it exists, CREATE DATABASE leaves the catalog as it was exactly when the entry it brings is
      the entry there; there is always another one, which replaces it. */
  lemma IfNotExistsReplaces(m: Manifest, database: string, made: DatabaseEntry) returns (other: DatabaseEntry)
    requires database in m.databases
    ensures Mutate(PutDatabase(database, true, made), m) == Ok(m) <==> m.databases[database] == made
    ensures Mutate(PutDatabase(database, true, other), m) != Ok(m)
    ensures Mutate(PutDatabase(database, true, other), m).value.databases[database] == other
  {
    if m.databases[database] == made {
      assert m.databases[database := made] == m.databases;
    }
    other := DatabaseEntry(if m.databases[database].comment == None then Some("") else None, None);
  }

  // ---- concurrent runs

  function Edit(op: Operation): Mutation {
    m => Mutate(op, m)
  }

  /** The updates of the run are catalog operations on dot-free databases. */
  ghost predicate Issued(calls: seq<Call>, ops: seq<Operation>) {
    && |ops| == |calls|
    && forall i :: 0 <= i < |calls| && calls[i].Update? ==> calls[i].mutate == Edit(ops[i]) && DotFree(ops[i].database)
  }

  /** The committed operations, applied in commit order to an empty lake. */
  ghost function LakeReplay(ops: seq<Operation>, log: seq<Commit>): Result<Lake>
    requires forall c <- log :: c.id < |ops|
  {
    if log == [] then Ok(EMPTY_LAKE)
    else
      var l :- LakeReplay(ops, log[..|log| - 1]);
      LakeMutate(ops[log[|log| - 1].id], l)
  }

  lemma {:induction false} ReplayRefines(calls: seq<Call>, ops: seq<Operation>, log: seq<Commit>)
    requires Issued(calls, ops) && forall c <- log :: c.id < |calls| && calls[c.id].Update?
    requires Replay(calls, log).Ok?
    ensures LakeReplay(ops, log).Ok?
    ensures Represents(Replay(calls, log).value, LakeReplay(ops, log).value)
    decreases |log|
  {
    if log != [] {
      var front, last := log[..|log| - 1], log[|log| - 1];
      ReplayRefines(calls, ops, front);
      assert calls[last.id].mutate == Edit(ops[last.id]);
      OperationRefines(ops[last.id], Replay(calls, front).value, LakeReplay(ops, front).value);
    }
  }

  /** Any interleaving of catalog operations in the window: what readers resolve is the plain map after
      the committed operations in commit order, none of which was refused. */
  lemma ConcurrentOperationsRefine(run: seq<Action>, s: Sys, ops: seq<Operation>)
    requires Reaches(run, s) && Issued(s.calls, ops)
    ensures forall c <- s.log :: c.id < |ops|
    ensures LakeReplay(ops, s.log).Ok?
    ensures Represents(Resolve(s.files), LakeReplay(ops, s.log).value)
  {
    NoLostUpdate(run, s);
    ReplayRefines(s.calls, ops, s.log);
  }

  /** An `ALTER` applies all of its changes to the table or refuses because there is no such table or one
      of them is inadmissible for its entry. */
  lemma AlterIsAllOrNothing(m: Manifest, database: string, table: string, changes: seq<TableChange>)
    ensures match Mutate(ChangeTable(database, table, changes), m)
            case Ok(m') =>
              && Entry(m, database, table).Some?
              && AlterEntry(Entry(m, database, table).value, changes).Ok?
              && Entry(m', database, table) == Some(AlterEntry(Entry(m, database, table).value, changes).value)
            case Err(_) =>
              Entry(m, database, table).None? || exists c <- changes :: Check(Entry(m, database, table).value, c).Some?
  {
  }

  /** Refused, it commits no version, and what it refused was current while it ran; committed, its version
      is the previous one with all of the changes. */
  lemma RefusedAlterCommitsNothing(run: seq<Action>, s: Sys, r: Return, database: string, table: string, changes: seq<TableChange>)
    requires Reaches(run, s) && r in s.returned
    requires r.id < |s.calls| && s.calls[r.id] == Update(Edit(ChangeTable(database, table, changes)))
    ensures r.outcome.Rejected? ==>
              && (forall v :: 0 <= v < |s.log| ==> s.log[v].id != r.id)
              && r.begun <= r.seen <= r.ended <= |s.log|
              && var e := Entry(At(s.log, r.seen), database, table);
                 e.None? || exists c <- changes :: Check(e.value, c).Some?
    ensures r.outcome.Committed? ==>
              && r.outcome.version < |s.log|
              && var before := Entry(At(s.log, r.outcome.version), database, table);
                 && before.Some? && AlterEntry(before.value, changes).Ok?
                 && Entry(At(s.log, r.outcome.version + 1), database, table) == Some(AlterEntry(before.value, changes).value)
  {
    hide Reaches, Mutate, AlterEntry, Check;
    AnswersAreTrue(run, s, r);
    if r.outcome.Rejected? {
      AlterIsAllOrNothing(At(s.log, r.seen), database, table, changes);
    } else if r.outcome.Committed? {
      AlterIsAllOrNothing(At(s.log, r.outcome.version), database, table, changes);
    }
  }

  // ---- create, then load

  /** A created table loads with the location, format and partition columns it was created with, the
      latter in schema order, and with its schema as recovered from the stored type names. */
  lemma CreatedTableLoads(cat: LocalCatalog, m: Manifest, st: Statement)
    requires st.CreateTable? && st.schema != [] && Execute(cat, m, st).Ok?
    ensures var m' := Execute(cat, m, st).value;
            var r := LoadTable(cat, m', st.namespace, st.table);
            var data, parts := Select(st.schema, st.partitions, false), Select(st.schema, st.partitions, true);
            && r.Ok? && r.value.format == st.format
            && Ok(r.value.location) == ResolveCreateLocation(cat, st.namespace[0], st.table, st.at)
            && |r.value.partitionColumns| == |parts|
            && (forall i :: 0 <= i < |parts| ==> r.value.partitionColumns[i] == parts[i].name)
            && r.value.schema == if AllRecoverable(st.schema) then Some(Recovered(data) + Recovered(parts)) else None
  {
    CreateThenLoad(st.schema, st.partitions);
    FormatReadsBack(st.format);
  }

  lemma NamesOfColumns(schema: Schema)
    requires Mappable(schema)
    ensures Names(ToColumns(schema)) == FieldNames(schema)
  {
    hide ArrowToHive;
  }

  /** What CREATE TABLE answers and what a load answers next differ in nothing but the schema and the partition
      columns. The partition columns are the same exactly when the list given picks, from left to right, all
      the fields it names; the schema exactly when its partition fields come last and every field comes back
      as it was. */
  lemma CreatedAnswersAsLoaded(cat: LocalCatalog, m: Manifest, st: Statement)
    requires st.CreateTable? && Execute(cat, m, st).Ok?
    ensures Prepare(cat, st).value.PutTable? && LoadTable(cat, Execute(cat, m, st).value, st.namespace, st.table).Ok?
    ensures var op := Prepare(cat, st).value;
            var created := CreatedMetadata(cat, op.database, st.table, op.entry.location, st.format, st.schema, st.partitions);
            var loaded := LoadTable(cat, Execute(cat, m, st).value, st.namespace, st.table).value;
            && created == loaded.(schema := created.schema, partitionColumns := created.partitionColumns)
            && (created.partitionColumns == loaded.partitionColumns <==>
                  exists ix :: PicksAll(st.schema, st.partitions, st.partitions, ix))
            && (created.schema == loaded.schema <==>
                  st.schema != [] && PartitionsLast(st.schema, st.partitions) && forall f <- st.schema :: Kept(f))
  {
    CreatedLoads(cat, m, st);
    SchemaComesBack(st.schema, st.partitions);
    PartitionsComeBack(st.schema, st.partitions);
    MappableSelect(st.schema, st.partitions);
    NamesOfColumns(Select(st.schema, st.partitions, true));
    hide ArrowToHive, ColumnsToSchema, ToColumns, Select, PartitionsLast, Prepare, Execute, LoadTable;
  }

  lemma CreatedLoads(cat: LocalCatalog, m: Manifest, st: Statement)
    requires st.CreateTable? && Execute(cat, m, st).Ok?
    ensures Mappable(st.schema) && Prepare(cat, st).value.PutTable?
    ensures var op := Prepare(cat, st).value;
            var data, parts := ToColumns(Select(st.schema, st.partitions, false)), ToColumns(Select(st.schema, st.partitions, true));
            LoadTable(cat, Execute(cat, m, st).value, st.namespace, st.table) ==
            Ok(TableMetadata(cat.name + "." + op.database + "." + st.table, op.entry.location, st.format,
                             ColumnsToSchema(data + parts), map[], Names(parts), None, map[], map[]))
  {
    FormatReadsBack(st.format);
    hide ArrowToHive, ColumnsToSchema, ToColumns, Select, FromProvider, FormatName, ResolveCreateLocation;
  }

  lemma MappableSelect(schema: Schema, partitions: seq<string>)
    requires Mappable(schema)
    ensures Mappable(Select(schema, partitions, true)) && Mappable(Select(schema, partitions, false))
  {
    hide ArrowToHive;
  }

  /** Two partition columns given in the other order are answered that way and loaded in schema order. */
  lemma ReversedPartitionsDiffer(a: Field, b: Field)
    requires a.name != b.name
    ensures !exists ix :: PicksAll([a, b], [b.name, a.name], [b.name, a.name], ix)
    ensures FieldNames(Select([a, b], [b.name, a.name], true)) == [a.name, b.name]
  {
    var schema, given := [a, b], [b.name, a.name];
    assert schema[..1] == [a] && [a][..0] == [];
    assert Select([a], given, true) == [a];
    assert Select(schema, given, true) == [a, b];
    PartitionsComeBack(schema, given);
    assert given[0] != [a.name, b.name][0];
  }

  // ---- where tables are put

  lemma IdentifierIsPlain(s: string)
    requires IsIdentifier(s)
    ensures '/' !in s && '.' !in s
  {
  }

  lemma TailIsWhole(a: string, b: string)
    requires '/' !in a && '/' !in b && a + "/" <= b + "/"
    ensures a == b
  {
    assert (a + "/")[|a|] == '/' == (b + "/")[|a|];
    assert forall i :: 0 <= i < |b| ==> b[i] != '/';
    assert a == (a + "/")[..|a|] == (b + "/")[..|a|];
  }

  lemma DirIsWhole(d: string, t: string, e: string, u: string)
    requires '/' !in d && '/' !in e && d + "/" + t <= e + "/" + u
    ensures d == e && t <= u
  {
    var s, r := d + "/" + t, e + "/" + u;
    assert s[|d|] == '/' == r[|d|];
    assert forall i :: 0 <= i < |e| ==> e[i] != '/' && r[i] == e[i];
    assert forall i :: 0 <= i < |d| ==> d[i] != '/' && r[i] == d[i];
    assert r[|e|] == '/';
    assert d == s[..|d|] == r[..|d|];
    assert t == s[|d| + 1..] && u == r[|e| + 1..];
  }

  /** Default locations lie below the warehouse, end in a slash, and no table's is at or below another's. A
      given location is kept, up to a trailing slash, whatever the names are. */
  lemma LocationsAreApart(cat: LocalCatalog, d: string, t: string, e: string, u: string, at: string)
    ensures ResolveCreateLocation(cat, d, t, Some(at)) == Ok(if at != "" && at[|at| - 1] == '/' then at else at + "/")
    ensures ResolveCreateLocation(cat, d, t, None).Ok? <==> IsIdentifier(d) && IsIdentifier(t)
    ensures ResolveCreateLocation(cat, d, t, None).Ok? ==>
              var r := ResolveCreateLocation(cat, d, t, None).value;
              r == TrimSlashes(cat.warehouse) + "/" + d + ".db/" + t + "/"
    ensures var a, b := ResolveCreateLocation(cat, d, t, None), ResolveCreateLocation(cat, e, u, None);
            a.Ok? && b.Ok? && a.value <= b.value ==> d == e && t == u
  {
    var a, b := ResolveCreateLocation(cat, d, t, None), ResolveCreateLocation(cat, e, u, None);
    if a.Ok? && b.Ok? && a.value <= b.value {
      hide TrimSlashes, IsIdentifier;
      IdentifierIsPlain(d);
      IdentifierIsPlain(t);
      IdentifierIsPlain(e);
      IdentifierIsPlain(u);
      Apart(TrimSlashes(cat.warehouse), d, t, e, u);
    }
  }

  lemma Apart(root: string, d: string, t: string, e: string, u: string)
    requires '/' !in d && '/' !in t && '/' !in e && '/' !in u
    requires root + "/" + d + ".db/" + t + "/" <= root + "/" + e + ".db/" + u + "/"
    ensures d == e && t == u
  {
    var x, y := (d + ".db") + "/" + (t + "/"), (e + ".db") + "/" + (u + "/");
    Below(root + "/", x, y) by {
      assert root + "/" + d + ".db/" + t + "/" == root + "/" + x;
      assert root + "/" + e + ".db/" + u + "/" == root + "/" + y;
    }
    DirIsWhole(d + ".db", t + "/", e + ".db", u + "/");
    assert d == (d + ".db")[..|d|] && e == (e + ".db")[..|e|];
    TailIsWhole(t, u);
  }

  lemma Below(root: string, x: string, y: string)
    requires root + x <= root + y
    ensures x <= y
  {
    assert x == (root + x)[|root|..] && y == (root + y)[|root|..];
  }
}
