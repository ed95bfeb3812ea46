/** Tables found by scanning a directory: one flat listing, grouped by first path segment. */
module Discovery {
  import opened Catalogs
  import opened Collections
  import opened Sniffing
  import opened Strings
  import opened TableFormats
  import opened Wrappers

  /** The segments of an object's path below the scanned root. */
  type Path = seq<string>

  /** The lower-cased extension of a file name, if it has a plain one. */
  function ExtensionOf(name: string): Option<string> {
    match SplitLast(name, '.')
    case None => None
    case Some((_, ext)) =>
      if ext != "" && forall c <- ext :: 'a' <= c <= 'z' || 'A' <= c <= 'Z' || '0' <= c <= '9'
      then Some(Lower(ext)) else None
  }

  // ---- what one path adds

  /** To its table's entries, in order: a file, or a directory and the kind of the file below it. */
  function EntriesAt(path: Path): seq<DirEntry> {
    if |path| < 2 then []
    else if |path| == 2 then [DirEntry(path[1], false)]
    else
      [DirEntry(path[1], true)] +
      match ExtensionOf(path[|path| - 1])
      case None => []
      case Some(ext) => [DirEntry("nested." + ext, false)]
  }

  /** The partition key at a depth below the table: what is before the `=` of that directory's name. */
  function KeyAt(path: Path, depth: nat): Option<string> {
    if depth + 2 < |path| then
      match SplitOnce(path[1 + depth], '=')
      case None => None
      case Some((key, _)) => Some(key)
    else None
  }

  // ---- what a listing means

  function Heads(listing: seq<Path>): set<string> {
    set p | p in listing && |p| >= 2 :: p[0]
  }

  function EntriesOf(listing: seq<Path>, table: string): set<DirEntry> {
    set p, e | p in listing && |p| >= 2 && p[0] == table && e in EntriesAt(p) :: e
  }

  /** Added at the end where they are not there yet. */
  function Pushed(entries: seq<DirEntry>, more: seq<DirEntry>): seq<DirEntry> {
    if more == [] then entries
    else
      var front, last := Pushed(entries, more[..|more| - 1]), more[|more| - 1];
      if last in front then front else front + [last]
  }

  /** The same entries in the order the listing shows them. */
  function EntriesIn(listing: seq<Path>, table: string): seq<DirEntry> {
    if listing == [] then []
    else
      var front, last := EntriesIn(listing[..|listing| - 1], table), listing[|listing| - 1];
      if |last| >= 2 && last[0] == table then Pushed(front, EntriesAt(last)) else front
  }

  /** The first key seen at a depth under the table. */
  function FirstKey(listing: seq<Path>, table: string, depth: nat): Option<string> {
    if listing == [] then None
    else if listing[0] != [] && listing[0][0] == table && KeyAt(listing[0], depth).Some? then KeyAt(listing[0], depth)
    else FirstKey(listing[1..], table, depth)
  }

  function Deepest(listing: seq<Path>): nat {
    if listing == [] then 0 else if |listing[0]| > Deepest(listing[1..]) then |listing[0]| else Deepest(listing[1..])
  }

  /** The keys of depths below `n`, outermost first. */
  function Columns(listing: seq<Path>, table: string, n: nat): seq<string> {
    if n == 0 then []
    else
      Columns(listing, table, n - 1) +
      match FirstKey(listing, table, n - 1)
      case None => []
      case Some(key) => [key]
  }

  function JoinLocation(root: string, table: string): string {
    TrimSlashes(root) + "/" + table + "/"
  }

  /** What the listing shows under a name as a directory: nothing, a table, or a name that stops the scan. */
  datatype Shown = Absent | Stopped | Shows(table: DeclaredTable)

  function TableOf(root: string, listing: seq<Path>, table: string): Shown {
    match SniffFormat(EntriesIn(listing, table))
    case Panics => Stopped
    case Format(None) => Absent
    case Format(Some(format)) =>
      var columns := if format.Delta? || format.Iceberg? then [] else Columns(listing, table, Deepest(listing));
      Shows(DeclaredTable(JoinLocation(root, table), format, map[], columns))
  }

  // ---- order does not matter

  ghost predicate SamePaths(a: seq<Path>, b: seq<Path>) {
    forall p: Path :: p in a <==> p in b
  }

  /** At each depth the paths of the table agree on the key. */
  ghost predicate OneKey(listing: seq<Path>, table: string, depth: nat) {
    forall p, q :: p in listing && q in listing && Keyed(p, table, depth) && Keyed(q, table, depth) ==>
      KeyAt(p, depth) == KeyAt(q, depth)
  }

  predicate Keyed(p: Path, table: string, depth: nat) {
    p != [] && p[0] == table && KeyAt(p, depth).Some?
  }

  lemma {:induction false} FirstKeyIs(listing: seq<Path>, table: string, depth: nat)
    ensures FirstKey(listing, table, depth).Some? <==> exists p <- listing :: Keyed(p, table, depth)
    ensures FirstKey(listing, table, depth).Some? ==>
              exists p <- listing :: Keyed(p, table, depth) && KeyAt(p, depth) == FirstKey(listing, table, depth)
  {
    hide KeyAt;
    if listing != [] {
      FirstKeyIs(listing[1..], table, depth);
      assert forall p <- listing :: p == listing[0] || p in listing[1..];
      assert listing[0] in listing && forall p <- listing[1..] :: p in listing;
    }
  }

  lemma SameKeys(a: seq<Path>, b: seq<Path>, table: string, depth: nat)
    requires SamePaths(a, b) && OneKey(a, table, depth)
    ensures FirstKey(a, table, depth) == FirstKey(b, table, depth)
  {
    hide KeyAt, FirstKey;
    FirstKeyIs(a, table, depth);
    FirstKeyIs(b, table, depth);
  }

  lemma {:induction false} SameColumns(a: seq<Path>, b: seq<Path>, table: string, n: nat)
    requires SamePaths(a, b) && forall d: nat :: d < n ==> OneKey(a, table, d)
    ensures Columns(a, table, n) == Columns(b, table, n)
  {
    hide OneKey, SamePaths, FirstKey;
    if n > 0 {
      assert OneKey(a, table, n - 1);
      SameKeys(a, b, table, n - 1);
      SameColumns(a, b, table, n - 1);
    }
  }

  lemma {:induction false} DeepestIs(listing: seq<Path>)
    ensures forall p <- listing :: |p| <= Deepest(listing)
    ensures Deepest(listing) > 0 ==> exists p <- listing :: |p| == Deepest(listing)
  {
    if listing != [] {
      DeepestIs(listing[1..]);
      assert forall p <- listing :: p == listing[0] || p in listing[1..];
      assert listing[0] in listing && forall p <- listing[1..] :: p in listing;
    }
  }

  lemma SameDepth(a: seq<Path>, b: seq<Path>)
    requires SamePaths(a, b)
    ensures Deepest(a) == Deepest(b)
  {
    DeepestIs(a);
    DeepestIs(b);
  }

  lemma SameEntries(a: seq<Path>, b: seq<Path>, table: string)
    requires SamePaths(a, b)
    ensures Heads(a) == Heads(b) && EntriesOf(a, table) == EntriesOf(b, table)
  {
    hide EntriesAt;
  }

  lemma {:induction false} PushedElements(entries: seq<DirEntry>, more: seq<DirEntry>)
    ensures Elements(Pushed(entries, more)) == Elements(entries) + Elements(more)
    ensures entries <= Pushed(entries, more)
  {
    if more != [] {
      var front, last := more[..|more| - 1], more[|more| - 1];
      PushedElements(entries, front);
      var all := Pushed(entries, front);
      assert Elements(more) == Elements(front) + {last};
      assert Elements(all + [last]) == Elements(all) + {last};
      assert last in all <==> last in Elements(all);
    }
  }

  lemma {:induction false} EntriesInAreOf(listing: seq<Path>, table: string)
    ensures Elements(EntriesIn(listing, table)) == EntriesOf(listing, table)
  {
    hide EntriesAt;
    if listing != [] {
      var front, last := listing[..|listing| - 1], listing[|listing| - 1];
      assert listing == front + [last];
      EntriesInAreOf(front, table);
      EntriesMore(front, last, table);
      if |last| >= 2 && last[0] == table {
        PushedElements(EntriesIn(front, table), EntriesAt(last));
      }
    }
  }

  lemma EntriesMore(listing: seq<Path>, path: Path, table: string)
    ensures EntriesOf(listing + [path], table) ==
            EntriesOf(listing, table) + if |path| >= 2 && path[0] == table then Elements(EntriesAt(path)) else {}
  {
    hide EntriesAt;
    assert forall p :: p in listing + [path] <==> p in listing || p == path;
  }

  /** What the entries of the table come to in every order. */
  function SettledOf(listing: seq<Path>, table: string): Option<Sniff> {
    Settled(EntriesOf(listing, table))
  }

  lemma SettledShows(listing: seq<Path>, table: string)
    requires SettledOf(listing, table).Some?
    ensures SniffFormat(EntriesIn(listing, table)) == SettledOf(listing, table).value
  {
    EntriesInAreOf(listing, table);
    SettledIsSniffed(EntriesIn(listing, table));
  }

  /** Any order of the same listing shows the same directory-backed tables, with the same location and format
      where the entries are settled, and with the same partition columns where each depth uses one key. */
  lemma OrderDoesNotMatter(root: string, a: seq<Path>, b: seq<Path>, table: string)
    requires SamePaths(a, b) && SettledOf(a, table).Some?
    ensures var s, t := TableOf(root, a, table), TableOf(root, b, table);
            && (s.Absent? <==> t.Absent?) && (s.Stopped? <==> t.Stopped?)
            && (s.Shows? ==>
                  && s.table.location == t.table.location
                  && s.table.format == t.table.format
                  && s.table.storageOptions == t.table.storageOptions)
    ensures (forall d: nat :: OneKey(a, table, d)) ==> TableOf(root, a, table) == TableOf(root, b, table)
  {
    hide SniffFormat, Settled, EntriesOf, Columns, OneKey, EntriesIn;
    SameEntries(a, b, table);
    SameDepth(a, b);
    SettledShows(a, table);
    SettledShows(b, table);
    if forall d: nat :: OneKey(a, table, d) {
      SameColumns(a, b, table, Deepest(a));
    }
  }

  /** In particular for names in ASCII, where the scan never stops. */
  lemma AsciiListingSettles(listing: seq<Path>, table: string)
    requires forall p <- listing :: |p| == 2 && p[0] == table ==> IsAscii(p[1])
    ensures SettledOf(listing, table).Some? && SettledOf(listing, table).value.Format?
  {
    hide Settled;
    forall e <- EntriesOf(listing, table)
      ensures e.isDir || IsAscii(e.name)
    {
      var p :| p in listing && |p| >= 2 && p[0] == table && e in EntriesAt(p);
      if |p| > 2 && !e.isDir {
        NestedIsAscii(p[|p| - 1], e);
      }
    }
    AsciiSettles(EntriesOf(listing, table));
  }

  lemma NestedIsAscii(file: string, e: DirEntry)
    requires ExtensionOf(file).Some? && e.name == "nested." + ExtensionOf(file).value
    ensures IsAscii(e.name)
  {
    var raw := SplitLast(file, '.').value.1;
    assert forall i :: 0 <= i < |raw| ==> raw[i] in raw;
    assert IsAscii("nested.") && IsAscii(Lower(raw));
  }

  /** A table with a Delta log is Delta, whatever else lies beside it. */
  lemma DeltaLogDecides(root: string, listing: seq<Path>, path: Path)
    requires path in listing && |path| >= 3 && IsDeltaLog(DirEntry(path[1], true))
    ensures TableOf(root, listing, path[0]) == Shows(DeclaredTable(JoinLocation(root, path[0]), Delta, map[], []))
  {
    hide ExtensionOf, IsDeltaLog, EntriesIn;
    var e := DirEntry(path[1], true);
    assert EntriesAt(path)[0] == e && e in EntriesAt(path);
    assert e in EntriesOf(listing, path[0]);
    EntriesInAreOf(listing, path[0]);
  }

  // ---- the scan

  method PushUnique(entries: seq<DirEntry>, more: seq<DirEntry>) returns (all: seq<DirEntry>)
    ensures all == Pushed(entries, more)
  {
    all := entries;
    for i := 0 to |more|
      invariant all == Pushed(entries, more[..i])
    {
      assert more[..i + 1][..i] == more[..i];
      if more[i] !in all {
        all := all + [more[i]];
      }
    }
    assert more[..|more|] == more;
  }

  type Keys = map<nat, string>

  function KeyOf(keys: Keys, depth: nat): Option<string> {
    if depth in keys then Some(keys[depth]) else None
  }

  /** Note the keys of a path's directories where none is known yet. */
  method NoteKeys(path: Path, keys: Keys) returns (all: Keys)
    requires |path| >= 3
    ensures forall d: nat :: KeyOf(all, d) == if KeyOf(keys, d).Some? then KeyOf(keys, d) else KeyAt(path, d)
  {
    all := keys;
    for depth := 0 to |path| - 2
      invariant forall d: nat ::
                  KeyOf(all, d) == if KeyOf(keys, d).Some? || d >= depth then KeyOf(keys, d) else KeyAt(path, d)
    {
      var split := SplitOnce(path[1 + depth], '=');
      if split.Some? && depth !in all {
        all := all[depth := split.value.0];
      }
    }
  }

  /** What the loop has gathered: per table its entries, and its keys by depth. */
  datatype Gathered = Gathered(children: map<string, seq<DirEntry>>, partitions: map<string, Keys>, bare: seq<string>)

  function KeyIn(partitions: map<string, Keys>, table: string, depth: nat): Option<string> {
    if table in partitions then KeyOf(partitions[table], depth) else None
  }

  /** The files right under the root, in listing order. */
  function BareFiles(listing: seq<Path>): seq<string> {
    if listing == [] then []
    else
      var front, last := BareFiles(listing[..|listing| - 1]), listing[|listing| - 1];
      if |last| == 1 then front + [last[0]] else front
  }

  ghost predicate Reflects(g: Gathered, listing: seq<Path>) {
    && g.children.Keys == Heads(listing)
    && (forall t <- g.children :: g.children[t] == EntriesIn(listing, t))
    && (forall t: string, d: nat :: KeyIn(g.partitions, t, d) == FirstKey(listing, t, d))
    && g.bare == BareFiles(listing)
  }

  lemma HeadsMore(listing: seq<Path>, path: Path)
    ensures Heads(listing + [path]) == Heads(listing) + if |path| >= 2 then {path[0]} else {}
  {
    assert forall p :: p in listing + [path] <==> p in listing || p == path;
  }

  lemma {:induction false} FirstKeyMore(listing: seq<Path>, path: Path, table: string, depth: nat)
    ensures FirstKey(listing + [path], table, depth) ==
            if FirstKey(listing, table, depth).Some? then FirstKey(listing, table, depth)
            else if Keyed(path, table, depth) then KeyAt(path, depth) else None
  {
    hide KeyAt;
    if listing == [] {
      assert listing + [path] == [path] && [path][1..] == [];
    } else {
      assert (listing + [path])[1..] == listing[1..] + [path];
      FirstKeyMore(listing[1..], path, table, depth);
    }
  }

  ghost predicate ChildrenGrow(children: map<string, seq<DirEntry>>, path: Path, children': map<string, seq<DirEntry>>) {
    && children'.Keys == children.Keys + (if |path| >= 2 then {path[0]} else {})
    && forall t <- children' ::
         var had := if t in children then children[t] else [];
         children'[t] == if |path| >= 2 && t == path[0] then Pushed(had, EntriesAt(path)) else had
  }

  method AddEntries(children: map<string, seq<DirEntry>>, path: Path) returns (children': map<string, seq<DirEntry>>)
    ensures ChildrenGrow(children, path, children')
  {
    hide EntriesAt;
    children' := children;
    if |path| >= 2 {
      var entries := PushUnique(if path[0] in children then children[path[0]] else [], EntriesAt(path));
      children' := children[path[0] := entries];
    }
  }

  ghost predicate KeysGrow(partitions: map<string, Keys>, path: Path, partitions': map<string, Keys>) {
    forall t: string, d: nat ::
      KeyIn(partitions', t, d) ==
      if KeyIn(partitions, t, d).Some? then KeyIn(partitions, t, d)
      else if Keyed(path, t, d) then KeyAt(path, d) else None
  }

  method AddKeys(partitions: map<string, Keys>, path: Path) returns (partitions': map<string, Keys>)
    ensures KeysGrow(partitions, path, partitions')
  {
    hide KeyAt;
    partitions' := partitions;
    if |path| >= 3 {
      var keys := NoteKeys(path, if path[0] in partitions then partitions[path[0]] else map[]);
      partitions' := partitions[path[0] := keys];
    } else {
      NoKeys(path);
    }
  }

  /** One object of the listing. */
  method Gather(g: Gathered, path: Path, ghost listing: seq<Path>) returns (g': Gathered)
    requires Reflects(g, listing)
    ensures Reflects(g', listing + [path])
  {
    hide Reflects, ChildrenGrow, KeysGrow;
    var children := AddEntries(g.children, path);
    var partitions := AddKeys(g.partitions, path);
    g' := Gathered(children, partitions, if |path| == 1 then g.bare + [path[0]] else g.bare);
    GatherReflects(g, path, listing, g');
  }

  lemma GatherReflects(g: Gathered, path: Path, listing: seq<Path>, g': Gathered)
    requires Reflects(g, listing)
    requires ChildrenGrow(g.children, path, g'.children)
    requires KeysGrow(g.partitions, path, g'.partitions)
    requires g'.bare == if |path| == 1 then g.bare + [path[0]] else g.bare
    ensures Reflects(g', listing + [path])
  {
    hide EntriesAt, KeyAt, FirstKey, Heads, Pushed;
    HeadsMore(listing, path);
    assert (listing + [path])[..|listing|] == listing;
    forall t <- g'.children
      ensures g'.children[t] == EntriesIn(listing + [path], t)
    {
      if t !in g.children {
        NoEntries(listing, t);
      }
    }
    forall t: string, d: nat
      ensures KeyIn(g'.partitions, t, d) == FirstKey(listing + [path], t, d)
    {
      FirstKeyMore(listing, path, t, d);
    }
    assert (listing + [path])[..|listing|] == listing;
  }

  lemma NoKeys(path: Path)
    requires |path| < 3
    ensures forall d: nat :: KeyAt(path, d).None?
  {
  }

  lemma {:induction false} NoEntries(listing: seq<Path>, table: string)
    requires table !in Heads(listing)
    ensures EntriesIn(listing, table) == []
  {
    if listing != [] {
      var front, last := listing[..|listing| - 1], listing[|listing| - 1];
      assert listing == front + [last];
      HeadsMore(front, last);
      NoEntries(front, table);
    }
  }

  /** The keys in order of depth. */
  method ColumnList(keys: Keys, n: nat, ghost listing: seq<Path>, ghost table: string) returns (columns: seq<string>)
    requires forall d: nat :: KeyOf(keys, d) == FirstKey(listing, table, d)
    ensures columns == Columns(listing, table, n)
  {
    hide FirstKey;
    columns := [];
    for d := 0 to n
      invariant columns == Columns(listing, table, d)
    {
      assert KeyOf(keys, d) == FirstKey(listing, table, d);
      if d in keys {
        columns := columns + [keys[d]];
      }
    }
  }

  /** The table of one directory, if its entries show a format. */
  method DirectoryTable(root: string, g: Gathered, table: string, depth: nat, ghost listing: seq<Path>)
    returns (r: Shown)
    requires Reflects(g, listing) && table in g.children && depth == Deepest(listing)
    ensures r == TableOf(root, listing, table)
  {
    hide Heads, EntriesIn, FirstKey, SniffFormat, Columns, Deepest;
    var sniff := SniffFormat(g.children[table]);
    if sniff.Panics? {
      return Stopped;
    }
    var format := sniff.format;
    if format.None? {
      return Absent;
    }
    var columns: seq<string> := [];
    if !format.value.Delta? && !format.value.Iceberg? {
      var keys := if table in g.partitions then g.partitions[table] else map[];
      assert forall d: nat :: KeyOf(keys, d) == KeyIn(g.partitions, table, d);
      columns := ColumnList(keys, depth, listing, table);
    }
    r := Shows(DeclaredTable(JoinLocation(root, table), format.value, map[], columns));
  }

  function SniffFileFormat(name: string): Option<TableFormat> {
    match SplitLast(Lower(name), '.')
    case None => None
    case Some((_, ext)) =>
      if ext == "parquet" || ext == "parq" then Some(Parquet)
      else if ext == "csv" || ext == "tsv" then Some(Csv)
      else if ext == "json" || ext == "ndjson" || ext == "jsonl" then Some(Json)
      else None
  }

  function FileStem(name: string): string {
    match SplitLast(name, '.')
    case None => name
    case Some((stem, _)) => stem
  }

  /** The single-file tables: one for each data file, in listing order. */
  function FileTables(root: string, names: seq<string>): seq<(string, DeclaredTable)> {
    if names == [] then []
    else
      var front, last := FileTables(root, names[..|names| - 1]), names[|names| - 1];
      match SniffFileFormat(last)
      case None => front
      case Some(format) =>
        front + [(FileStem(last), DeclaredTable(TrimSlashes(root) + "/" + last, format, map[], []))]
  }

  method ListFileTables(root: string, names: seq<string>) returns (files: seq<(string, DeclaredTable)>)
    ensures files == FileTables(root, names)
  {
    hide SniffFileFormat, FileStem, TrimSlashes;
    files := [];
    for i := 0 to |names|
      invariant files == FileTables(root, names[..i])
    {
      assert names[..i + 1][..i] == names[..i];
      var format := SniffFileFormat(names[i]);
      if format.None? {
        continue;
      }
      files := files + [(FileStem(names[i]), DeclaredTable(TrimSlashes(root) + "/" + names[i], format.value, map[], []))];
    }
    assert names[..|names|] == names;
  }

  function Find(tables: map<string, DeclaredTable>, table: string): Shown {
    if table in tables then Shows(tables[table]) else Absent
  }

  /** Scan a listing: the tables of its directories and of its bare files. Nothing comes of it when one
      directory has a name that stops the scan. */
  method DiscoverTables(root: string, listing: seq<Path>)
    returns (r: Option<(map<string, DeclaredTable>, seq<(string, DeclaredTable)>)>)
    ensures r.None? <==> exists t: string :: TableOf(root, listing, t).Stopped?
    ensures r.Some? ==> forall t: string :: Find(r.value.0, t) == TableOf(root, listing, t)
    ensures r.Some? ==> r.value.1 == FileTables(root, BareFiles(listing))
  {
    hide Heads, TableOf, EntriesIn, FirstKey, FileTables;
    var g := Gathered(map[], map[], []);
    NothingGathered();
    for i := 0 to |listing|
      invariant Reflects(g, listing[..i])
    {
      hide Reflects;
      assert listing[..i + 1] == listing[..i] + [listing[i]];
      g := Gather(g, listing[i], listing[..i]);
    }
    assert listing[..|listing|] == listing;
    var depth := Deepest(listing);
    var tables: map<string, DeclaredTable> := map[];
    var rest := g.children.Keys;
    while rest != {}
      invariant rest <= g.children.Keys
      invariant forall t: string :: t in g.children.Keys - rest ==> Find(tables, t) == TableOf(root, listing, t)
      invariant forall t: string :: t in tables ==> t in g.children.Keys - rest
      decreases |rest|
    {
      var t :| t in rest;
      var found := DirectoryTable(root, g, t, depth, listing);
      if found.Stopped? {
        return None;
      }
      if found.Shows? {
        tables := tables[t := found.table];
      }
      rest := rest - {t};
    }
    forall t: string | t !in g.children
      ensures TableOf(root, listing, t).Absent?
    {
      NotThere(root, listing, t);
    }
    assert forall t: string :: Find(tables, t) == TableOf(root, listing, t);
    var files := ListFileTables(root, g.bare);
    r := Some((tables, files));
  }

  lemma NothingGathered()
    ensures Reflects(Gathered(map[], map[], []), [])
  {
  }

  lemma NotThere(root: string, listing: seq<Path>, table: string)
    requires table !in Heads(listing)
    ensures TableOf(root, listing, table).Absent?
  {
    NoEntries(listing, table);
    NothingSniffed();
  }

  lemma NothingSniffed()
    ensures SniffFormat([]) == Format(None)
  {
    assert SniffPlain([], PLAIN[3..]) == Format(None);
    assert PLAIN[2..][1..] == PLAIN[3..] && PLAIN[1..][1..] == PLAIN[2..];
    assert SniffPlain([], PLAIN[2..]) == Format(None);
    assert SniffPlain([], PLAIN[1..]) == Format(None);
  }

  // ---- and exactly when it does

  ghost predicate Permuted(a: seq<Path>, b: seq<Path>) {
    multiset(a) == multiset(b)
  }

  lemma PermutedIsSame(a: seq<Path>, b: seq<Path>)
    requires Permuted(a, b)
    ensures SamePaths(a, b)
  {
    forall p: Path
      ensures p in a <==> p in b
    {
      assert p in a <==> p in multiset(a);
      assert p in b <==> p in multiset(b);
    }
  }

  /** The listing with its i-th path first. */
  function Front(listing: seq<Path>, i: nat): seq<Path>
    requires i < |listing|
  {
    [listing[i]] + (listing[..i] + listing[i + 1..])
  }

  lemma FrontIsPermuted(listing: seq<Path>, i: nat)
    requires i < |listing|
    ensures Permuted(listing, Front(listing, i)) && SamePaths(listing, Front(listing, i))
  {
    assert listing == listing[..i] + [listing[i]] + listing[i + 1..];
    PermutedIsSame(listing, Front(listing, i));
  }

  lemma FrontDecides(listing: seq<Path>, i: nat, table: string, depth: nat)
    requires i < |listing| && Keyed(listing[i], table, depth)
    ensures FirstKey(Front(listing, i), table, depth) == KeyAt(listing[i], depth)
  {
  }

  lemma {:induction false} ColumnsDetermine(a: seq<Path>, b: seq<Path>, table: string, n: nat, depth: nat)
    requires SamePaths(a, b) && depth < n && Columns(a, table, n) == Columns(b, table, n)
    ensures FirstKey(a, table, depth) == FirstKey(b, table, depth)
    decreases n
  {
    hide FirstKey, KeyAt;
    FirstKeyIs(a, table, n - 1);
    FirstKeyIs(b, table, n - 1);
    var ca, cb := Columns(a, table, n - 1), Columns(b, table, n - 1);
    var ka, kb := FirstKey(a, table, n - 1), FirstKey(b, table, n - 1);
    if ka.Some? {
      assert Columns(a, table, n) == ca + [ka.value] && Columns(b, table, n) == cb + [kb.value];
      assert (ca + [ka.value])[|ca|] == ka.value && (cb + [kb.value])[|cb|] == kb.value;
      assert (ca + [ka.value])[..|ca|] == ca && (cb + [kb.value])[..|cb|] == cb;
    } else {
      assert Columns(a, table, n) == ca && Columns(b, table, n) == cb;
    }
    if depth < n - 1 {
      ColumnsDetermine(a, b, table, n - 1, depth);
    }
  }

  ghost predicate SameAnyOrder(root: string, listing: seq<Path>, table: string) {
    forall b: seq<Path> :: Permuted(listing, b) ==> TableOf(root, b, table) == TableOf(root, listing, table)
  }

  lemma OrdersDiffer(root: string, listing: seq<Path>, table: string, i: nat, j: nat)
    requires i < |listing| && j < |listing|
    requires TableOf(root, Front(listing, i), table) != TableOf(root, Front(listing, j), table)
    ensures !SameAnyOrder(root, listing, table)
  {
    hide TableOf, Front;
    FrontIsPermuted(listing, i);
    FrontIsPermuted(listing, j);
  }

  /** The table's files are read in plain formats, whose partition columns come from the paths. */
  predicate IsPlain(sniff: Sniff) {
    sniff.Format? && sniff.format.Some? && !sniff.format.value.Delta? && !sniff.format.value.Iceberg?
  }

  lemma KeyIsShallow(p: Path, depth: nat)
    requires KeyAt(p, depth).Some?
    ensures depth < |p|
  {
  }

  lemma TwoKeysTwoOrders(root: string, listing: seq<Path>, table: string, depth: nat, i: nat, j: nat)
    requires i < |listing| && j < |listing| && Keyed(listing[i], table, depth) && Keyed(listing[j], table, depth)
    requires KeyAt(listing[i], depth) != KeyAt(listing[j], depth)
    requires SettledOf(listing, table).Some? && IsPlain(SettledOf(listing, table).value)
    ensures !SameAnyOrder(root, listing, table)
  {
    hide KeyAt, FirstKey, Columns, Settled, SniffFormat, EntriesOf, EntriesIn;
    var a, b := Front(listing, i), Front(listing, j);
    FrontIsPermuted(listing, i);
    FrontIsPermuted(listing, j);
    FrontDecides(listing, i, table, depth);
    FrontDecides(listing, j, table, depth);
    SameEntries(listing, a, table);
    SameEntries(listing, b, table);
    SettledShows(a, table);
    SettledShows(b, table);
    SameDepth(listing, a);
    SameDepth(listing, b);
    DeepestIs(listing);
    KeyIsShallow(listing[i], depth);
    assert listing[i] in listing;
    if Columns(a, table, Deepest(listing)) == Columns(b, table, Deepest(listing)) {
      ColumnsDetermine(a, b, table, Deepest(listing), depth);
    }
    OrdersDiffer(root, listing, table, i, j);
  }

  /** The entries of the first path come first. */
  lemma {:induction false} FirstPathLeads(path: Path, rest: seq<Path>, table: string)
    requires |path| >= 2 && path[0] == table
    ensures EntriesAt(path) <= EntriesIn([path] + rest, table)
    decreases |rest|
  {
    var listing := [path] + rest;
    hide EntriesAt;
    if rest == [] {
      assert listing[..0] == [] && listing == [path];
      DistinctEntries(path);
    } else {
      var last := rest[|rest| - 1];
      assert listing[..|listing| - 1] == [path] + rest[..|rest| - 1];
      FirstPathLeads(path, rest[..|rest| - 1], table);
      PushedElements(EntriesIn([path] + rest[..|rest| - 1], table), EntriesAt(last));
    }
  }

  lemma DistinctEntries(path: Path)
    ensures Pushed([], EntriesAt(path)) == EntriesAt(path)
  {
    var es := EntriesAt(path);
    if |es| == 1 {
      assert es[..0] == [];
    } else if |es| == 2 {
      assert es[0].isDir && !es[1].isDir;
      assert es[..1] == [es[0]] && [es[0]][..0] == [];
      assert Pushed([], [es[0]]) == [es[0]];
    }
  }

  lemma FileLeads(path: Path, e: DirEntry, order: seq<DirEntry>)
    requires e in EntriesAt(path) && !e.isDir && EntriesAt(path) <= order
    ensures Leads(order, e)
  {
    hide ExtensionOf;
    assert order[0] == EntriesAt(path)[0];
    if |EntriesAt(path)| > 1 {
      assert order[1] == EntriesAt(path)[1];
    }
  }

  lemma FrontSniffs(listing: seq<Path>, i: nat, table: string, e: DirEntry, outcome: Sniff)
    requires i < |listing| && |listing[i]| >= 2 && listing[i][0] == table && e in EntriesAt(listing[i]) && !e.isDir
    requires Decides(EntriesOf(listing, table), e, outcome)
    ensures SniffFormat(EntriesIn(Front(listing, i), table)) == outcome
  {
    hide SniffFormat, EntriesAt, EntriesOf, EntriesIn, Leads;
    var order := EntriesIn(Front(listing, i), table);
    FrontIsPermuted(listing, i);
    SameEntries(listing, Front(listing, i), table);
    EntriesInAreOf(Front(listing, i), table);
    FirstPathLeads(listing[i], listing[..i] + listing[i + 1..], table);
    FileLeads(listing[i], e, order);
  }

  lemma EntryHasPath(listing: seq<Path>, table: string, e: DirEntry) returns (i: nat)
    requires e in EntriesOf(listing, table)
    ensures i < |listing| && |listing[i]| >= 2 && listing[i][0] == table && e in EntriesAt(listing[i])
  {
    hide EntriesAt;
    var p :| p in listing && |p| >= 2 && p[0] == table && e in EntriesAt(p);
    i :| 0 <= i < |listing| && listing[i] == p;
  }

  lemma UnsettledOrders(root: string, listing: seq<Path>, table: string)
    requires SettledOf(listing, table).None?
    ensures !SameAnyOrder(root, listing, table)
  {
    hide Settled, SniffFormat, EntriesAt, EntriesOf, EntriesIn, Decides;
    var yes, stop, format := UnsettledDecides(EntriesOf(listing, table));
    var i := EntryHasPath(listing, table, yes);
    var j := EntryHasPath(listing, table, stop);
    FrontSniffs(listing, i, table, yes, Format(Some(format)));
    FrontSniffs(listing, j, table, stop, Panics);
    OrdersDiffer(root, listing, table, i, j);
  }

  /** Every order of the listing shows the same under a name exactly when its entries are settled and, if its
      files are in a plain format, each depth uses one key. */
  lemma OrderMattersExactly(root: string, listing: seq<Path>, table: string)
    ensures SameAnyOrder(root, listing, table) <==>
            && SettledOf(listing, table).Some?
            && (IsPlain(SettledOf(listing, table).value) ==> forall d: nat :: OneKey(listing, table, d))
  {
    hide TableOf, Keyed, SettledOf, IsPlain;
    if SettledOf(listing, table).None? {
      UnsettledOrders(root, listing, table);
    } else if !IsPlain(SettledOf(listing, table).value) {
      SettledIsSame(root, listing, table);
    } else if forall d: nat :: OneKey(listing, table, d) {
      forall b: seq<Path> | Permuted(listing, b)
        ensures TableOf(root, b, table) == TableOf(root, listing, table)
      {
        PermutedIsSame(listing, b);
        OrderDoesNotMatter(root, listing, b, table);
      }
    } else {
      var d: nat :| !OneKey(listing, table, d);
      var p, q :| p in listing && q in listing && Keyed(p, table, d) && Keyed(q, table, d) && KeyAt(p, d) != KeyAt(q, d);
      var i :| 0 <= i < |listing| && listing[i] == p;
      var j :| 0 <= j < |listing| && listing[j] == q;
      TwoKeysTwoOrders(root, listing, table, d, i, j);
    }
  }

  lemma SettledIsSame(root: string, listing: seq<Path>, table: string)
    requires SettledOf(listing, table).Some? && !IsPlain(SettledOf(listing, table).value)
    ensures SameAnyOrder(root, listing, table)
  {
    hide SniffFormat, Settled, EntriesIn, EntriesOf, Columns;
    forall b: seq<Path> | Permuted(listing, b)
      ensures TableOf(root, b, table) == TableOf(root, listing, table)
    {
      PermutedIsSame(listing, b);
      SameEntries(listing, b, table);
      SettledShows(listing, table);
      SettledShows(b, table);
    }
  }

  // ---- two listings that show something else in another order

  lemma ParquetVotes(entries: set<DirEntry>, file: DirEntry)
    requires file in entries && !file.isDir && IsAscii(file.name)
    requires |file.name| > 8 && file.name[|file.name| - 8..] == ".parquet"
    ensures TestEntry(file, PLAIN[0].0) == Yes && Votes(entries, PLAIN[0].0, Yes)
  {
    assert IsAscii(".parquet");
    AsciiTest(file.name, ".parquet");
  }

  lemma NotAMarker(name: string, marker: string)
    requires '=' in name && '=' !in Lower(marker)
    ensures !SameIgnoringCase(name, marker)
  {
    var i :| 0 <= i < |name| && name[i] == '=';
    assert Lower(name)[i] == '=' && '=' in Lower(name);
  }

  lemma MarkersHaveNoEquals()
    ensures '=' !in Lower("_delta_log") && '=' !in Lower("metadata")
  {
    LowerIsLower("_delta_log");
    LowerIsLower("metadata");
  }

  lemma DirectoryIsNoMarker(e: DirEntry)
    requires e.isDir && '=' in e.name
    ensures !IsDeltaLog(e) && !IsIceberg(e)
  {
    hide SameIgnoringCase;
    MarkersHaveNoEquals();
    NotAMarker(e.name, "_delta_log");
    NotAMarker(e.name, "metadata");
  }

  lemma NestedIsNoMarker()
    ensures var e := DirEntry("nested.parquet", false); !IsDeltaLog(e) && !IsIceberg(e)
  {
    hide SameIgnoringCase;
    var nested := "nested.parquet";
    assert nested[0..] == nested && nested[13] == 't' && ".metadata.json"[13] == 'n';
  }

  lemma PartitionedIsParquet(entries: set<DirEntry>)
    requires DirEntry("nested.parquet", false) in entries
    requires forall e <- entries :: e == DirEntry("nested.parquet", false) || (e.isDir && '=' in e.name)
    ensures Settled(entries) == Some(Format(Some(Parquet)))
  {
    hide TestEntry, IsDeltaLog, IsIceberg;
    NestedIsNoMarker();
    NestedIsParquet(entries);
    forall e <- entries
      ensures !IsDeltaLog(e) && !IsIceberg(e) && TestEntry(e, PLAIN[0].0) != Panic
    {
      if e.isDir {
        DirectoryIsNoMarker(e);
        DirectoriesAnswerNo(e, PLAIN[0].0);
      }
    }
  }

  lemma NestedIsParquet(entries: set<DirEntry>)
    requires DirEntry("nested.parquet", false) in entries
    ensures TestEntry(DirEntry("nested.parquet", false), PLAIN[0].0) == Yes && Votes(entries, PLAIN[0].0, Yes)
  {
    hide TestEntry, Votes;
    assert "nested.parquet"[6..] == ".parquet";
    ParquetVotes(entries, DirEntry("nested.parquet", false));
  }

  lemma DirectoriesAnswerNo(e: DirEntry, suffixes: seq<string>)
    ensures e.isDir ==> TestEntry(e, suffixes) == No
  {
  }

  lemma NestedExtension()
    ensures ExtensionOf("x.parquet") == Some("parquet")
  {
    SplitLastIs("x", "parquet", '.');
    assert "x" + ['.'] + "parquet" == "x.parquet";
    LowerIsLower("parquet");
  }

  /** A file two directories deep, the outer one `key=value`. */
  function InPartition(key: string, value: string): Path {
    ["t", key + ['='] + value, "x.parquet"]
  }

  lemma PartitionEntries(key: string, value: string)
    requires '=' !in key
    ensures KeyAt(InPartition(key, value), 0) == Some(key)
    ensures EntriesAt(InPartition(key, value)) ==
            [DirEntry(key + ['='] + value, true), DirEntry("nested.parquet", false)]
  {
    hide ExtensionOf;
    SplitOnceIs(key, value, '=');
    NestedExtension();
    assert "nested." + "parquet" == "nested.parquet";
  }

  /** Two directories of one table with different keys: the partition column is that of the one listed first. */
  lemma TwoKeysShowInOrder(root: string, a: string, v: string, b: string, w: string)
    requires '=' !in a && '=' !in b && a != b
    ensures !SameAnyOrder(root, [InPartition(a, v), InPartition(b, w)], "t")
  {
    hide Settled, EntriesAt, KeyAt, SameAnyOrder;
    var listing := [InPartition(a, v), InPartition(b, w)];
    PartitionEntries(a, v);
    PartitionEntries(b, w);
    var entries := EntriesOf(listing, "t");
    assert listing[0] in listing && EntriesAt(listing[0])[1] in EntriesAt(listing[0]);
    assert DirEntry("nested.parquet", false) in entries;
    PartitionedIsParquet(entries);
    TwoKeysTwoOrders(root, listing, "t", 0, 0, 1);
  }

  lemma FileEntry(name: string)
    ensures EntriesAt(["t", name]) == [DirEntry(name, false)]
  {
  }

  /** A name of three characters of three bytes beside a Parquet file: the scan stops if it is listed first. */
  lemma WideNameStopsInOrder(root: string, wide: string)
    requires |wide| == 3 && forall c <- wide :: Width(c) == 3
    ensures !SameAnyOrder(root, [["t", wide], ["t", "x.parquet"]], "t")
  {
    hide Settled, SameAnyOrder, EntriesAt;
    var listing := [["t", wide], ["t", "x.parquet"]];
    FileEntry(wide);
    FileEntry("x.parquet");
    EntriesMore([], ["t", wide], "t");
    EntriesMore([["t", wide]], ["t", "x.parquet"], "t");
    assert [] + [["t", wide]] == [["t", wide]] && [["t", wide]] + [["t", "x.parquet"]] == listing;
    assert EntriesOf(listing, "t") == {DirEntry(wide, false), DirEntry("x.parquet", false)};
    WideIsUnsettled(wide);
    UnsettledOrders(root, listing, "t");
  }

  lemma WideIsUnsettled(wide: string)
    requires |wide| == 3 && forall c <- wide :: Width(c) == 3
    ensures Settled({DirEntry(wide, false), DirEntry("x.parquet", false)}).None?
  {
    hide TestSuffix, IsAscii;
    var entries := {DirEntry(wide, false), DirEntry("x.parquet", false)};
    assert "x.parquet"[1..] == ".parquet";
    assert IsAscii("x.parquet") by {
      LiteralsAreAscii();
    }
    ParquetVotes(entries, DirEntry("x.parquet", false));
    SuffixBytes();
    assert wide == [wide[0], wide[1], wide[2]];
    WideNamePanics(wide[0], wide[1], wide[2], ".parquet");
    assert TestEntry(DirEntry(wide, false), PLAIN[0].0) == Panic;
    assert Votes(entries, PLAIN[0].0, Panic);
  }

  lemma LiteralsAreAscii()
    ensures IsAscii("x.parquet") && IsAscii(".parquet")
  {
  }

  lemma SuffixBytes()
    ensures Bytes(".parquet") == 8
  {
    LiteralsAreAscii();
    AsciiCut(".parquet", 0);
  }
}
