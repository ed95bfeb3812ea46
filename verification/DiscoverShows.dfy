/** What a scan shows, by the names in the listing alone. */
module DiscoveryShows {
  import opened Catalogs
  import opened Discovery
  import opened Sniffing
  import opened Strings
  import opened TableFormats
  import opened Wrappers

  // ---- names

  /** The name is longer than the suffix and ends in it, case aside. */
  predicate HasSuffix(name: string, suffix: string) {
    |suffix| < |name| && Lower(name[|name| - |suffix|..]) == suffix
  }

  predicate IsLower(s: string) {
    forall i :: 0 <= i < |s| ==> s[i] < '\U{0080}' && !('A' <= s[i] <= 'Z')
  }

  lemma LowerSuffix(name: string, suffix: string)
    requires IsAscii(name) && IsLower(suffix)
    ensures TestSuffix(name, suffix) == if HasSuffix(name, suffix) then Yes else No
  {
    AsciiTest(name, suffix);
    LowerIsLower(suffix);
  }

  /** A file with one of the suffixes. */
  ghost predicate HasFile(entries: seq<DirEntry>, suffixes: seq<string>) {
    exists e <- entries :: !e.isDir && Ends(e.name, suffixes)
  }

  predicate Ends(name: string, suffixes: seq<string>) {
    exists s <- suffixes :: HasSuffix(name, s)
  }

  lemma {:induction false} EntryAnswers(e: DirEntry, suffixes: seq<string>)
    requires e.isDir || IsAscii(e.name)
    requires forall s <- suffixes :: IsLower(s)
    ensures TestEntry(e, suffixes) == if !e.isDir && Ends(e.name, suffixes) then Yes else No
  {
    hide IsAscii, IsLower, TestSuffix, HasSuffix;
    if !e.isDir && suffixes != [] {
      assert suffixes[0] in suffixes;
      LowerSuffix(e.name, suffixes[0]);
      EntryAnswers(e, suffixes[1..]);
      assert forall s <- suffixes :: s == suffixes[0] || s in suffixes[1..];
    }
  }

  lemma {:induction false} EntriesAnswer(entries: seq<DirEntry>, suffixes: seq<string>)
    requires forall e <- entries :: e.isDir || IsAscii(e.name)
    requires forall s <- suffixes :: IsLower(s)
    ensures TestAny(entries, suffixes) == if HasFile(entries, suffixes) then Yes else No
  {
    hide IsAscii, IsLower, TestEntry, Ends;
    if entries != [] {
      assert entries[0] in entries;
      EntryAnswers(entries[0], suffixes);
      EntriesAnswer(entries[1..], suffixes);
      assert forall e <- entries :: e == entries[0] || e in entries[1..];
    }
  }

  // ---- a directory's format

  ghost predicate HasDir(entries: seq<DirEntry>, name: string) {
    exists e <- entries :: e.isDir && Lower(e.name) == name
  }

  ghost predicate HasMetadataFile(entries: seq<DirEntry>) {
    exists e <- entries :: !e.isDir && IsMetadataFile(e.name)
  }

  predicate IsMetadataFile(name: string) {
    |name| >= 14 && name[|name| - 14..] == ".metadata.json"
  }

  lemma SuffixesAreLower()
    ensures forall s <- [".parquet", ".parq"] :: IsLower(s)
    ensures forall s <- [".csv", ".tsv"] :: IsLower(s)
    ensures forall s <- [".json", ".ndjson", ".jsonl"] :: IsLower(s)
  {
  }

  lemma MarkersAre(e: DirEntry)
    ensures IsDeltaLog(e) <==> e.isDir && Lower(e.name) == "_delta_log"
    ensures IsIceberg(e) <==> (e.isDir && Lower(e.name) == "metadata") || (!e.isDir && IsMetadataFile(e.name))
  {
    LowerIsLower("_delta_log");
    LowerIsLower("metadata");
    assert |".metadata.json"| == 14;
  }

  lemma PlainAnswers(entries: seq<DirEntry>)
    requires forall e <- entries :: e.isDir || IsAscii(e.name)
    ensures SniffPlain(entries, PLAIN) == Format(
              if HasFile(entries, [".parquet", ".parq"]) then Some(Parquet)
              else if HasFile(entries, [".csv", ".tsv"]) then Some(Csv)
              else if HasFile(entries, [".json", ".ndjson", ".jsonl"]) then Some(Json)
              else None)
  {
    hide IsAscii, TestAny, HasFile;
    SuffixesAreLower();
    EntriesAnswer(entries, [".parquet", ".parq"]);
    EntriesAnswer(entries, [".csv", ".tsv"]);
    EntriesAnswer(entries, [".json", ".ndjson", ".jsonl"]);
    assert PLAIN[1..][1..] == PLAIN[2..] && PLAIN[2..][1..] == [];
    assert SniffPlain(entries, []) == Format(None);
    assert SniffPlain(entries, PLAIN[2..]) ==
           Format(if HasFile(entries, [".json", ".ndjson", ".jsonl"]) then Some(Json) else None);
    assert SniffPlain(entries, PLAIN[1..]) ==
           if HasFile(entries, [".csv", ".tsv"]) then Format(Some(Csv)) else SniffPlain(entries, PLAIN[2..]);
  }

  /** The format of a directory whose files have ASCII names: Delta by its log, else Iceberg by its metadata, else
      Parquet, CSV or JSON by the suffix of any of its files, in that order; else nothing. */
  lemma SniffsExactly(entries: seq<DirEntry>)
    requires forall e <- entries :: e.isDir || IsAscii(e.name)
    ensures SniffFormat(entries) == Format(
              if HasDir(entries, "_delta_log") then Some(Delta)
              else if HasDir(entries, "metadata") || HasMetadataFile(entries) then Some(Iceberg)
              else if HasFile(entries, [".parquet", ".parq"]) then Some(Parquet)
              else if HasFile(entries, [".csv", ".tsv"]) then Some(Csv)
              else if HasFile(entries, [".json", ".ndjson", ".jsonl"]) then Some(Json)
              else None)
  {
    hide IsAscii, SniffPlain, HasFile, IsDeltaLog, IsIceberg, IsMetadataFile;
    PlainAnswers(entries);
    forall e <- entries
      ensures IsDeltaLog(e) <==> e.isDir && Lower(e.name) == "_delta_log"
      ensures IsIceberg(e) <==> (e.isDir && Lower(e.name) == "metadata") || (!e.isDir && IsMetadataFile(e.name))
    {
      MarkersAre(e);
    }
  }

  // ---- extensions

  predicate IsAlphanumeric(s: string) {
    forall i :: 0 <= i < |s| ==> var c := s[i] as int; 48 <= c <= 57 || 65 <= c <= 90 || 97 <= c <= 122
  }

  /** The extension of a name is what follows its last dot, lower-cased, if it is letters and digits only. */
  lemma ExtensionExactly(stem: string, ext: string)
    requires '.' !in ext
    ensures ExtensionOf(stem + "." + ext) == if ext != "" && IsAlphanumeric(ext) then Some(Lower(ext)) else None
  {
    SplitLastIs(stem, ext, '.');
    assert stem + ['.'] + ext == stem + "." + ext;
    assert forall i :: 0 <= i < |ext| ==> ext[i] in ext;
  }

  lemma NoExtension(name: string)
    requires '.' !in name
    ensures ExtensionOf(name).None? && SniffFileFormat(name).None? && FileStem(name) == name
  {
    assert SplitLast(name, '.').None?;
    LowerKeepsDots(name);
  }

  lemma LowerOf(a: string, b: string)
    ensures Lower(a + b) == Lower(a) + Lower(b)
  {
  }

  lemma LowerKeepsDots(s: string)
    ensures '.' in Lower(s) <==> '.' in s
  {
    if i :| 0 <= i < |s| && s[i] == '.' {
      assert Lower(s)[i] == '.';
    }
    if i :| 0 <= i < |s| && Lower(s)[i] == '.' {
      assert LowerChar(s[i]) == '.' && s[i] in s;
    }
  }

  /** A bare file is a table of the format its extension names, called after its stem. */
  lemma BareFileExactly(stem: string, ext: string)
    requires '.' !in ext
    ensures FileStem(stem + "." + ext) == stem
    ensures var low := Lower(ext);
            SniffFileFormat(stem + "." + ext) ==
            if low in ["parquet", "parq"] then Some(Parquet)
            else if low in ["csv", "tsv"] then Some(Csv)
            else if low in ["json", "ndjson", "jsonl"] then Some(Json)
            else None
  {
    SplitLastIs(stem, ext, '.');
    assert stem + ['.'] + ext == stem + "." + ext;
    LowerKeepsDots(ext);
    LowerOf(stem + ".", ext);
    LowerOf(stem, ".");
    LowerIsLower(".");
    SplitLastIs(Lower(stem), Lower(ext), '.');
    assert Lower(stem + "." + ext) == Lower(stem) + ['.'] + Lower(ext);
  }

  /** Each bare data file is one table, at its own path below the root, in listing order. */
  lemma {:induction false} FileTablesSplit(root: string, a: seq<string>, b: seq<string>)
    ensures FileTables(root, a + b) == FileTables(root, a) + FileTables(root, b)
    decreases |b|
  {
    hide SniffFileFormat, FileStem, TrimSlashes;
    if b == [] {
      assert a + b == a;
    } else {
      var front := b[..|b| - 1];
      assert (a + b)[..|a + b| - 1] == a + front && (a + b)[|a + b| - 1] == b[|b| - 1];
      FileTablesSplit(root, a, front);
    }
  }

  lemma OneFileTable(root: string, name: string)
    ensures FileTables(root, [name]) ==
            match SniffFileFormat(name)
            case None => []
            case Some(format) => [(FileStem(name), DeclaredTable(TrimSlashes(root) + "/" + name, format, map[], []))]
  {
    hide SniffFileFormat, FileStem, TrimSlashes;
    assert [name][..0] == [] && FileTables(root, []) == [];
  }

  lemma {:induction false} BareFilesSplit(a: seq<Path>, b: seq<Path>)
    ensures BareFiles(a + b) == BareFiles(a) + BareFiles(b)
    decreases |b|
  {
    if b == [] {
      assert a + b == a;
    } else {
      var front := b[..|b| - 1];
      assert (a + b)[..|a + b| - 1] == a + front && (a + b)[|a + b| - 1] == b[|b| - 1];
      BareFilesSplit(a, front);
    }
  }

  lemma OneBareFile(p: Path)
    ensures BareFiles([p]) == if |p| == 1 then [p[0]] else []
  {
    assert [p][..0] == [] && BareFiles([]) == [];
  }

  // ---- what a listing shows of a directory

  /** A file of the table with one of the suffixes, or, deeper, with one of the extensions. */
  ghost predicate Contains(listing: seq<Path>, table: string, suffixes: seq<string>, extensions: seq<string>) {
    exists p <- listing :: |p| >= 2 && p[0] == table && Shows1(p, suffixes, extensions)
  }

  predicate Shows1(p: Path, suffixes: seq<string>, extensions: seq<string>)
    requires |p| >= 2
  {
    if |p| == 2 then Ends(p[1], suffixes)
    else ExtensionOf(p[|p| - 1]).Some? && ExtensionOf(p[|p| - 1]).value in extensions
  }

  ghost predicate ContainsDir(listing: seq<Path>, table: string, name: string) {
    exists p <- listing :: |p| >= 3 && p[0] == table && Lower(p[1]) == name
  }

  ghost predicate ContainsMetadata(listing: seq<Path>, table: string) {
    exists p <- listing :: |p| == 2 && p[0] == table && IsMetadataFile(p[1])
  }

  /** Extensions are lower-case letters and digits. */
  lemma ExtensionIsPlain(name: string)
    requires ExtensionOf(name).Some?
    ensures var ext := ExtensionOf(name).value;
            ext != "" && Lower(ext) == ext && IsAscii(ext) && '.' !in ext
  {
    var raw := SplitLast(name, '.').value.1;
    var ext := Lower(raw);
    assert forall i :: 0 <= i < |raw| ==> raw[i] in raw;
    assert forall i :: 0 <= i < |ext| ==> ext[i] == LowerChar(raw[i]) && !('A' <= ext[i] <= 'Z') && ext[i] != '.';
    LowerIsLower(ext);
  }

  /** After the only dot of a name there is one suffix that starts with a dot. */
  lemma OneDotOneSuffix(front: string, ext: string, kind: string, cut: nat)
    requires '.' !in front && '.' !in ext && '.' !in kind
    requires cut < |front + "." + ext| && (front + "." + ext)[cut..] == "." + kind
    ensures ext == kind
  {
    var name := front + "." + ext;
    assert name[cut] == name[cut..][0] == '.';
    assert forall i :: 0 <= i < |front| ==> name[i] == front[i] && front[i] in front;
    assert forall i :: |front| < i < |name| ==> name[i] == ext[i - |front| - 1] && ext[i - |front| - 1] in ext;
    assert cut == |front|;
    assert name[cut..][1..] == ext && ("." + kind)[1..] == kind;
  }

  lemma NestedIsLower(ext: string)
    requires Lower(ext) == ext
    ensures Lower("nested." + ext) == "nested." + ext
  {
    LowerOf("nested.", ext);
    LowerIsLower("nested.");
  }

  /** The stand-in for a deeper file has the suffix of its extension and no other. */
  lemma NestedSuffix(ext: string, kind: string)
    requires Lower(ext) == ext && '.' !in ext && '.' !in kind
    ensures HasSuffix("nested." + ext, "." + kind) <==> ext == kind
  {
    var name, suffix := "nested." + ext, "." + kind;
    NestedIsLower(ext);
    assert name == "nested" + "." + ext;
    if HasSuffix(name, suffix) {
      var cut := |name| - |suffix|;
      assert Lower(name[cut..]) == Lower(name)[cut..];
      OneDotOneSuffix("nested", ext, kind, cut);
    }
    if ext == kind {
      assert name[6..] == suffix && Lower(name)[6..] == Lower(name[6..]);
    }
  }

  lemma NestedEnds(ext: string, suffixes: seq<string>, extensions: seq<string>)
    requires Lower(ext) == ext && '.' !in ext && |suffixes| == |extensions|
    requires forall i :: 0 <= i < |extensions| ==> suffixes[i] == "." + extensions[i] && '.' !in extensions[i]
    ensures Ends("nested." + ext, suffixes) <==> ext in extensions
  {
    hide HasSuffix;
    forall i | 0 <= i < |extensions|
      ensures HasSuffix("nested." + ext, suffixes[i]) <==> ext == extensions[i]
    {
      NestedSuffix(ext, extensions[i]);
    }
    if ext in extensions {
      var i :| 0 <= i < |extensions| && extensions[i] == ext;
      assert suffixes[i] in suffixes;
    }
  }

  lemma FileShows(listing: seq<Path>, table: string, suffixes: seq<string>, extensions: seq<string>)
    requires |suffixes| == |extensions|
    requires forall i :: 0 <= i < |extensions| ==> suffixes[i] == "." + extensions[i] && '.' !in extensions[i]
    ensures HasFile(EntriesIn(listing, table), suffixes) <==> Contains(listing, table, suffixes, extensions)
  {
    hide Ends, ExtensionOf, EntriesIn;
    EntriesInAreOf(listing, table);
    var entries := EntriesIn(listing, table);
    assert forall e :: e in entries <==> e in EntriesOf(listing, table);
    forall p <- listing | |p| >= 2 && p[0] == table
      ensures Shows1(p, suffixes, extensions) <==> exists e <- EntriesAt(p) :: !e.isDir && Ends(e.name, suffixes)
    {
      PathShows(p, suffixes, extensions);
    }
    hide EntriesAt;
    if e :| e in entries && !e.isDir && Ends(e.name, suffixes) {
      var p :| p in listing && |p| >= 2 && p[0] == table && e in EntriesAt(p);
      assert Shows1(p, suffixes, extensions);
    }
    if p :| p in listing && |p| >= 2 && p[0] == table && Shows1(p, suffixes, extensions) {
      var e :| e in EntriesAt(p) && !e.isDir && Ends(e.name, suffixes);
      assert e in EntriesOf(listing, table);
    }
  }

  lemma PathShows(p: Path, suffixes: seq<string>, extensions: seq<string>)
    requires |p| >= 2 && |suffixes| == |extensions|
    requires forall i :: 0 <= i < |extensions| ==> suffixes[i] == "." + extensions[i] && '.' !in extensions[i]
    ensures Shows1(p, suffixes, extensions) <==> exists e <- EntriesAt(p) :: !e.isDir && Ends(e.name, suffixes)
  {
    hide Ends, ExtensionOf;
    if |p| == 2 {
      assert EntriesAt(p)[0] in EntriesAt(p);
    } else if ExtensionOf(p[|p| - 1]).Some? {
      var ext := ExtensionOf(p[|p| - 1]).value;
      ExtensionIsPlain(p[|p| - 1]);
      NestedEnds(ext, suffixes, extensions);
      assert EntriesAt(p)[1] in EntriesAt(p);
    }
  }

  lemma DirShows(listing: seq<Path>, table: string, name: string)
    ensures HasDir(EntriesIn(listing, table), name) <==> ContainsDir(listing, table, name)
  {
    hide ExtensionOf, EntriesIn;
    EntriesInAreOf(listing, table);
    var entries := EntriesIn(listing, table);
    assert forall e :: e in entries <==> e in EntriesOf(listing, table);
    if p :| p in listing && |p| >= 3 && p[0] == table && Lower(p[1]) == name {
      assert EntriesAt(p)[0] in EntriesAt(p);
      assert DirEntry(p[1], true) in EntriesOf(listing, table);
    }
  }

  lemma MetadataShows(listing: seq<Path>, table: string)
    ensures HasMetadataFile(EntriesIn(listing, table)) <==> ContainsMetadata(listing, table)
  {
    hide ExtensionOf, EntriesIn, IsMetadataFile;
    EntriesInAreOf(listing, table);
    var entries := EntriesIn(listing, table);
    assert forall e :: e in entries <==> e in EntriesOf(listing, table);
    if p :| p in listing && |p| == 2 && p[0] == table && IsMetadataFile(p[1]) {
      assert EntriesAt(p)[0] in EntriesAt(p);
      assert DirEntry(p[1], false) in EntriesOf(listing, table);
    }
    if e :| e in entries && !e.isDir && IsMetadataFile(e.name) {
      var p :| p in listing && |p| >= 2 && p[0] == table && e in EntriesAt(p);
      if |p| > 2 {
        NestedIsNoMetadata(ExtensionOf(p[|p| - 1]).value) by {
          ExtensionIsPlain(p[|p| - 1]);
        }
      }
    }
  }

  lemma NestedIsNoMetadata(ext: string)
    requires '.' !in ext
    ensures !IsMetadataFile("nested." + ext)
  {
    var name := "nested." + ext;
    assert forall i :: 7 <= i < |name| ==> name[i] == ext[i - 7] && ext[i - 7] in ext;
    assert ".metadata.json"[9] == '.';
    assert |name| >= 14 ==> name[|name| - 14..][9] == name[|name| - 5];
  }

  /** The format a listing shows for a directory, if it shows one. */
  ghost function FormatShown(listing: seq<Path>, table: string): Option<TableFormat> {
    if ContainsDir(listing, table, "_delta_log") then Some(Delta)
    else if ContainsDir(listing, table, "metadata") || ContainsMetadata(listing, table) then Some(Iceberg)
    else if Contains(listing, table, [".parquet", ".parq"], ["parquet", "parq"]) then Some(Parquet)
    else if Contains(listing, table, [".csv", ".tsv"], ["csv", "tsv"]) then Some(Csv)
    else if Contains(listing, table, [".json", ".ndjson", ".jsonl"], ["json", "ndjson", "jsonl"]) then Some(Json)
    else None
  }

  /** A directory whose files have ASCII names is a table exactly when its names show a format, at its name below the
      root, with no options, and with partition columns only for the plain formats. */
  lemma DirectoryShows(root: string, listing: seq<Path>, table: string)
    requires forall p <- listing :: |p| == 2 && p[0] == table ==> IsAscii(p[1])
    ensures TableOf(root, listing, table) ==
            match FormatShown(listing, table)
            case None => Absent
            case Some(format) =>
              Shows(DeclaredTable(TrimSlashes(root) + "/" + table + "/", format, map[],
                if format == Delta || format == Iceberg then [] else Columns(listing, table, Deepest(listing))))
  {
    hide EntriesIn, FormatShown, SniffFormat, Columns, TrimSlashes;
    FormatIsShown(listing, table);
  }

  lemma FormatIsShown(listing: seq<Path>, table: string)
    requires forall p <- listing :: |p| == 2 && p[0] == table ==> IsAscii(p[1])
    ensures SniffFormat(EntriesIn(listing, table)) == Format(FormatShown(listing, table))
  {
    hide EntriesIn, Contains, ContainsDir, ContainsMetadata, IsAscii, HasFile, HasDir, HasMetadataFile, SniffFormat;
    AsciiEntries(listing, table);
    SniffsExactly(EntriesIn(listing, table));
    DirShows(listing, table, "_delta_log");
    DirShows(listing, table, "metadata");
    MetadataShows(listing, table);
    ParquetShows(listing, table);
    CsvShows(listing, table);
    JsonShows(listing, table);
  }

  lemma ParquetShows(listing: seq<Path>, table: string)
    ensures var s := [".parquet", ".parq"];
            HasFile(EntriesIn(listing, table), s) <==> Contains(listing, table, s, ["parquet", "parq"])
  {
    hide HasFile, Contains, EntriesIn;
    FileShows(listing, table, [".parquet", ".parq"], ["parquet", "parq"]);
  }

  lemma CsvShows(listing: seq<Path>, table: string)
    ensures var s := [".csv", ".tsv"];
            HasFile(EntriesIn(listing, table), s) <==> Contains(listing, table, s, ["csv", "tsv"])
  {
    hide HasFile, Contains, EntriesIn;
    FileShows(listing, table, [".csv", ".tsv"], ["csv", "tsv"]);
  }

  lemma JsonShows(listing: seq<Path>, table: string)
    ensures var s := [".json", ".ndjson", ".jsonl"];
            HasFile(EntriesIn(listing, table), s) <==> Contains(listing, table, s, ["json", "ndjson", "jsonl"])
  {
    hide HasFile, Contains, EntriesIn;
    FileShows(listing, table, [".json", ".ndjson", ".jsonl"], ["json", "ndjson", "jsonl"]);
  }

  lemma AsciiEntries(listing: seq<Path>, table: string)
    requires forall p <- listing :: |p| == 2 && p[0] == table ==> IsAscii(p[1])
    ensures forall e <- EntriesIn(listing, table) :: e.isDir || IsAscii(e.name)
  {
    hide EntriesIn, ExtensionOf;
    EntriesInAreOf(listing, table);
    forall e <- EntriesIn(listing, table)
      ensures e.isDir || IsAscii(e.name)
    {
      assert e in EntriesOf(listing, table);
      var p :| p in listing && |p| >= 2 && p[0] == table && e in EntriesAt(p);
      if |p| > 2 && !e.isDir {
        NestedIsAscii(p[|p| - 1], e);
      }
    }
  }

  // ---- partition columns

  /** The directory of the path at that depth below the table is `key=...`. */
  ghost predicate HasKey(p: Path, table: string, depth: nat, key: string) {
    && depth + 2 < |p| && p[0] == table && '=' !in key
    && exists value: string :: p[1 + depth] == key + "=" + value
  }

  lemma HasKeyIs(p: Path, table: string, depth: nat, key: string)
    ensures HasKey(p, table, depth, key) <==> Keyed(p, table, depth) && KeyAt(p, depth) == Some(key)
  {
    if depth + 2 < |p| {
      var dir := p[1 + depth];
      if value: string :| '=' !in key && dir == key + "=" + value {
        SplitOnceIs(key, value, '=');
        assert key + ['='] + value == dir;
      }
      if SplitOnce(dir, '=').Some? {
        var (k, v) := SplitOnce(dir, '=').value;
        assert dir == k + "=" + v;
      }
    }
  }

  /** The key of a depth is the one of the first path that has one there. */
  lemma {:induction false} FirstKeyExactly(listing: seq<Path>, table: string, depth: nat, i: nat, key: string)
    requires i < |listing| && HasKey(listing[i], table, depth, key)
    requires forall j :: 0 <= j < i ==> !exists k: string :: HasKey(listing[j], table, depth, k)
    ensures FirstKey(listing, table, depth) == Some(key)
    decreases i
  {
    HasKeyIs(listing[0], table, depth, key);
    if i > 0 {
      if Keyed(listing[0], table, depth) {
        HasKeyIs(listing[0], table, depth, KeyAt(listing[0], depth).value);
      }
      forall j | 0 <= j < i - 1
        ensures !exists k: string :: HasKey(listing[1..][j], table, depth, k)
      {
        assert listing[1..][j] == listing[j + 1];
      }
      FirstKeyExactly(listing[1..], table, depth, i - 1, key);
    }
  }

  lemma NoKeyAtAll(listing: seq<Path>, table: string, depth: nat)
    requires forall p <- listing :: !exists k: string :: HasKey(p, table, depth, k)
    ensures FirstKey(listing, table, depth).None?
  {
    FirstKeyIs(listing, table, depth);
    if p :| p in listing && Keyed(p, table, depth) {
      HasKeyIs(p, table, depth, KeyAt(p, depth).value);
    }
  }

  /** How many depths below `n` have a key. */
  function Rank(listing: seq<Path>, table: string, n: nat): nat {
    if n == 0 then 0 else Rank(listing, table, n - 1) + if FirstKey(listing, table, n - 1).Some? then 1 else 0
  }

  /** The partition columns are the keys of the depths that have one, outermost first. */
  lemma {:induction false} ColumnsInOrder(listing: seq<Path>, table: string, n: nat, depth: nat)
    requires depth < n && FirstKey(listing, table, depth).Some?
    ensures |Columns(listing, table, n)| == Rank(listing, table, n) && Rank(listing, table, depth) < Rank(listing, table, n)
    ensures Columns(listing, table, n)[Rank(listing, table, depth)] == FirstKey(listing, table, depth).value
    decreases n
  {
    hide FirstKey;
    if depth == n - 1 {
      ColumnCount(listing, table, n - 1);
    } else {
      ColumnsInOrder(listing, table, n - 1, depth);
    }
  }

  lemma {:induction false} ColumnCount(listing: seq<Path>, table: string, n: nat)
    ensures |Columns(listing, table, n)| == Rank(listing, table, n)
  {
    hide FirstKey;
    if n > 0 {
      ColumnCount(listing, table, n - 1);
    }
  }

  /** No directory holds its key below the deepest path. */
  lemma KeysAreWithin(listing: seq<Path>, table: string, depth: nat)
    requires FirstKey(listing, table, depth).Some?
    ensures depth < Deepest(listing)
  {
    FirstKeyIs(listing, table, depth);
    DeepestIs(listing);
    var p :| p in listing && Keyed(p, table, depth);
    KeyIsShallow(p, depth);
  }

  // ---- a name that stops the scan

  lemma TwoFiles(a: string, b: string)
    requires a != b
    ensures EntriesIn([["t", a], ["t", b]], "t") == [DirEntry(a, false), DirEntry(b, false)]
  {
    var x, y := DirEntry(a, false), DirEntry(b, false);
    var listing := [["t", a], ["t", b]];
    FileEntry(a);
    FileEntry(b);
    hide EntriesAt;
    assert listing[..1] == [["t", a]] && [["t", a]][..0] == [];
    assert [x][..0] == [] && [y][..0] == [];
    assert Pushed([], [x]) == [x] && Pushed([x], [y]) == [x, y];
    assert EntriesIn([["t", a]], "t") == [x];
  }

  /** Listed first, a name of three characters of three bytes stops the scan; listed after a Parquet file, it does
      not. */
  lemma WideNameStops(root: string, wide: string)
    requires |wide| == 3 && forall c <- wide :: Width(c) == 3
    ensures TableOf(root, [["t", wide], ["t", "x.parquet"]], "t") == Stopped
    ensures var r := TableOf(root, [["t", "x.parquet"], ["t", wide]], "t"); r.Shows? && r.table.format == Parquet
  {
    hide EntriesIn, JoinLocation, Columns;
    var w, x := DirEntry(wide, false), DirEntry("x.parquet", false);
    TwoFiles(wide, "x.parquet");
    TwoFiles("x.parquet", wide);
    WideAnswers(wide);
    LeaderSniffs([w, x], w);
    LeaderSniffs([x, w], x);
  }

  lemma WideAnswers(wide: string)
    requires |wide| == 3 && forall c <- wide :: Width(c) == 3
    ensures TestEntry(DirEntry(wide, false), PLAIN[0].0) == Panic
    ensures TestEntry(DirEntry("x.parquet", false), PLAIN[0].0) == Yes
  {
    hide TestSuffix, IsAscii;
    SuffixBytes();
    assert wide == [wide[0], wide[1], wide[2]];
    WideNamePanics(wide[0], wide[1], wide[2], ".parquet");
    LiteralsAreAscii();
    var x := DirEntry("x.parquet", false);
    assert x.name[1..] == ".parquet";
    ParquetVotes({x}, x);
  }

  lemma LeaderSniffs(order: seq<DirEntry>, first: DirEntry)
    requires order != [] && order[0] == first && TestEntry(first, PLAIN[0].0) != No
    requires forall e <- order :: !e.isDir && |e.name| < 14
    ensures SniffFormat(order) == if TestEntry(first, PLAIN[0].0) == Yes then Format(Some(Parquet)) else Panics
  {
    hide TestEntry;
    LeaderTests(order, first, PLAIN[0].0);
    assert |".metadata.json"| == 14;
  }

  // ---- entries are listed once

  predicate Distinct(entries: seq<DirEntry>) {
    forall i, j :: 0 <= i < j < |entries| ==> entries[i] != entries[j]
  }

  lemma {:induction false} PushedOnce(entries: seq<DirEntry>, more: seq<DirEntry>)
    requires Distinct(entries)
    ensures Distinct(Pushed(entries, more))
    decreases |more|
  {
    if more != [] {
      PushedOnce(entries, more[..|more| - 1]);
    }
  }

  lemma {:induction false} EntriesOnce(listing: seq<Path>, table: string)
    ensures Distinct(EntriesIn(listing, table))
  {
    hide EntriesAt, Pushed;
    if listing != [] {
      EntriesOnce(listing[..|listing| - 1], table);
      var last := listing[|listing| - 1];
      PushedOnce(EntriesIn(listing[..|listing| - 1], table), EntriesAt(last));
    }
  }

  // ---- the bytes of a character

  /** As in section 3 of RFC 3629. */
  lemma WidthExactly(c: char)
    ensures Width(c) == 1 <==> c as int <= 0x7F
    ensures Width(c) == 2 <==> 0x80 <= c as int <= 0x7FF
    ensures Width(c) == 3 <==> 0x800 <= c as int <= 0xFFFF
    ensures Width(c) == 4 <==> 0x1_0000 <= c as int
  {
  }
}
