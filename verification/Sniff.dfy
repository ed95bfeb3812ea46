/** The format of a directory from what it contains. Suffixes are cut off by bytes, so a name whose cut would
    fall inside a character stops the scan; which entry is looked at first then matters. */
module Sniffing {
  import opened Collections
  import opened Strings
  import opened TableFormats
  import opened Wrappers

  datatype DirEntry = DirEntry(name: string, isDir: bool)

  // ---- bytes

  /** The bytes a character takes in UTF-8. */
  function Width(c: char): (n: nat)
    ensures 1 <= n <= 4
  {
    if c < '\U{0080}' then 1 else if c < '\U{0800}' then 2 else if c < '\U{10000}' then 3 else 4
  }

  function Bytes(s: string): nat {
    if s == "" then 0 else Bytes(s[..|s| - 1]) + Width(s[|s| - 1])
  }

  /** Where the last `n` bytes start, unless that is inside a character or before the string. */
  function CutAt(s: string, n: nat): (r: Option<nat>)
    ensures r.Some? ==> r.value <= |s|
  {
    if n == 0 then Some(|s|)
    else if s == "" || n < Width(s[|s| - 1]) then None
    else CutAt(s[..|s| - 1], n - Width(s[|s| - 1]))
  }

  lemma BytesOfTail(s: string, k: nat)
    requires k < |s|
    ensures Bytes(s[k..]) == Bytes(s[..|s| - 1][k..]) + Width(s[|s| - 1])
  {
    assert s[k..][..|s| - k - 1] == s[..|s| - 1][k..];
  }

  /** The cut is where a tail of `n` bytes starts, if there is one. */
  lemma {:induction false} CutIsExact(s: string, n: nat, k: nat)
    requires k <= |s|
    ensures Bytes(s[k..]) == n <==> CutAt(s, n) == Some(k)
    decreases |s|
  {
    if k == |s| {
      assert s[k..] == "";
      if n > 0 {
        CutIsEarlier(s, n);
      }
    } else {
      BytesOfTail(s, k);
      if n >= Width(s[|s| - 1]) {
        CutIsExact(s[..|s| - 1], n - Width(s[|s| - 1]), k);
      }
    }
  }

  lemma CutIsEarlier(s: string, n: nat)
    requires n > 0
    ensures CutAt(s, n) != Some(|s|)
  {
  }

  // ---- suffixes

  /** Whether the entry has the suffix, or the question stops the scan. */
  datatype Test = Yes | No | Panic

  predicate SameIgnoringCase(a: string, b: string) {
    Lower(a) == Lower(b)
  }

  function TestSuffix(name: string, suffix: string): Test {
    if Bytes(name) <= Bytes(suffix) then No
    else
      match CutAt(name, Bytes(suffix))
      case None => Panic
      case Some(k) => if SameIgnoringCase(name[k..], suffix) then Yes else No
  }

  /** A name stops the scan exactly when it is longer than the suffix, in bytes, and no tail of it is as long. */
  lemma PanicsExactly(name: string, suffix: string)
    ensures TestSuffix(name, suffix) == Panic <==>
            Bytes(name) > Bytes(suffix) && forall k :: 0 <= k <= |name| ==> Bytes(name[k..]) != Bytes(suffix)
  {
    forall k | 0 <= k <= |name|
      ensures Bytes(name[k..]) == Bytes(suffix) <==> CutAt(name, Bytes(suffix)) == Some(k)
    {
      CutIsExact(name, Bytes(suffix), k);
    }
  }

  predicate IsAscii(s: string) {
    forall i :: 0 <= i < |s| ==> s[i] < '\U{0080}'
  }

  lemma {:induction false} AsciiCut(s: string, n: nat)
    requires IsAscii(s) && n <= |s|
    ensures Bytes(s) == |s| && CutAt(s, n) == Some(|s| - n)
    decreases |s|
  {
    if s != "" {
      AsciiCut(s[..|s| - 1], if n == 0 then 0 else n - 1);
    }
  }

  /** On ASCII names the test is that of a suffix, case aside. */
  lemma AsciiTest(name: string, suffix: string)
    requires IsAscii(name) && IsAscii(suffix)
    ensures TestSuffix(name, suffix) ==
            if |suffix| < |name| && SameIgnoringCase(name[|name| - |suffix|..], suffix) then Yes else No
  {
    AsciiCut(suffix, 0);
    AsciiCut(name, 0);
    if |suffix| < |name| {
      AsciiCut(name, |suffix|);
    }
  }

  /** Three characters of three bytes, against a suffix of eight. */
  lemma WideNamePanics(a: char, b: char, c: char, suffix: string)
    requires Width(a) == Width(b) == Width(c) == 3 && Bytes(suffix) == 8
    ensures TestSuffix([a, b, c], suffix) == Panic
  {
    var s := [a, b, c];
    assert s[..2] == [a, b] && [a, b][..1] == [a] && [a][..0] == "";
    assert Bytes([a]) == 3 && Bytes([a, b]) == 6 && Bytes(s) == 9;
    assert CutAt([a], 2) == None && CutAt([a, b], 5) == None && CutAt(s, 8) == None;
  }

  // ---- entries

  function TestEntry(e: DirEntry, suffixes: seq<string>): Test {
    if e.isDir || suffixes == [] then No
    else if TestSuffix(e.name, suffixes[0]) != No then TestSuffix(e.name, suffixes[0])
    else TestEntry(e, suffixes[1..])
  }

  /** The first entry that is not a `No` decides. */
  function TestAny(entries: seq<DirEntry>, suffixes: seq<string>): Test {
    if entries == [] then No
    else if TestEntry(entries[0], suffixes) != No then TestEntry(entries[0], suffixes)
    else TestAny(entries[1..], suffixes)
  }

  predicate EndsWith(s: string, suffix: string) {
    |suffix| <= |s| && s[|s| - |suffix|..] == suffix
  }

  predicate IsDeltaLog(e: DirEntry) {
    e.isDir && SameIgnoringCase(e.name, "_delta_log")
  }

  predicate IsIceberg(e: DirEntry) {
    (e.isDir && SameIgnoringCase(e.name, "metadata")) || (!e.isDir && EndsWith(e.name, ".metadata.json"))
  }

  /** The plain formats and their suffixes, in the order they are tried. */
  const PLAIN: seq<(seq<string>, TableFormat)> := [
    ([".parquet", ".parq"], Parquet),
    ([".csv", ".tsv"], Csv),
    ([".json", ".ndjson", ".jsonl"], Json)
  ]

  datatype Sniff = Format(format: Option<TableFormat>) | Panics

  function SniffPlain(entries: seq<DirEntry>, plain: seq<(seq<string>, TableFormat)>): Sniff {
    if plain == [] then Format(None)
    else
      match TestAny(entries, plain[0].0)
      case Yes => Format(Some(plain[0].1))
      case Panic => Panics
      case No => SniffPlain(entries, plain[1..])
  }

  function SniffFormat(entries: seq<DirEntry>): Sniff {
    if exists e <- entries :: IsDeltaLog(e) then Format(Some(Delta))
    else if exists e <- entries :: IsIceberg(e) then Format(Some(Iceberg))
    else SniffPlain(entries, PLAIN)
  }

  // ---- what does not depend on the order

  predicate Votes(entries: set<DirEntry>, suffixes: seq<string>, test: Test) {
    exists e <- entries :: TestEntry(e, suffixes) == test
  }

  /** The outcome for the entries in every order, if they have one: in the first kind of suffix that anything
      answers to, all answers must be the same. */
  function SettledPlain(entries: set<DirEntry>, plain: seq<(seq<string>, TableFormat)>): Option<Sniff> {
    if plain == [] then Some(Format(None))
    else
      match (Votes(entries, plain[0].0, Yes), Votes(entries, plain[0].0, Panic))
      case (true, true) => None
      case (true, false) => Some(Format(Some(plain[0].1)))
      case (false, true) => Some(Panics)
      case (false, false) => SettledPlain(entries, plain[1..])
  }

  function Settled(entries: set<DirEntry>): Option<Sniff> {
    if exists e <- entries :: IsDeltaLog(e) then Some(Format(Some(Delta)))
    else if exists e <- entries :: IsIceberg(e) then Some(Format(Some(Iceberg)))
    else SettledPlain(entries, PLAIN)
  }

  lemma {:induction false} AnyVotes(entries: seq<DirEntry>, suffixes: seq<string>)
    ensures TestAny(entries, suffixes) != No ==> Votes(Elements(entries), suffixes, TestAny(entries, suffixes))
    ensures TestAny(entries, suffixes) == No ==>
              !Votes(Elements(entries), suffixes, Yes) && !Votes(Elements(entries), suffixes, Panic)
  {
    hide TestEntry;
    if entries != [] {
      AnyVotes(entries[1..], suffixes);
      assert Elements(entries) == Elements(entries[1..]) + {entries[0]};
    }
  }

  lemma {:induction false} SettledPlainIsSniffed(entries: seq<DirEntry>, plain: seq<(seq<string>, TableFormat)>)
    requires SettledPlain(Elements(entries), plain).Some?
    ensures SniffPlain(entries, plain) == SettledPlain(Elements(entries), plain).value
  {
    hide Votes, TestAny;
    if plain != [] {
      AnyVotes(entries, plain[0].0);
      if !Votes(Elements(entries), plain[0].0, Yes) && !Votes(Elements(entries), plain[0].0, Panic) {
        SettledPlainIsSniffed(entries, plain[1..]);
      }
    }
  }

  /** Settled entries have that outcome in the order they are in. */
  lemma SettledIsSniffed(entries: seq<DirEntry>)
    requires Settled(Elements(entries)).Some?
    ensures SniffFormat(entries) == Settled(Elements(entries)).value
  {
    hide IsDeltaLog, IsIceberg, SniffPlain, SettledPlain;
    assert forall e :: e in entries <==> e in Elements(entries);
    if !(exists e <- entries :: IsDeltaLog(e)) && !(exists e <- entries :: IsIceberg(e)) {
      SettledPlainIsSniffed(entries, PLAIN);
    }
  }

  /** Entries that are not settled hold two that answer differently, whichever comes first deciding. */
  ghost predicate Decides(entries: set<DirEntry>, first: DirEntry, outcome: Sniff) {
    forall order: seq<DirEntry> ::
      Elements(order) == entries && Leads(order, first) ==> SniffFormat(order) == outcome
  }

  /** The first entry of the order, or right after a directory that is. */
  predicate Leads(order: seq<DirEntry>, e: DirEntry) {
    || (|order| > 0 && order[0] == e)
    || (|order| > 1 && order[0].isDir && order[1] == e)
  }

  lemma LeaderTests(order: seq<DirEntry>, e: DirEntry, suffixes: seq<string>)
    requires Leads(order, e) && TestEntry(e, suffixes) != No
    ensures TestAny(order, suffixes) == TestEntry(e, suffixes)
  {
  }

  lemma {:induction false} UnsettledPlain(entries: set<DirEntry>, plain: seq<(seq<string>, TableFormat)>)
    returns (yes: DirEntry, stop: DirEntry, format: TableFormat)
    requires SettledPlain(entries, plain).None?
    ensures yes in entries && stop in entries && !yes.isDir && !stop.isDir
    ensures forall order: seq<DirEntry> :: Elements(order) == entries && Leads(order, yes) ==>
              SniffPlain(order, plain) == Format(Some(format))
    ensures forall order: seq<DirEntry> :: Elements(order) == entries && Leads(order, stop) ==>
              SniffPlain(order, plain) == Panics
  {
    hide TestAny;
    var suffixes := plain[0].0;
    if Votes(entries, suffixes, Yes) {
      yes :| yes in entries && TestEntry(yes, suffixes) == Yes;
      stop :| stop in entries && TestEntry(stop, suffixes) == Panic;
      format := plain[0].1;
      forall order: seq<DirEntry> | Elements(order) == entries && Leads(order, yes)
        ensures SniffPlain(order, plain) == Format(Some(format))
      {
        LeaderTests(order, yes, suffixes);
      }
      forall order: seq<DirEntry> | Elements(order) == entries && Leads(order, stop)
        ensures SniffPlain(order, plain) == Panics
      {
        LeaderTests(order, stop, suffixes);
      }
    } else {
      yes, stop, format := UnsettledPlain(entries, plain[1..]);
      forall order: seq<DirEntry> | Elements(order) == entries
        ensures SniffPlain(order, plain) == SniffPlain(order, plain[1..])
      {
        AnyVotes(order, suffixes);
      }
    }
  }

  lemma UnsettledDecides(entries: set<DirEntry>) returns (yes: DirEntry, stop: DirEntry, format: TableFormat)
    requires Settled(entries).None?
    ensures yes in entries && stop in entries && !yes.isDir && !stop.isDir
    ensures Decides(entries, yes, Format(Some(format))) && Decides(entries, stop, Panics)
  {
    hide IsDeltaLog, IsIceberg, SniffPlain, SettledPlain, Leads;
    yes, stop, format := UnsettledPlain(entries, PLAIN);
    forall order: seq<DirEntry> | Elements(order) == entries
      ensures SniffFormat(order) == SniffPlain(order, PLAIN)
    {
      assert forall e <- order :: e in entries;
    }
  }

  // ---- ASCII names settle

  lemma PlainIsAscii()
    ensures forall p <- PLAIN :: forall s <- p.0 :: IsAscii(s)
  {
    assert forall s <- [".parquet", ".parq"] :: IsAscii(s);
    assert forall s <- [".csv", ".tsv"] :: IsAscii(s);
    assert forall s <- [".json", ".ndjson", ".jsonl"] :: IsAscii(s);
  }

  lemma {:induction false} AsciiEntry(e: DirEntry, suffixes: seq<string>)
    requires e.isDir || IsAscii(e.name)
    requires forall s <- suffixes :: IsAscii(s)
    ensures TestEntry(e, suffixes) != Panic
  {
    hide IsAscii, TestSuffix;
    if !e.isDir && suffixes != [] {
      assert suffixes[0] in suffixes;
      AsciiTest(e.name, suffixes[0]);
      AsciiEntry(e, suffixes[1..]);
    }
  }

  lemma {:induction false} AsciiSettlesPlain(entries: set<DirEntry>, plain: seq<(seq<string>, TableFormat)>)
    requires forall e <- entries :: e.isDir || IsAscii(e.name)
    requires forall p <- plain :: forall s <- p.0 :: IsAscii(s)
    ensures SettledPlain(entries, plain).Some? && SettledPlain(entries, plain).value.Format?
  {
    hide IsAscii, TestEntry;
    if plain != [] {
      assert plain[0] in plain;
      forall e <- entries
        ensures TestEntry(e, plain[0].0) != Panic
      {
        AsciiEntry(e, plain[0].0);
      }
      AsciiSettlesPlain(entries, plain[1..]);
    }
  }

  /** When no file has a name outside ASCII the format is settled and the scan does not stop. */
  lemma AsciiSettles(entries: set<DirEntry>)
    requires forall e <- entries :: e.isDir || IsAscii(e.name)
    ensures Settled(entries).Some? && Settled(entries).value.Format?
  {
    hide IsDeltaLog, IsIceberg, SettledPlain, IsAscii;
    PlainIsAscii();
    AsciiSettlesPlain(entries, PLAIN);
  }
}
