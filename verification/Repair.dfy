/** `MSCK REPAIR TABLE`: partition directories on storage and the partitions a Glue table has registered. */
module Repairs {
  import opened Collections
  import opened Paging
  import opened Strings
  import opened Wrappers

  type Values = seq<string>

  // ---- the path codec

  predicate HasDotDot(s: string) {
    exists i :: 0 <= i < |s| - 1 && s[i] == '.' && s[i + 1] == '.'
  }

  predicate ValidValue(v: string) {
    v != "" && '/' !in v && '\\' !in v && !HasDotDot(v)
  }

  predicate AllValid(values: Values) {
    forall v <- values :: ValidValue(v)
  }

  function Dir(key: string, value: string): string {
    key + "=" + value
  }

  /** The `key=value` directories of a partition, joined. */
  function DirPath(keys: seq<string>, values: Values): string
    requires |keys| == |values| > 0
  {
    if |keys| == 1 then Dir(keys[0], values[0])
    else Dir(keys[0], values[0]) + "/" + DirPath(keys[1..], values[1..])
  }

  function PartitionLocation(location: string, keys: seq<string>, values: Values): Result<string>
    requires |keys| == |values| > 0
  {
    if AllValid(values) then Ok(TrimSlashes(location) + "/" + DirPath(keys, values) + "/") else Err(Plan)
  }

  function ValueOf(dir: string, key: string): Option<string> {
    match SplitOnce(dir, '=')
    case None => None
    case Some((k, v)) => if k == key && ValidValue(v) then Some(v) else None
  }

  /** The values of a directory path when each component is `key=value` for its key and a valid value. */
  function ValuesFromDirs(dirs: seq<string>, keys: seq<string>): (r: Option<Values>)
    ensures r.Some? ==> |r.value| == |dirs| == |keys|
  {
    if |dirs| != |keys| then None
    else if dirs == [] then Some([])
    else
      match (ValueOf(dirs[0], keys[0]), ValuesFromDirs(dirs[1..], keys[1..]))
      case (Some(v), Some(rest)) => Some([v] + rest)
      case _ => None
  }

  /** A directory gives its value back exactly when the key has no `=` and the value is valid. */
  lemma DirReadsBack(key: string, value: string)
    ensures ValueOf(Dir(key, value), key) == if '=' !in key && ValidValue(value) then Some(value) else None
  {
    hide ValidValue;
    if '=' !in key {
      SplitOnceIs(key, value, '=');
    } else {
      assert Dir(key, value)[|key|] == '=';
    }
  }

  function Dirs(keys: seq<string>, values: Values): (dirs: seq<string>)
    requires |keys| == |values|
    ensures |dirs| == |keys|
    ensures forall i :: 0 <= i < |keys| ==> dirs[i] == Dir(keys[i], values[i])
  {
    seq(|keys|, i requires 0 <= i < |keys| => Dir(keys[i], values[i]))
  }

  predicate NoneHas(keys: seq<string>, c: char) {
    forall k <- keys :: c !in k
  }

  lemma {:induction false} DirsReadBack(keys: seq<string>, values: Values)
    requires |keys| == |values| && AllValid(values)
    ensures ValuesFromDirs(Dirs(keys, values), keys) == if NoneHas(keys, '=') then Some(values) else None
  {
    hide ValidValue;
    if keys != [] {
      assert keys[0] in keys && values[0] in values;
      assert Dirs(keys, values)[1..] == Dirs(keys[1..], values[1..]);
      DirReadsBack(keys[0], values[0]);
      DirsReadBack(keys[1..], values[1..]);
      assert NoneHas(keys, '=') <==> '=' !in keys[0] && NoneHas(keys[1..], '=') by {
        assert forall k <- keys :: k == keys[0] || k in keys[1..];
      }
      assert values == [values[0]] + values[1..];
    }
  }

  lemma {:induction false} PathSplits(keys: seq<string>, values: Values)
    requires |keys| == |values| > 0 && AllValid(values) && NoneHas(keys, '/')
    ensures Split(DirPath(keys, values), '/') == Dirs(keys, values)
  {
    var dir := Dir(keys[0], values[0]);
    assert keys[0] in keys && values[0] in values;
    assert '/' !in dir;
    if |keys| == 1 {
      SplitNone(dir, '/');
    } else {
      SplitFirst(dir, DirPath(keys[1..], values[1..]), '/');
      PathSplits(keys[1..], values[1..]);
    }
  }

  /** A key with a slash makes the path deeper than there are keys. */
  lemma {:induction false} PathIsDeep(keys: seq<string>, values: Values)
    requires |keys| == |values| > 0
    ensures |Split(DirPath(keys, values), '/')| >= |keys|
    ensures !NoneHas(keys, '/') ==> |Split(DirPath(keys, values), '/')| > |keys|
  {
    var dir := Dir(keys[0], values[0]);
    SplitCounts(dir, '/');
    assert forall k <- keys :: k == keys[0] || k in keys[1..];
    if '/' in keys[0] {
      var i :| 0 <= i < |keys[0]| && keys[0][i] == '/';
      assert dir[i] == '/';
    }
    if |keys| > 1 {
      var rest := DirPath(keys[1..], values[1..]);
      PathIsDeep(keys[1..], values[1..]);
      SplitMore(dir, rest, '/');
    }
  }

  lemma {:induction false} SplitCounts(s: string, sep: char)
    ensures sep in s ==> |Split(s, sep)| > 1
  {
    if s != "" && s[0] != sep {
      SplitCounts(s[1..], sep);
    }
  }

  lemma {:induction false} SplitMore(a: string, b: string, sep: char)
    ensures |Split(a + [sep] + b, sep)| == |Split(a, sep)| + |Split(b, sep)|
  {
    var s := a + [sep] + b;
    if a == "" {
      assert s == [sep] + b && s[1..] == b;
    } else {
      assert s[0] == a[0] && s[1..] == a[1..] + [sep] + b;
      SplitMore(a[1..], b, sep);
    }
  }

  /** Reading the directories of a partition's path gives its values back exactly when no key has a `=` or
      a `/` in it; otherwise the partition is not found at all. */
  lemma PathRoundTrip(keys: seq<string>, values: Values)
    requires |keys| == |values| > 0 && AllValid(values)
    ensures ValuesFromDirs(Split(DirPath(keys, values), '/'), keys) ==
            if NoneHas(keys, '=') && NoneHas(keys, '/') then Some(values) else None
  {
    hide ValidValue, ValuesFromDirs, DirPath;
    if NoneHas(keys, '/') {
      PathSplits(keys, values);
      DirsReadBack(keys, values);
    } else {
      PathIsDeep(keys, values);
      WrongDepth(Split(DirPath(keys, values), '/'), keys);
    }
  }

  lemma WrongDepth(dirs: seq<string>, keys: seq<string>)
    requires |dirs| != |keys|
    ensures ValuesFromDirs(dirs, keys).None?
  {
  }

  /** The other way round: directories that are read as a partition are those of its path. */
  lemma {:induction false} FoundIsBuilt(dirs: seq<string>, keys: seq<string>)
    requires ValuesFromDirs(dirs, keys).Some?
    ensures var values := ValuesFromDirs(dirs, keys).value;
            AllValid(values) && dirs == Dirs(keys, values)
  {
    hide ValidValue;
    if dirs != [] {
      FoundIsBuilt(dirs[1..], keys[1..]);
      var values := ValuesFromDirs(dirs, keys).value;
      assert values == [values[0]] + values[1..];
      assert forall v <- values :: v == values[0] || v in values[1..];
      assert dirs == [dirs[0]] + dirs[1..];
    }
  }

  // ---- discovery

  /** The directories above a file. */
  function Parent(path: seq<string>): seq<string> {
    if path == [] then [] else path[..|path| - 1]
  }

  function FoundAt(path: seq<string>, keys: seq<string>): Option<Values> {
    ValuesFromDirs(Parent(path), keys)
  }

  function Found(paths: seq<seq<string>>, keys: seq<string>): set<Values> {
    set p | p in paths && FoundAt(p, keys).Some? :: FoundAt(p, keys).value
  }

  /** Each partition that holds an object, once. */
  method DiscoverPartitions(paths: seq<seq<string>>, keys: seq<string>) returns (found: set<Values>)
    ensures found == Found(paths, keys)
    ensures forall values <- found :: |values| == |keys| && AllValid(values)
  {
    hide ValuesFromDirs, ValidValue;
    found := {};
    for i := 0 to |paths|
      invariant found == Found(paths[..i], keys)
      invariant forall values <- found :: |values| == |keys| && AllValid(values)
    {
      var values := ValuesFromDirs(Parent(paths[i]), keys);
      assert paths[..i + 1] == paths[..i] + [paths[i]];
      FoundMore(paths[..i], paths[i], keys);
      if values.Some? {
        FoundIsBuilt(Parent(paths[i]), keys);
        found := found + {values.value};
      }
    }
    assert paths[..|paths|] == paths;
  }

  lemma FoundMore(paths: seq<seq<string>>, path: seq<string>, keys: seq<string>)
    ensures Found(paths + [path], keys) ==
            Found(paths, keys) + if FoundAt(path, keys).Some? then {FoundAt(path, keys).value} else {}
  {
    hide FoundAt;
    assert forall p :: p in paths + [path] <==> p in paths || p == path;
  }

  /** A written partition is discovered from any file in it. */
  lemma WrittenIsFound(paths: seq<seq<string>>, keys: seq<string>, values: Values, file: string)
    requires |keys| == |values| && AllValid(values) && NoneHas(keys, '=')
    requires Dirs(keys, values) + [file] in paths
    ensures values in Found(paths, keys)
  {
    hide ValidValue, ValuesFromDirs;
    var path := Dirs(keys, values) + [file];
    assert Parent(path) == Dirs(keys, values);
    DirsReadBack(keys, values);
    assert FoundAt(path, keys) == Some(values);
  }

  /** A partition is found exactly when its values are valid, no key has a `=` in it, and some object lies in its
      directories. */
  lemma FoundExactly(paths: seq<seq<string>>, keys: seq<string>, values: Values)
    requires keys != []
    ensures values in Found(paths, keys) <==>
            && |values| == |keys| && AllValid(values) && NoneHas(keys, '=')
            && exists p <- paths ::
                 |p| == |keys| + 1 && forall i :: 0 <= i < |keys| ==> p[i] == keys[i] + "=" + values[i]
  {
    hide ValidValue, ValuesFromDirs, NoneHas;
    if values in Found(paths, keys) {
      var p :| p in paths && FoundAt(p, keys) == Some(values);
      FoundIsBuilt(Parent(p), keys);
      DirsReadBack(keys, values);
      assert |p| == |keys| + 1 && forall i :: 0 <= i < |keys| ==> p[i] == Parent(p)[i];
    }
    if |values| == |keys| && AllValid(values) && NoneHas(keys, '=') {
      if p :| p in paths && |p| == |keys| + 1 && forall i :: 0 <= i < |keys| ==> p[i] == keys[i] + "=" + values[i] {
        assert p == Dirs(keys, values) + [p[|keys|]];
        WrittenIsFound(paths, keys, values, p[|keys|]);
      }
    }
  }

  /** A value is refused when it is empty, or has a slash, a backslash or two dots in a row anywhere. */
  lemma ValuesExactly(v: string)
    ensures ValidValue(v) <==>
            v != "" && forall a: string, b: string :: v != a + "/" + b && v != a + "\\" + b && v != a + ".." + b
  {
    if ValidValue(v) {
      forall a: string, b: string
        ensures v != a + "/" + b && v != a + "\\" + b && v != a + ".." + b
      {
        assert (a + "/" + b)[|a|] == '/' && (a + "\\" + b)[|a|] == '\\';
        assert (a + ".." + b)[|a|] == '.' && (a + ".." + b)[|a| + 1] == '.';
      }
    } else if v != "" {
      if i :| 0 <= i < |v| && (v[i] == '/' || v[i] == '\\') {
        assert v == v[..i] + [v[i]] + v[i + 1..];
      } else {
        var i :| 0 <= i < |v| - 1 && v[i] == '.' && v[i + 1] == '.';
        assert v == v[..i] + ".." + v[i + 2..];
      }
    }
  }

  // ---- repair

  const BATCH: nat := 100

  datatype Answer = Accepted | AlreadyExists | Refused

  /** What the service does with its k-th batch: its answer, and what it registers when it does not accept
      the whole batch. */
  type Registrar = nat -> (Answer, set<Values>)

  predicate Distinct(s: seq<Values>) {
    forall i, j :: 0 <= i < j < |s| ==> s[i] != s[j]
  }

  function Flatten(batches: seq<seq<Values>>): seq<Values> {
    if batches == [] then [] else Flatten(batches[..|batches| - 1]) + batches[|batches| - 1]
  }

  lemma {:induction false} DistinctCount(s: seq<Values>)
    requires Distinct(s)
    ensures |Elements(s)| == |s|
  {
    if s != [] {
      var front, last := s[..|s| - 1], s[|s| - 1];
      DistinctCount(front);
      assert Elements(s) == Elements(front) + {last};
    }
  }

  lemma DistinctMore(list: seq<Values>, v: Values)
    requires Distinct(list) && v !in Elements(list)
    ensures Distinct(list + [v]) && Elements(list + [v]) == Elements(list) + {v}
  {
    assert forall i :: 0 <= i < |list| ==> list[i] in Elements(list);
  }

  /** A set as a list, in some order. */
  method ToList(items: set<Values>) returns (list: seq<Values>)
    ensures Distinct(list) && Elements(list) == items && |list| == |items|
    ensures forall v <- list :: v in items
  {
    list := [];
    var rest := items;
    while rest != {}
      invariant Distinct(list) && Elements(list) == items - rest && rest <= items
      decreases |rest|
    {
      hide Distinct, Elements;
      var v :| v in rest;
      DistinctMore(list, v);
      list, rest := list + [v], rest - {v};
    }
    DistinctCount(list);
    assert forall v <- list :: v in Elements(list);
  }

  /** Growing from one set into another adds as many as are missing exactly when nothing is left out. */
  lemma AddedCount(before: set<Values>, after: set<Values>, missing: set<Values>)
    requires before <= after <= before + missing && before !! missing
    ensures |after| - |before| == |missing| <==> missing <= after
  {
    var added := after - before;
    assert after == before + added && |after| == |before| + |added|;
    assert added <= missing;
    SubsetSize(added, missing);
    if missing <= after {
      assert added == missing;
    }
  }

  ghost predicate NoneRefused(service: Registrar, n: nat) {
    forall k: nat :: k < n ==> !service(k).0.Refused?
  }

  ghost predicate AllAccepted(service: Registrar, n: nat) {
    forall k: nat :: k < n ==> service(k).0.Accepted?
  }

  /** What sending `missing`, or the front of it, in batches does. */
  ghost predicate Registered(before: set<Values>, missing: seq<Values>, after: set<Values>, sent: seq<seq<Values>>, service: Registrar) {
    && Flatten(sent) <= missing
    && (forall b <- sent :: 0 < |b| <= BATCH)
    && before <= after <= before + Elements(missing)
    && (AllAccepted(service, |sent|) && Flatten(sent) == missing ==> after == before + Elements(missing))
  }

  lemma NothingSent(missing: seq<Values>, before: set<Values>, service: Registrar)
    ensures Flatten([]) == missing[..0] && Registered(before, missing[..0], before, [], service)
    ensures NoneRefused(service, 0)
  {
  }

  lemma RefusedMore(service: Registrar, n: nat)
    ensures NoneRefused(service, n + 1) <==> NoneRefused(service, n) && !service(n).0.Refused?
  {
    assert n < n + 1;
  }

  lemma ElementsSplit(a: seq<Values>, b: seq<Values>)
    ensures Elements(a + b) == Elements(a) + Elements(b)
  {
  }

  lemma FlattenMore(sent: seq<seq<Values>>, batch: seq<Values>)
    ensures Flatten(sent + [batch]) == Flatten(sent) + batch
  {
    assert (sent + [batch])[..|sent|] == sent;
  }

  lemma OneMoreBatch(missing: seq<Values>, i: nat, end: nat, sent: seq<seq<Values>>, had: set<Values>,
                     service: Registrar, before: set<Values>, has: set<Values>)
    requires i < end <= |missing| && end - i <= BATCH
    requires Flatten(sent) == missing[..i] && Registered(before, missing[..i], had, sent, service)
    requires var (answer, kept) := service(|sent|);
             has == had + if answer.Accepted? then Elements(missing[i..end]) else kept * Elements(missing[i..end])
    ensures Flatten(sent + [missing[i..end]]) == missing[..end]
    ensures Registered(before, missing[..end], has, sent + [missing[i..end]], service)
  {
    hide Elements, Flatten;
    FlattenMore(sent, missing[i..end]);
    ElementsSplit(missing[..i], missing[i..end]);
    assert missing[..end] == missing[..i] + missing[i..end];
    if AllAccepted(service, |sent| + 1) {
      assert service(|sent|).0.Accepted? && AllAccepted(service, |sent|);
    }
  }

  lemma MoreMissing(before: set<Values>, missing: seq<Values>, end: nat, after: set<Values>, sent: seq<seq<Values>>, service: Registrar)
    requires end <= |missing| && |sent| > 0 && service(|sent| - 1).0.Refused?
    requires Registered(before, missing[..end], after, sent, service)
    ensures Registered(before, missing, after, sent, service)
  {
    hide Elements, Flatten;
    ElementsSplit(missing[..end], missing[end..]);
    assert missing == missing[..end] + missing[end..];
    assert !AllAccepted(service, |sent|);
  }

  // ---- where partitions are

  datatype PartitionInput = PartitionInput(values: Values, location: string)

  function ValuesOf(inputs: seq<PartitionInput>): (values: seq<Values>)
    ensures |values| == |inputs| && forall i :: 0 <= i < |inputs| ==> values[i] == inputs[i].values
  {
    seq(|inputs|, i requires 0 <= i < |inputs| => inputs[i].values)
  }

  function BatchValues(sent: seq<seq<PartitionInput>>): (batches: seq<seq<Values>>)
    ensures |batches| == |sent| && forall i :: 0 <= i < |sent| ==> batches[i] == ValuesOf(sent[i])
  {
    seq(|sent|, i requires 0 <= i < |sent| => ValuesOf(sent[i]))
  }

  /** The location is the one of the table's partition with these values. */
  predicate IsAt(values: Values, at: string, keys: seq<string>, location: string) {
    |values| == |keys| > 0 && PartitionLocation(location, keys, values) == Ok(at)
  }

  /** Its directories read back as the values, exactly when no key has a `=` or a `/` in it. */
  lemma LocationReadsBack(values: Values, at: string, keys: seq<string>, location: string)
    requires IsAt(values, at, keys, location)
    ensures var root := TrimSlashes(location) + "/";
            && root <= at && at[|at| - 1] == '/' && |root| < |at|
            && ValuesFromDirs(Split(at[|root|..|at| - 1], '/'), keys) ==
               if NoneHas(keys, '=') && NoneHas(keys, '/') then Some(values) else None
  {
    hide ValidValue, ValuesFromDirs, DirPath, TrimSlashes, Split;
    var root, path := TrimSlashes(location) + "/", DirPath(keys, values);
    PathRoundTrip(keys, values);
    DirPathIsSome(keys, values);
    assert at == root + path + "/";
    assert at[|root|..|at| - 1] == path;
  }

  lemma DirPathIsSome(keys: seq<string>, values: Values)
    requires |keys| == |values| > 0
    ensures DirPath(keys, values) != ""
  {
  }

  /** Partitions the table takes are entered where they are said to be, unless they are there already. */
  function Entered(table: map<Values, string>, inputs: seq<PartitionInput>, taken: set<Values>): map<Values, string> {
    if inputs == [] then table
    else
      var front, last := Entered(table, inputs[..|inputs| - 1], taken), inputs[|inputs| - 1];
      if last.values in taken && last.values !in front then front[last.values := last.location] else front
  }

  /** Only new partitions were entered, each at its own location. */
  ghost predicate Grown(before: map<Values, string>, after: map<Values, string>, keys: seq<string>, location: string) {
    && (forall v <- before :: v in after && after[v] == before[v])
    && (forall v <- after :: v in before || IsAt(v, after[v], keys, location))
  }

  predicate AllAt(inputs: seq<PartitionInput>, keys: seq<string>, location: string) {
    forall p <- inputs :: IsAt(p.values, p.location, keys, location)
  }

  lemma {:induction false} EnteredKeys(table: map<Values, string>, inputs: seq<PartitionInput>, taken: set<Values>)
    ensures Entered(table, inputs, taken).Keys == table.Keys + taken * Elements(ValuesOf(inputs))
  {
    if inputs != [] {
      var front, last := inputs[..|inputs| - 1], inputs[|inputs| - 1];
      EnteredKeys(table, front, taken);
      assert ValuesOf(inputs) == ValuesOf(front) + [last.values];
      ElementsSplit(ValuesOf(front), [last.values]);
    }
  }

  lemma {:induction false} EnteredGrows(table: map<Values, string>, inputs: seq<PartitionInput>, taken: set<Values>,
                                        keys: seq<string>, location: string)
    requires AllAt(inputs, keys, location)
    ensures Grown(table, Entered(table, inputs, taken), keys, location)
  {
    hide IsAt;
    if inputs != [] {
      assert inputs[|inputs| - 1] in inputs;
      EnteredGrows(table, inputs[..|inputs| - 1], taken, keys, location);
    }
  }

  lemma GrownTwice(a: map<Values, string>, b: map<Values, string>, c: map<Values, string>, keys: seq<string>, location: string)
    requires Grown(a, b, keys, location) && Grown(b, c, keys, location)
    ensures Grown(a, c, keys, location)
  {
    hide IsAt;
  }

  /** The partitions in `done` have been sent, with their locations. */
  ghost predicate Sent(before: map<Values, string>, done: seq<Values>, after: map<Values, string>,
                       sent: seq<seq<PartitionInput>>, service: Registrar, keys: seq<string>, location: string)
  {
    && Flatten(BatchValues(sent)) == done
    && Registered(before.Keys, done, after.Keys, BatchValues(sent), service)
    && Grown(before, after, keys, location)
    && forall b <- sent :: AllAt(b, keys, location)
  }

  lemma NoneSent(missing: seq<Values>, table: map<Values, string>, service: Registrar, keys: seq<string>, location: string)
    ensures NoneRefused(service, 0) && Sent(table, missing[..0], table, [], service, keys, location)
  {
    NothingSent(missing, table.Keys, service);
    assert BatchValues([]) == [];
  }

  lemma SentMore(before: map<Values, string>, missing: seq<Values>, i: nat, end: nat, had: map<Values, string>,
                 sent: seq<seq<PartitionInput>>, has: map<Values, string>, sent': seq<seq<PartitionInput>>,
                 service: Registrar, keys: seq<string>, location: string)
    requires i < end <= |missing| && end - i <= BATCH
    requires Sent(before, missing[..i], had, sent, service, keys, location)
    requires |sent'| == |sent| + 1 && sent <= sent' && AllAt(sent'[|sent|], keys, location)
    requires BatchValues(sent') == BatchValues(sent) + [missing[i..end]]
    requires var (answer, kept) := service(|sent|);
             has.Keys == had.Keys + if answer.Accepted? then Elements(missing[i..end]) else kept * Elements(missing[i..end])
    requires Grown(had, has, keys, location)
    ensures Sent(before, missing[..end], has, sent', service, keys, location)
  {
    hide Elements, Flatten, Registered, Grown, AllAt;
    GrownTwice(before, had, has, keys, location);
    OneMoreBatch(missing, i, end, BatchValues(sent), had.Keys, service, before.Keys, has.Keys);
    assert sent' == sent + [sent'[|sent|]];
  }

  lemma SentFront(before: map<Values, string>, missing: seq<Values>, end: nat, after: map<Values, string>,
                  sent: seq<seq<PartitionInput>>, service: Registrar, keys: seq<string>, location: string)
    requires end <= |missing| && |sent| > 0 && service(|sent| - 1).0.Refused?
    requires Sent(before, missing[..end], after, sent, service, keys, location)
    ensures Registered(before.Keys, missing, after.Keys, BatchValues(sent), service) && !NoneRefused(service, |sent|)
    ensures Grown(before, after, keys, location) && forall b <- sent :: AllAt(b, keys, location)
  {
    MoreMissing(before.Keys, missing, end, after.Keys, BatchValues(sent), service);
  }

  lemma SentAll(before: map<Values, string>, missing: seq<Values>, after: map<Values, string>,
                sent: seq<seq<PartitionInput>>, service: Registrar, keys: seq<string>, location: string)
    requires Sent(before, missing, after, sent, service, keys, location)
    ensures Registered(before.Keys, missing, after.Keys, BatchValues(sent), service) && Flatten(BatchValues(sent)) == missing
    ensures Grown(before, after, keys, location) && forall b <- sent :: AllAt(b, keys, location)
  {
  }

  class GlueTable {
    /** The partitions the table has registered, and where they are. */
    var registered: map<Values, string>
    /** The batches sent, in order. */
    var sent: seq<seq<PartitionInput>>

    method BatchCreatePartition(inputs: seq<PartitionInput>, does: (Answer, set<Values>)) returns (answer: Answer)
      requires |inputs| <= BATCH
      modifies this
      ensures sent == old(sent) + [inputs]
      ensures answer == does.0
      ensures registered ==
              Entered(old(registered), inputs, if answer.Accepted? then Elements(ValuesOf(inputs)) else does.1)
    {
      sent := sent + [inputs];
      answer := does.0;
      registered := Entered(registered, inputs, if answer.Accepted? then Elements(ValuesOf(inputs)) else does.1);
    }

    /** One batch: the next partitions, each with its location. */
    method SendBatch(chunk: seq<Values>, keys: seq<string>, location: string, does: (Answer, set<Values>))
      returns (answer: Answer)
      requires 0 < |chunk| <= BATCH
      requires keys != [] && forall values <- chunk :: |values| == |keys| && AllValid(values)
      modifies this
      ensures answer == does.0
      ensures |sent| == |old(sent)| + 1 && old(sent) <= sent && AllAt(sent[|old(sent)|], keys, location)
      ensures BatchValues(sent) == BatchValues(old(sent)) + [chunk]
      ensures registered.Keys == old(registered).Keys + if answer.Accepted? then Elements(chunk) else does.1 * Elements(chunk)
      ensures Grown(old(registered), registered, keys, location)
    {
      hide AllValid, PartitionLocation, Elements, Entered, Grown, AllAt;
      var inputs := Inputs(chunk, keys, location);
      answer := BatchCreatePartition(inputs, does);
      assert ValuesOf(inputs) == chunk;
      ghost var taken := if answer.Accepted? then Elements(chunk) else does.1;
      EnteredKeys(old(registered), inputs, taken);
      EnteredGrows(old(registered), inputs, taken, keys, location);
      assert BatchValues(sent) == BatchValues(old(sent)) + [chunk];
    }

    /** Send `missing` in batches, until one is refused. */
    method RegisterAll(missing: seq<Values>, keys: seq<string>, location: string, service: Registrar) returns (r: Result<()>)
      requires keys != [] && forall values <- missing :: |values| == |keys| && AllValid(values)
      requires sent == []
      modifies this
      ensures Registered(old(registered).Keys, missing, registered.Keys, BatchValues(sent), service)
      ensures Grown(old(registered), registered, keys, location)
      ensures forall b <- sent :: AllAt(b, keys, location)
      ensures r == if NoneRefused(service, |sent|) then Ok(()) else Err(Io)
      ensures r.Ok? ==> Flatten(BatchValues(sent)) == missing
    {
      hide AllValid, Elements, Flatten, Registered, NoneRefused, PartitionLocation, Grown, AllAt, Sent;
      var i := 0;
      NoneSent(missing, registered, service, keys, location);
      while i < |missing|
        invariant i <= |missing| && NoneRefused(service, |sent|)
        invariant Sent(old(registered), missing[..i], registered, sent, service, keys, location)
      {
        var end := if i + BATCH < |missing| then i + BATCH else |missing|;
        ghost var before, had := sent, registered;
        assert forall values <- missing[i..end] :: values in missing;
        var answer := SendBatch(missing[i..end], keys, location, service(|sent|));
        SentMore(old(registered), missing, i, end, had, before, registered, sent, service, keys, location);
        RefusedMore(service, |before|);
        if answer.Refused? {
          SentFront(old(registered), missing, end, registered, sent, service, keys, location);
          return Err(Io);
        }
        i := end;
      }
      assert missing[..i] == missing;
      SentAll(old(registered), missing, registered, sent, service, keys, location);
      r := Ok(());
    }

    /** The input for each partition of a batch. The check of its values never refuses one that was
        discovered. */
    method Inputs(chunk: seq<Values>, keys: seq<string>, location: string) returns (inputs: seq<PartitionInput>)
      requires keys != [] && forall values <- chunk :: |values| == |keys| && AllValid(values)
      ensures ValuesOf(inputs) == chunk && AllAt(inputs, keys, location)
    {
      hide AllValid, PartitionLocation;
      inputs := [];
      for j := 0 to |chunk|
        invariant |inputs| == j
        invariant forall k :: 0 <= k < j ==>
                    inputs[k].values == chunk[k] && IsAt(chunk[k], inputs[k].location, keys, location)
      {
        assert chunk[j] in chunk;
        ValidHasLocation(location, keys, chunk[j]);
        inputs := inputs + [PartitionInput(chunk[j], PartitionLocation(location, keys, chunk[j]).value)];
      }
    }

    /** Register every partition directory the table does not know: the answers of `GetTable`, of the scan
        and of the pages of `GetPartitions` come first, and nothing is sent when one of them fails. There is no
        answer while the limit leaves the pages open. */
    method RepairTable(table: Result<Option<TableInfo>>, scan: Result<seq<seq<string>>>, pages: Service<Values>, limit: nat,
                       service: Registrar) returns (r: Option<Result<nat>>, ghost n: nat)
      requires sent == [] && forall k: nat :: Listed(pages, k) ==> Elements(Items(pages, k + 1)) == registered.Keys
      modifies this
      ensures table.Err? ==> r == Some(Err(table.error))
      ensures table.Ok? && table.value.None? ==> r == Some(Err(Plan))
      ensures table.Ok? && table.value.Some? && table.value.value.keys == [] ==> r == Some(Ok(0))
      ensures table.Ok? && table.value.Some? && table.value.value.keys != [] && !Located(table.value.value) ==> r == Some(Err(Plan))
      ensures IsTable(table) && scan.Err? ==> r == Some(Err(scan.error))
      ensures IsTable(table) && scan.Ok? && r.None? ==> Follows(pages, limit)
      ensures IsTable(table) && scan.Ok? && r.Some? && FailsAt(pages, n) ==> r.value == Err(ResponseAt(pages, n).error)
      ensures !IsTable(table) || scan.Err? || r.None? || FailsAt(pages, n) ==> registered == old(registered) && sent == []
      ensures IsTable(table) && scan.Ok? && (exists k: nat :: k < limit && Listed(pages, k)) ==> r.Some? && !FailsAt(pages, n)
      ensures IsTable(table) && scan.Ok? && r.Some? && !FailsAt(pages, n) ==>
                var info := table.value.value;
                && Listed(pages, n)
                && Repaired(old(registered).Keys, Found(scan.value, info.keys), registered.Keys, BatchValues(sent), service, r.value)
                && Grown(old(registered), registered, info.keys, info.location.value)
                && forall b <- sent :: AllAt(b, info.keys, info.location.value)
    {
      n := 0;
      var early := Early(table, scan);
      if early.Some? {
        return early, n;
      }
      var keys, location := table.value.value.keys, table.value.value.location.value;
      hide Found, Repaired, Registered, Elements, AllValid, Distinct, Flatten, NoneRefused, Grown, AllAt, Items, FailsAt, Listed;
      var discovered := DiscoverPartitions(scan.value, keys);
      var listed, m := ListPartitions(pages, limit);
      n := m;
      OnlyOneEnd(pages, limit, n);
      if listed.None? {
        return None, n;
      }
      if listed.value.Err? {
        return Some(Err(listed.value.error)), n;
      }
      ListedDoesNotFail(pages, n);
      var missing := ToList(discovered - Elements(listed.value.value));
      if missing == [] {
        NothingMissing(registered.Keys, discovered, service);
        NothingGrown(registered, keys, location);
        return Some(Ok(0)), n;
      }
      var done := RegisterAll(missing, keys, location, service);
      Conclude(old(registered).Keys, discovered, missing, registered.Keys, BatchValues(sent), service, done);
      r := Some(if done.Ok? then Ok(|missing|) else Err(done.error));
    }
  }

  lemma NothingGrown(table: map<Values, string>, keys: seq<string>, location: string)
    ensures Grown(table, table, keys, location)
  {
  }

  lemma ValidHasLocation(location: string, keys: seq<string>, values: Values)
    requires |keys| == |values| > 0 && AllValid(values)
    ensures PartitionLocation(location, keys, values).Ok?
  {
  }

  // ---- the pages of `GetPartitions`

  /** The first `n` pages came with a token, whatever it was. */
  ghost predicate Follows<T>(pages: Service<T>, n: nat) {
    forall k: nat :: k < n ==> ResponseAt(pages, k).Page? && ResponseAt(pages, k).next.Some?
  }

  ghost predicate Listed<T>(pages: Service<T>, n: nat) {
    Follows(pages, n) && Ends(pages, n)
  }

  ghost predicate FailsAt<T>(pages: Service<T>, n: nat) {
    Follows(pages, n) && ResponseAt(pages, n).Failure?
  }

  /** Pages that end before the limit neither lead on to it nor fail. */
  lemma OnlyOneEnd<T>(pages: Service<T>, limit: nat, n: nat)
    ensures (exists k: nat :: k < limit && Listed(pages, k)) ==> !Follows(pages, limit) && !FailsAt(pages, n)
  {
    if k: nat :| k < limit && Listed(pages, k) {
      assert ResponseAt(pages, k).next.None?;
    }
  }

  lemma ListedDoesNotFail<T>(pages: Service<T>, n: nat)
    requires Listed(pages, n)
    ensures !FailsAt(pages, n)
  {
  }

  method ListPartitions(pages: Service<Values>, limit: nat) returns (r: Option<Result<seq<Values>>>, ghost n: nat)
    ensures r.None? ==> Follows(pages, limit)
    ensures r.Some? && r.value.Ok? ==> Listed(pages, n) && r.value.value == Items(pages, n + 1)
    ensures r.Some? && r.value.Err? ==> FailsAt(pages, n) && r.value.error == ResponseAt(pages, n).error
  {
    hide ResponseAt;
    var partitions: seq<Values> := [];
    var token: Option<string> := None;
    n := 0;
    for k := 0 to limit
      invariant Follows(pages, k) && token == TokenAt(pages, k) && partitions == Items(pages, k)
    {
      n := k;
      NextToken(pages, k);
      ResponseIs(pages, k, token);
      match pages(k, token)
      case Failure(error) => return Some(Err(error)), n;
      case Page(items, next) =>
        partitions := partitions + items;
        if next.None? {
          return Some(Ok(partitions)), n;
        }
        token := next;
    }
    r := None;
  }

  // ---- what a repair comes to

  /** What `GetTable` says of a table: its partition keys and its location. */
  datatype TableInfo = TableInfo(keys: seq<string>, location: Option<string>)

  predicate Located(info: TableInfo) {
    info.location.Some? && info.location.value != ""
  }

  /** There is a table, with partition keys and a location. */
  predicate IsTable(table: Result<Option<TableInfo>>) {
    table.Ok? && table.value.Some? && table.value.value.keys != [] && Located(table.value.value)
  }

  /** The answer when it does not come to asking for partitions. */
  function Early(table: Result<Option<TableInfo>>, scan: Result<seq<seq<string>>>): (r: Option<Result<nat>>)
    ensures r.None? <==> IsTable(table) && scan.Ok?
  {
    if table.Err? then Some(Err(table.error))
    else if table.value.None? then Some(Err(Plan))
    else if table.value.value.keys == [] then Some(Ok(0))
    else if table.value.value.location.GetOr("") == "" then Some(Err(Plan))
    else if scan.Err? then Some(Err(scan.error))
    else None
  }

  /** Each batch held one to a hundred; no partition was sent twice and none that was registered or not
      found. Only a refused batch is an error. Otherwise every missing partition was sent and the count is
      how many; it is how many were added exactly when the service registered all it was sent, as it does
      when it accepts. */
  ghost predicate Repaired(before: set<Values>, found: set<Values>, after: set<Values>, sent: seq<seq<Values>>,
                           service: Registrar, r: Result<nat>)
  {
    var missing := found - before;
    && (forall b <- sent :: 0 < |b| <= 100)
    && Distinct(Flatten(sent)) && Elements(Flatten(sent)) <= missing
    && before <= after <= before + missing
    && (r.Ok? <==> NoneRefused(service, |sent|))
    && (r.Err? ==> r.error == Io)
    && (r.Ok? ==>
          && r.value == |missing|
          && Elements(Flatten(sent)) == missing
          && (r.value == |after| - |before| <==> found <= after))
    && (AllAccepted(service, |sent|) ==> after == before + found)
  }

  lemma NothingMissing(registered: set<Values>, found: set<Values>, service: Registrar)
    requires found - registered == {}
    ensures Repaired(registered, found, registered, [], service, Ok(0))
  {
    forall v <- found
      ensures v in registered
    {
      assert v in registered || v in found - registered;
    }
    assert registered + found == registered;
    NothingSent([], registered, service);
  }

  lemma Conclude(before: set<Values>, found: set<Values>, missing: seq<Values>, after: set<Values>, sent: seq<seq<Values>>,
                 service: Registrar, done: Result<()>)
    requires Distinct(missing) && Elements(missing) == found - before && |missing| == |found - before|
    requires Registered(before, missing, after, sent, service)
    requires done.Ok? <==> NoneRefused(service, |sent|)
    requires done.Ok? ==> Flatten(sent) == missing
    ensures Repaired(before, found, after, sent, service, if done.Ok? then Ok(|missing|) else Err(Io))
  {
    hide Flatten, Elements, Distinct, NoneRefused, AllAccepted;
    var got := Flatten(sent);
    FrontOf(got, missing);
    Counts(before, found, after, |missing|);
    AcceptedIsNotRefused(service, |sent|);
  }

  lemma FrontOf(got: seq<Values>, missing: seq<Values>)
    requires got <= missing && Distinct(missing)
    ensures Distinct(got) && Elements(got) <= Elements(missing)
  {
    assert missing == got + missing[|got|..];
  }

  lemma Counts(before: set<Values>, found: set<Values>, after: set<Values>, n: nat)
    requires before <= after <= before + (found - before) && n == |found - before|
    ensures n == |after| - |before| <==> found <= after
    ensures before + (found - before) == before + found
  {
    AddedCount(before, after, found - before);
    assert found - before <= after <==> found <= after by {
      assert forall v <- found :: v in before || v in found - before;
    }
  }

  lemma AcceptedIsNotRefused(service: Registrar, n: nat)
    ensures AllAccepted(service, n) ==> NoneRefused(service, n)
  {
  }

  lemma NothingFlattened(sent: seq<seq<Values>>)
    requires forall b <- sent :: 0 < |b|
    ensures Flatten(sent) == [] <==> sent == []
  {
    if sent != [] {
      assert sent[|sent| - 1] in sent;
    }
  }

  /** After a repair whose batches were accepted, a repair over the same directories sends nothing and counts
      0, whatever the service would do. */
  lemma SecondRepairAddsNothing(before: set<Values>, found: set<Values>, once: set<Values>, sent: seq<seq<Values>>,
                                service: Registrar, r: Result<nat>,
                                twice: set<Values>, sent': seq<seq<Values>>, service': Registrar, r': Result<nat>)
    requires Repaired(before, found, once, sent, service, r)
    requires AllAccepted(service, |sent|)
    requires Repaired(once, found, twice, sent', service', r')
    ensures sent' == [] && r' == Ok(0) && twice == once
  {
    assert found - once == {};
    NoElements(Flatten(sent'));
    NothingFlattened(sent');
  }
}
