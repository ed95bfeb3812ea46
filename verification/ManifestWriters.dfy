/** Up to eight writers, one update each, with any number of readers beside them, in any interleaving:
    nobody gives up, nobody loses a version, and the final manifest holds everything that was written. */
module ManifestWriters {
  import opened Collections
  import opened Wrappers
  import opened Manifests
  import opened ManifestLog
  import opened ManifestSafety
  import opened ManifestTheorems

  ghost function Writers(calls: seq<Call>): set<nat> {
    set i: nat | i < |calls| && calls[i].Update?
  }

  ghost function Owners(log: seq<Commit>): set<nat> {
    set i | 0 <= i < |log| :: log[i].id
  }

  lemma {:induction false} OwnersCount(log: seq<Commit>)
    requires forall i, j :: 0 <= i < j < |log| ==> log[i].id != log[j].id
    ensures |Owners(log)| == |log|
  {
    if log != [] {
      var rest := log[..|log| - 1];
      OwnersCount(rest);
      assert Owners(log) == Owners(rest) + {log[|log| - 1].id};
    }
  }

  /** There are at most as many commits as writers, and fewer while one of them has not committed. */
  lemma CommitsBoundedByWriters(s: Sys)
    requires Inv(s)
    ensures |s.log| <= |Writers(s.calls)|
    ensures forall p <- Writers(s.calls) :: NotCommitted(s.log, p) ==> |s.log| < |Writers(s.calls)|
  {
    OwnersCount(s.log);
    SubsetSize(Owners(s.log), Writers(s.calls));
    forall p <- Writers(s.calls) | NotCommitted(s.log, p)
      ensures |s.log| < |Writers(s.calls)|
    {
      SubsetSize(Owners(s.log) + {p}, Writers(s.calls));
    }
  }

  lemma StepGrowsCalls(s: Sys, a: Action)
    requires Enabled(s, a)
    ensures s.calls <= Step(s, a).calls
    ensures |Writers(s.calls)| <= |Writers(Step(s, a).calls)|
  {
    SubsetSize(Writers(s.calls), Writers(Step(s, a).calls));
  }

  lemma {:induction false} RunGrowsCalls(s: Sys, run: seq<Action>)
    requires CanRun(s, run)
    ensures |Writers(s.calls)| <= |Writers(After(s, run).calls)|
    decreases |run|
  {
    if run != [] {
      StepGrowsCalls(s, run[0]);
      RunGrowsCalls(Step(s, run[0]), run[1..]);
    }
  }

  /** With at most eight writers every run stays in the window by itself. */
  lemma {:induction false} FewWritersStayInWindow(s: Sys, run: seq<Action>)
    requires Inv(s) && CanRun(s, run)
    requires |Writers(After(s, run).calls)| <= WRITE_ATTEMPTS
    ensures AllInWindow(s, run)
    decreases |run|
  {
    if run != [] {
      RunGrowsCalls(s, run);
      CommitsBoundedByWriters(s);
      HighestIsLast(s);
      StepKeeps(s, run[0]);
      FewWritersStayInWindow(Step(s, run[0]), run[1..]);
    }
  }

  /** Nobody gives up or loses the version it listed: a call returns success, a refusal of its own
      mutation, or a store failure. No condition on the interleaving. */
  lemma EightWritersNeverGiveUp(run: seq<Action>, s: Sys)
    requires CanRun(INIT, run) && After(INIT, run) == s
    requires |Writers(s.calls)| <= 8
    ensures Reaches(run, s)
    ensures forall r <- s.returned :: !r.outcome.GaveUp? && !r.outcome.Disappeared?
  {
    FewWritersStayInWindow(INIT, run);
    ReachesInv(run, s);
    CommitsBoundedByWriters(s);
    forall r <- s.returned
      ensures !r.outcome.GaveUp? && !r.outcome.Disappeared?
    {
      assert ReturnInv(s.calls, s.log, r);
    }
  }

  ghost predicate NoStoreFailure(run: seq<Action>) {
    forall a <- run :: !a.Fail?
  }

  lemma {:induction false} NoIoError(s: Sys, run: seq<Action>)
    requires CanRun(s, run) && NoStoreFailure(run)
    requires forall r <- s.returned :: !r.outcome.IoError?
    ensures forall r <- After(s, run).returned :: !r.outcome.IoError?
    decreases |run|
  {
    if run != [] {
      assert run[0] in run;
      NoIoError(Step(s, run[0]), run[1..]);
    }
  }

  /** `mutate` adds table `key` to whatever manifest it is given, and never refuses. */
  ghost predicate Inserts(mutate: Mutation, key: string, entry: TableEntry) {
    forall m: Manifest :: mutate(m) == Ok(m.(tables := m.tables[key := entry]))
  }

  /** Every writer inserts its own table under its own key. */
  ghost predicate OwnTables(calls: seq<Call>, keys: seq<string>, entries: seq<TableEntry>) {
    && |keys| == |entries| == |calls|
    && (forall p :: 0 <= p < |calls| && calls[p].Update? ==> Inserts(calls[p].mutate, keys[p], entries[p]))
    && (forall p, q :: 0 <= p < q < |calls| ==> keys[p] != keys[q])
  }

  lemma CommitInserts(calls: seq<Call>, log: seq<Commit>, keys: seq<string>, entries: seq<TableEntry>, n: nat)
    requires LogInv(calls, log) && n < |log| && OwnTables(calls, keys, entries)
    ensures var p := log[n].id; At(log, n + 1).tables == At(log, n).tables[keys[p] := entries[p]]
  {
    assert Applied(calls, log, n);
    assert Inserts(calls[log[n].id].mutate, keys[log[n].id], entries[log[n].id]);
  }

  lemma CommitsHaveOwnKeys(calls: seq<Call>, log: seq<Commit>, keys: seq<string>, entries: seq<TableEntry>, v: nat, w: nat)
    requires LogInv(calls, log) && v < w < |log| && OwnTables(calls, keys, entries)
    ensures keys[log[v].id] != keys[log[w].id]
  {
    var p, q := log[v].id, log[w].id;
    assert p != q && p < |calls| && q < |calls|;
  }

  ghost predicate Holds(tables: map<string, TableEntry>, key: string, entry: TableEntry) {
    key in tables && tables[key] == entry
  }

  /** Setting distinct keys one after another loses none of them. */
  lemma {:induction false} KeysAccumulate(states: seq<map<string, TableEntry>>, keys: seq<string>, entries: seq<TableEntry>, n: nat, v: nat)
    requires |states| == |keys| + 1 && |keys| == |entries| && v < n <= |keys|
    requires forall i :: 0 <= i < |keys| ==> states[i + 1] == states[i][keys[i] := entries[i]]
    requires forall i, j :: 0 <= i < j < |keys| ==> keys[i] != keys[j]
    ensures Holds(states[n], keys[v], entries[v])
    decreases n
  {
    var k := n - 1;
    assert states[k + 1] == states[k][keys[k] := entries[k]];
    if v < k {
      KeysAccumulate(states, keys, entries, k, v);
    }
  }

  ghost function TablesOver(log: seq<Commit>): (states: seq<map<string, TableEntry>>)
    ensures |states| == |log| + 1
    ensures forall i :: 0 <= i <= |log| ==> states[i] == At(log, i).tables
  {
    seq(|log| + 1, i requires 0 <= i <= |log| => At(log, i).tables)
  }

  /** `items`, picked by the owners of the commits in commit order. */
  ghost function ByOwner<T>(log: seq<Commit>, items: seq<T>): (picked: seq<T>)
    requires forall i :: 0 <= i < |log| ==> log[i].id < |items|
    ensures |picked| == |log|
    ensures forall i :: 0 <= i < |log| ==> picked[i] == items[log[i].id]
  {
    seq(|log|, i requires 0 <= i < |log| => items[log[i].id])
  }

  lemma TablesAccumulate(calls: seq<Call>, log: seq<Commit>, keys: seq<string>, entries: seq<TableEntry>, v: nat)
    requires LogInv(calls, log) && v < |log| && OwnTables(calls, keys, entries)
    ensures Holds(At(log, |log|).tables, keys[log[v].id], entries[log[v].id])
  {
    var states, ks, es := TablesOver(log), ByOwner(log, keys), ByOwner(log, entries);
    assert forall i :: 0 <= i < |ks| ==> states[i + 1] == states[i][ks[i] := es[i]] by {
      forall i | 0 <= i < |ks|
        ensures states[i + 1] == states[i][ks[i] := es[i]]
      {
        CommitInserts(calls, log, keys, entries, i);
      }
    }
    assert forall i, j :: 0 <= i < j < |ks| ==> ks[i] != ks[j] by {
      forall i, j | 0 <= i < j < |ks|
        ensures ks[i] != ks[j]
      {
        CommitsHaveOwnKeys(calls, log, keys, entries, i, j);
      }
    }
    KeysAccumulate(states, ks, es, |log|, v);
  }

  lemma WritersSucceed(run: seq<Action>, s: Sys, keys: seq<string>, entries: seq<TableEntry>)
    requires CanRun(INIT, run) && After(INIT, run) == s && NoStoreFailure(run)
    requires |Writers(s.calls)| <= 8
    requires OwnTables(s.calls, keys, entries)
    ensures forall r <- s.returned :: r.id in Writers(s.calls) ==> r.outcome.Committed?
  {
    EightWritersNeverGiveUp(run, s);
    ReachesInv(run, s);
    NoIoError(INIT, run);
    forall r <- s.returned | r.id in Writers(s.calls)
      ensures r.outcome.Committed?
    {
      assert ReturnInv(s.calls, s.log, r);
      if r.outcome.Rejected? {
        assert Inserts(s.calls[r.id].mutate, keys[r.id], entries[r.id]);
      }
    }
  }

  /** The concurrent-writers guarantee: when at most eight calls each insert their own table, the store
      answers, and every call has returned, all of them succeeded and the manifest holds every table. */
  lemma EveryTableSurvives(run: seq<Action>, s: Sys, keys: seq<string>, entries: seq<TableEntry>)
    requires CanRun(INIT, run) && After(INIT, run) == s && NoStoreFailure(run)
    requires |Writers(s.calls)| <= 8
    requires OwnTables(s.calls, keys, entries)
    requires s.procs == map[]
    ensures forall p <- Writers(s.calls) :: exists r <- s.returned :: r.id == p && r.outcome.Committed?
    ensures forall p <- Writers(s.calls) ::
              Holds(Resolve(s.files).tables, keys[p], entries[p])
  {
    EightWritersNeverGiveUp(run, s);
    WritersSucceed(run, s, keys, entries);
    ReachesInv(run, s);
    HighestIsLast(s);
    forall p <- Writers(s.calls)
      ensures exists r <- s.returned :: r.id == p && r.outcome.Committed?
      ensures Holds(Resolve(s.files).tables, keys[p], entries[p])
    {
      assert HasReturned(s.returned, p);
      var r :| r in s.returned && r.id == p;
      assert ReturnInv(s.calls, s.log, r);
      TablesAccumulate(s.calls, s.log, keys, entries, r.outcome.version);
    }
  }
}
