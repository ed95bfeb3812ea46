/** The versioned-manifest commit protocol as a step system.

    Any number of `load` and `update` calls run at once against one object store. Each step is one
    atomic store request (list, get, create-if-absent put, delete) together with the local work up to
    the next request, so the runs of this system are the interleavings of the calls. */
module ManifestLog {
  import opened Wrappers
  import opened Manifests

  const WRITE_ATTEMPTS: nat := 8
  const READ_ATTEMPTS: nat := 4
  const VERSIONS_RETAINED: nat := 10

  /** The closure handed to `update`: a pure function of the manifest, which may refuse. */
  type Mutation = Manifest -> Result<Manifest>

  datatype Call = Load | Update(mutate: Mutation)

  /** The store request a call is about to make. `lost` counts puts that lost the race, `missed` gets that
      found the listed version gone since the last lost put. */
  datatype Pc =
    | Listing(lost: nat, missed: nat)
    | Getting(lost: nat, missed: nat, version: nat)
    | Putting(lost: nat, next: nat, body: Manifest)
    | PruneListing(version: nat)
    | Pruning(version: nat, todo: set<nat>)

  /** A running call. `begun` and `started` are the numbers of commits and of returns when it was
      invoked, `seen` the number of commits at its last listing: history, never read by a step. */
  datatype Proc = Proc(call: Call, begun: nat, started: nat, seen: nat, pc: Pc)

  datatype Outcome =
    | Loaded(manifest: Manifest, from: Option<nat>)
    | Committed(version: nat)
    | Rejected(error: Error)
    | GaveUp
    | Disappeared
    | IoError

  datatype Return = Return(id: nat, begun: nat, started: nat, seen: nat, ended: nat, outcome: Outcome)

  /** A successful put, recorded when it happens. */
  datatype Commit = Commit(id: nat, version: nat, result: Manifest)

  /** `files` is the store. The rest is the calls in flight and the history: every invocation (a call
      is named by its index), every commit and every return, in order. */
  datatype Sys = Sys(
    files: map<nat, Manifest>,
    calls: seq<Call>,
    procs: map<nat, Proc>,
    log: seq<Commit>,
    returned: seq<Return>)

  /** `Fail` is the pending request failing with an error other than not-found or already-exists. A put
      that reports a failure may have been `done` all the same, if its name was free;
      a failed `Delete` leaves its file. */
  datatype Action =
    | Invoke(call: Call)
    | List(id: nat)
    | Get(id: nat)
    | Put(id: nat)
    | PruneList(id: nat)
    | Delete(id: nat, version: nat, deleted: bool)
    | Fail(id: nat, done: bool)

  const INIT := Sys(map[], [], map[], [], [])

  lemma HighestOfMore(rest: set<nat>, w: nat, h: nat)
    requires h in rest && forall v <- rest :: v <= h
    ensures var top := if w < h then h else w; top in rest + {w} && forall v <- rest + {w} :: v <= top
  {
  }

  lemma {:induction false} HasHighest(versions: set<nat>)
    requires versions != {}
    ensures exists h :: h in versions && forall v <- versions :: v <= h
    decreases |versions|
  {
    var w :| w in versions;
    var rest := versions - {w};
    assert versions == rest + {w};
    if rest == {} {
      assert forall v <- versions :: v <= w;
    } else {
      HasHighest(rest);
      var h :| h in rest && forall v <- rest :: v <= h;
      HighestOfMore(rest, w, h);
    }
  }

  /** The last of the sorted listing, or -1 for an empty one. */
  function Highest(versions: set<nat>): (h: int)
    ensures -1 <= h
    ensures h == -1 <==> versions == {}
    ensures h != -1 ==> h in versions
    ensures forall v <- versions :: v <= h
  {
    if versions == {} then -1 else
      HasHighest(versions);
      var h :| h in versions && forall v <- versions :: v <= h;
      h
  }

  /** The manifest a listing at this moment leads to. */
  function Resolve(files: map<nat, Manifest>): Manifest {
    var h := Highest(files.Keys);
    if h == -1 then EMPTY_MANIFEST else files[h]
  }

  predicate Enabled(s: Sys, a: Action) {
    match a
    case Invoke(_) => true
    case List(p) => p in s.procs && s.procs[p].pc.Listing?
    case Get(p) => p in s.procs && s.procs[p].pc.Getting?
    case Put(p) => p in s.procs && s.procs[p].pc.Putting?
    case PruneList(p) => p in s.procs && s.procs[p].pc.PruneListing?
    case Delete(p, v, _) =>
      && p in s.procs
      && s.procs[p].pc.Pruning?
      && v in s.procs[p].pc.todo
      && forall t <- s.procs[p].pc.todo :: v <= t
    case Fail(p, _) => p in s.procs && !s.procs[p].pc.Pruning?
  }

  function Goto(s: Sys, p: nat, q: Proc, pc: Pc): Sys {
    s.(procs := s.procs[p := q.(pc := pc)])
  }

  function Finish(s: Sys, p: nat, q: Proc, outcome: Outcome): Sys {
    s.(procs := s.procs - {p},
       returned := s.returned + [Return(p, q.begun, q.started, q.seen, |s.log|, outcome)])
  }

  /** The load of this attempt produced `m` at `version`: return it, or mutate it and go on to put. */
  function AfterLoad(s: Sys, p: nat, q: Proc, lost: nat, m: Manifest, version: Option<nat>): Sys {
    match q.call
    case Load => Finish(s, p, q, Loaded(m, version))
    case Update(mutate) =>
      match mutate(m)
      case Err(e) => Finish(s, p, q, Rejected(e))
      case Ok(body) => Goto(s, p, q, Putting(lost, if version.None? then 0 else version.value + 1, body))
  }

  function ListStep(s: Sys, p: nat): Sys
    requires Enabled(s, List(p))
  {
    var h := Highest(s.files.Keys);
    var q := s.procs[p].(seen := |s.log|);
    if h == -1 then AfterLoad(s, p, q, q.pc.lost, EMPTY_MANIFEST, None)
    else Goto(s, p, q, Getting(q.pc.lost, q.pc.missed, h))
  }

  function GetStep(s: Sys, p: nat): Sys
    requires Enabled(s, Get(p))
  {
    var q := s.procs[p];
    if q.pc.version in s.files then
      AfterLoad(s, p, q, q.pc.lost, s.files[q.pc.version], Some(q.pc.version))
    else if q.pc.missed + 1 < READ_ATTEMPTS then
      Goto(s, p, q, Listing(q.pc.lost, q.pc.missed + 1))
    else
      Finish(s, p, q, Disappeared)
  }

  /** The file is created. */
  function Created(s: Sys, p: nat): Sys
    requires Enabled(s, Put(p))
  {
    var pc := s.procs[p].pc;
    s.(files := s.files[pc.next := pc.body], log := s.log + [Commit(p, pc.next, pc.body)])
  }

  function PutStep(s: Sys, p: nat): Sys
    requires Enabled(s, Put(p))
  {
    var q := s.procs[p];
    var next := q.pc.next;
    if next in s.files then
      if q.pc.lost + 1 < WRITE_ATTEMPTS then Goto(s, p, q, Listing(q.pc.lost + 1, 0))
      else Finish(s, p, q, GaveUp)
    else
      var s' := Created(s, p);
      if next < VERSIONS_RETAINED then Finish(s', p, q, Committed(next))
      else Goto(s', p, q, PruneListing(next))
  }

  function PruneListStep(s: Sys, p: nat): Sys
    requires Enabled(s, PruneList(p))
  {
    var q := s.procs[p];
    var todo := set v | v in s.files && v + VERSIONS_RETAINED < q.pc.version;
    if todo == {} then Finish(s, p, q, Committed(q.pc.version))
    else Goto(s, p, q, Pruning(q.pc.version, todo))
  }

  function DeleteStep(s: Sys, p: nat, v: nat, deleted: bool): Sys
    requires Enabled(s, Delete(p, v, deleted))
  {
    var q := s.procs[p];
    var s' := if deleted then s.(files := s.files - {v}) else s;
    var todo := q.pc.todo - {v};
    if todo == {} then Finish(s', p, q, Committed(q.pc.version))
    else Goto(s', p, q, Pruning(q.pc.version, todo))
  }

  function FailStep(s: Sys, p: nat, done: bool): Sys
    requires Enabled(s, Fail(p, done))
  {
    var q := s.procs[p];
    if q.pc.PruneListing? then Finish(s, p, q, Committed(q.pc.version))
    else if q.pc.Putting? && q.pc.next !in s.files && done then Finish(Created(s, p), p, q, IoError)
    else Finish(s, p, q, IoError)
  }

  function Step(s: Sys, a: Action): Sys
    requires Enabled(s, a)
  {
    match a
    case Invoke(call) =>
      s.(calls := s.calls + [call],
         procs := s.procs[|s.calls| := Proc(call, |s.log|, |s.returned|, |s.log|, Listing(0, 0))])
    case List(p) => ListStep(s, p)
    case Get(p) => GetStep(s, p)
    case Put(p) => PutStep(s, p)
    case PruneList(p) => PruneListStep(s, p)
    case Delete(p, v, deleted) => DeleteStep(s, p, v, deleted)
    case Fail(p, done) => FailStep(s, p, done)
  }

  /** A put is in the window when the highest version present is at most eleven above the version the
      writer listed (-1 for an empty listing), that is at most ten above the one it lost. */
  ghost predicate InWindow(s: Sys, a: Action)
    requires Enabled(s, a)
  {
    a.Put? || (a.Fail? && a.done && s.procs[a.id].pc.Putting?) ==>
      Highest(s.files.Keys) <= s.procs[a.id].pc.next + VERSIONS_RETAINED
  }

  /** `run` is a sequence of steps the system can take from `s`. */
  predicate CanRun(s: Sys, run: seq<Action>)
    decreases |run|
  {
    run == [] || (Enabled(s, run[0]) && CanRun(Step(s, run[0]), run[1..]))
  }

  ghost predicate AllInWindow(s: Sys, run: seq<Action>)
    requires CanRun(s, run)
    decreases |run|
  {
    run == [] || (InWindow(s, run[0]) && AllInWindow(Step(s, run[0]), run[1..]))
  }

  function After(s: Sys, run: seq<Action>): Sys
    requires CanRun(s, run)
    decreases |run|
  {
    if run == [] then s else After(Step(s, run[0]), run[1..])
  }

  /** The manifest after the first `n` commits. */
  function At(log: seq<Commit>, n: nat): Manifest
    requires n <= |log|
  {
    if n == 0 then EMPTY_MANIFEST else log[n - 1].result
  }

  /** The mutations of the committed calls, applied one after another to the empty manifest. */
  function Replay(calls: seq<Call>, log: seq<Commit>): Result<Manifest>
    requires forall c <- log :: c.id < |calls| && calls[c.id].Update?
  {
    if log == [] then Ok(EMPTY_MANIFEST)
    else
      var m :- Replay(calls, log[..|log| - 1]);
      calls[log[|log| - 1].id].mutate(m)
  }
}
