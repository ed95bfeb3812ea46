/** What every step of the commit protocol keeps as long as puts stay in the window, and what follows
    for whole runs: no lost update, linearizable calls, and an account of every failure. */
module ManifestSafety {
  import opened Wrappers
  import opened Manifests
  import opened ManifestLog

  /** Commit `i` is its call's mutation of the version before. */
  ghost predicate Applied(calls: seq<Call>, log: seq<Commit>, i: nat)
    requires i < |log|
  {
    && log[i].id < |calls|
    && calls[log[i].id].Update?
    && calls[log[i].id].mutate(At(log, i)) == Ok(log[i].result)
  }

  /** Versions are created in order, each once, each the committing call's mutation of the one before. */
  ghost predicate LogInv(calls: seq<Call>, log: seq<Commit>) {
    && (forall i :: 0 <= i < |log| ==>
          log[i].version == i && log[i].id < |calls| && calls[log[i].id].Update?)
    && (forall i :: 0 <= i < |log| ==> Applied(calls, log, i))
    && (forall i, j :: 0 <= i < j < |log| ==> log[i].id != log[j].id)
  }

  /** The store holds committed versions, unchanged, and always the newest eleven. */
  ghost predicate FilesInv(files: map<nat, Manifest>, log: seq<Commit>) {
    && (forall v :: v in files ==> v < |log| && files[v] == log[v].result)
    && (forall v :: 0 <= v < |log| && |log| <= v + VERSIONS_RETAINED + 1 ==> v in files)
  }

  ghost predicate NotCommitted(log: seq<Commit>, id: nat) {
    forall i :: 0 <= i < |log| ==> log[i].id != id
  }

  /** Commits that must have happened to make a call lose `lost` puts and miss `missed` gets. */
  function Price(lost: nat, missed: nat): nat {
    lost + (VERSIONS_RETAINED + 1) * missed
  }

  ghost predicate ProcInv(calls: seq<Call>, log: seq<Commit>, p: nat, q: Proc) {
    && p < |calls|
    && q.call == calls[p]
    && q.begun <= q.seen <= |log|
    && match q.pc
       case Listing(lost, missed) =>
         && NotCommitted(log, p)
         && lost < WRITE_ATTEMPTS && missed < READ_ATTEMPTS
         && q.begun + Price(lost, missed) <= |log|
       case Getting(lost, missed, version) =>
         && NotCommitted(log, p)
         && lost < WRITE_ATTEMPTS && missed < READ_ATTEMPTS
         && q.begun + Price(lost, missed) <= q.seen
         && version + 1 == q.seen
       case Putting(lost, next, body) =>
         && NotCommitted(log, p)
         && q.call.Update?
         && lost < WRITE_ATTEMPTS
         && q.begun + lost <= q.seen
         && next == q.seen
         && q.call.mutate(At(log, next)) == Ok(body)
       case PruneListing(version) =>
         q.begun <= version < |log| && log[version].id == p
       case Pruning(version, todo) =>
         && q.begun <= version < |log| && log[version].id == p
         && forall t <- todo :: t + VERSIONS_RETAINED < version
  }

  ghost predicate CommittedWithin(log: seq<Commit>, id: nat, begun: nat, ended: nat) {
    exists v :: 0 <= begun <= v < ended <= |log| && log[v].id == id
  }

  ghost predicate ReturnInv(calls: seq<Call>, log: seq<Commit>, r: Return) {
    && r.id < |calls|
    && r.begun <= r.ended <= |log|
    && match r.outcome
       case Loaded(manifest, from) =>
         && calls[r.id].Load?
         && r.begun <= r.seen <= r.ended
         && manifest == At(log, r.seen)
         && from == (if r.seen == 0 then None else Some((r.seen - 1) as nat))
       case Committed(version) =>
         r.begun <= version < r.ended && log[version].id == r.id
       case Rejected(error) =>
         && NotCommitted(log, r.id)
         && calls[r.id].Update?
         && r.begun <= r.seen <= r.ended
         && calls[r.id].mutate(At(log, r.seen)) == Err(error)
       case GaveUp =>
         && NotCommitted(log, r.id)
         && calls[r.id].Update?
         && r.begun + WRITE_ATTEMPTS <= r.ended
       case Disappeared =>
         NotCommitted(log, r.id) && r.begun + (VERSIONS_RETAINED + 1) * READ_ATTEMPTS <= r.ended
       case IoError =>
         NotCommitted(log, r.id) || CommittedWithin(log, r.id, r.begun, r.ended)
  }

  /** Every call is in flight or has returned, once. */
  ghost predicate IdsInv(calls: seq<Call>, procs: map<nat, Proc>, returned: seq<Return>) {
    && (forall r <- returned :: r.id < |calls| && r.id !in procs)
    && (forall i, j :: 0 <= i < j < |returned| ==> returned[i].id != returned[j].id)
    && (forall p :: 0 <= p < |calls| ==> p in procs || HasReturned(returned, p))
  }

  ghost predicate HasReturned(returned: seq<Return>, id: nat) {
    exists r <- returned :: r.id == id
  }

  /** What had returned before this call was invoked ended before it began. */
  ghost predicate EndedBefore(returned: seq<Return>, started: nat, begun: nat) {
    && started <= |returned|
    && forall i :: 0 <= i < started ==> returned[i].ended <= begun
  }

  ghost predicate OrderInv(procs: map<nat, Proc>, log: seq<Commit>, returned: seq<Return>) {
    && (forall r <- returned :: r.ended <= |log|)
    && (forall p <- procs :: EndedBefore(returned, procs[p].started, procs[p].begun))
    && (forall r <- returned :: EndedBefore(returned, r.started, r.begun))
  }

  ghost predicate Inv(s: Sys) {
    && LogInv(s.calls, s.log)
    && FilesInv(s.files, s.log)
    && (forall p <- s.procs :: ProcInv(s.calls, s.log, p, s.procs[p]))
    && (forall r <- s.returned :: ReturnInv(s.calls, s.log, r))
    && IdsInv(s.calls, s.procs, s.returned)
    && OrderInv(s.procs, s.log, s.returned)
  }

  lemma HighestIsLast(s: Sys)
    requires FilesInv(s.files, s.log)
    ensures Highest(s.files.Keys) == |s.log| - 1
    ensures Resolve(s.files) == At(s.log, |s.log|)
  {
    if s.log != [] {
      assert |s.log| - 1 in s.files;
    } else {
      assert s.files.Keys == {};
    }
  }

  lemma GotoKeeps(s: Sys, p: nat, q: Proc, pc: Pc)
    requires Inv(s)
    requires p in s.procs
    requires q.begun == s.procs[p].begun && q.started == s.procs[p].started
    requires ProcInv(s.calls, s.log, p, q.(pc := pc))
    ensures Inv(Goto(s, p, q, pc))
  {
  }

  lemma FinishIds(calls: seq<Call>, procs: map<nat, Proc>, returned: seq<Return>, r: Return)
    requires IdsInv(calls, procs, returned)
    requires r.id in procs && r.id < |calls|
    ensures IdsInv(calls, procs - {r.id}, returned + [r])
  {
    var returned' := returned + [r];
    assert returned'[|returned|] == r;
    forall i | 0 <= i < |calls|
      ensures i in procs - {r.id} || HasReturned(returned', i)
    {
      if i != r.id && i !in procs {
        var r0 :| r0 in returned && r0.id == i;
        assert r0 in returned';
      }
    }
  }

  lemma FinishOrder(procs: map<nat, Proc>, log: seq<Commit>, returned: seq<Return>, r: Return)
    requires OrderInv(procs, log, returned)
    requires r.ended == |log| && EndedBefore(returned, r.started, r.begun)
    ensures OrderInv(procs - {r.id}, log, returned + [r])
  {
    var returned' := returned + [r];
    forall x <- returned'
      ensures EndedBefore(returned', x.started, x.begun)
    {
      assert EndedBefore(returned, x.started, x.begun);
    }
    forall p <- procs
      ensures EndedBefore(returned', procs[p].started, procs[p].begun)
    {
      assert EndedBefore(returned, procs[p].started, procs[p].begun);
    }
  }

  lemma FinishKeeps(s: Sys, p: nat, q: Proc, outcome: Outcome)
    requires Inv(s)
    requires p in s.procs
    requires q.begun == s.procs[p].begun && q.started == s.procs[p].started
    requires ReturnInv(s.calls, s.log, Return(p, q.begun, q.started, q.seen, |s.log|, outcome))
    ensures Inv(Finish(s, p, q, outcome))
  {
    var r := Return(p, q.begun, q.started, q.seen, |s.log|, outcome);
    FinishIds(s.calls, s.procs, s.returned, r);
    FinishOrder(s.procs, s.log, s.returned, r);
  }

  lemma AfterLoadKeeps(s: Sys, p: nat, q: Proc, lost: nat, m: Manifest, version: Option<nat>)
    requires Inv(s)
    requires p in s.procs && NotCommitted(s.log, p)
    requires q.call == s.calls[p]
    requires q.begun == s.procs[p].begun && q.started == s.procs[p].started
    requires lost < WRITE_ATTEMPTS
    requires q.begun + lost <= q.seen <= |s.log|
    requires m == At(s.log, q.seen)
    requires version == (if q.seen == 0 then None else Some((q.seen - 1) as nat))
    ensures Inv(AfterLoad(s, p, q, lost, m, version))
  {
    hide LogInv, FilesInv, IdsInv, OrderInv;
    match q.call
    case Load => FinishKeeps(s, p, q, Loaded(m, version));
    case Update(mutate) =>
      match mutate(m)
      case Err(e) => FinishKeeps(s, p, q, Rejected(e));
      case Ok(body) => GotoKeeps(s, p, q, Putting(lost, if version.None? then 0 else version.value + 1, body));
  }

  lemma ListKeeps(s: Sys, p: nat)
    requires Inv(s) && Enabled(s, List(p))
    ensures Inv(ListStep(s, p))
  {
    HighestIsLast(s);
    var q := s.procs[p].(seen := |s.log|);
    if s.log == [] {
      AfterLoadKeeps(s, p, q, q.pc.lost, EMPTY_MANIFEST, None);
    } else {
      GotoKeeps(s, p, q, Getting(q.pc.lost, q.pc.missed, Highest(s.files.Keys)));
    }
  }

  lemma GetKeeps(s: Sys, p: nat)
    requires Inv(s) && Enabled(s, Get(p))
    ensures Inv(GetStep(s, p))
  {
    hide IdsInv, OrderInv;
    var q := s.procs[p];
    if q.pc.version in s.files {
      AfterLoadKeeps(s, p, q, q.pc.lost, s.files[q.pc.version], Some(q.pc.version));
    } else if q.pc.missed + 1 < READ_ATTEMPTS {
      GotoKeeps(s, p, q, Listing(q.pc.lost, q.pc.missed + 1));
    } else {
      FinishKeeps(s, p, q, Disappeared);
    }
  }

  /** History only grows, and nobody else commits in a call's name. */
  ghost predicate Grows(calls: seq<Call>, log: seq<Commit>, calls': seq<Call>, log': seq<Commit>, id: nat) {
    && calls <= calls' && log <= log'
    && forall i :: |log| <= i < |log'| ==> log'[i].id != id
  }

  lemma ProcGrows(calls: seq<Call>, log: seq<Commit>, calls': seq<Call>, log': seq<Commit>, p: nat, q: Proc)
    requires ProcInv(calls, log, p, q)
    requires Grows(calls, log, calls', log', p)
    ensures ProcInv(calls', log', p, q)
  {
    assert NotCommitted(log, p) ==> NotCommitted(log', p);
  }

  lemma ReturnGrows(calls: seq<Call>, log: seq<Commit>, calls': seq<Call>, log': seq<Commit>, r: Return)
    requires ReturnInv(calls, log, r)
    requires Grows(calls, log, calls', log', r.id)
    ensures ReturnInv(calls', log', r)
  {
    assert NotCommitted(log, r.id) ==> NotCommitted(log', r.id);
    if CommittedWithin(log, r.id, r.begun, r.ended) {
      var v :| r.begun <= v < r.ended <= |log| && log[v].id == r.id;
      assert log'[v].id == r.id;
    }
  }

  lemma LogGrows(calls: seq<Call>, log: seq<Commit>, c: Commit)
    requires LogInv(calls, log)
    requires c.version == |log| && NotCommitted(log, c.id)
    requires c.id < |calls| && calls[c.id].Update?
    requires calls[c.id].mutate(At(log, |log|)) == Ok(c.result)
    ensures LogInv(calls, log + [c])
  {
    var log' := log + [c];
    forall i | 0 <= i < |log'|
      ensures Applied(calls, log', i)
    {
      if i < |log| {
        assert Applied(calls, log, i);
      }
      assert At(log', i) == At(log, i);
    }
  }

  lemma ProcsGrow(calls: seq<Call>, log: seq<Commit>, procs: map<nat, Proc>, p: nat, c: Commit)
    requires forall i <- procs :: ProcInv(calls, log, i, procs[i])
    requires p in procs && procs[p].pc.Putting? && procs[p].pc.next == |log|
    requires c == Commit(p, |log|, procs[p].pc.body)
    ensures forall i <- procs :: i != p ==> ProcInv(calls, log + [c], i, procs[i])
    ensures ProcInv(calls, log + [c], p, procs[p].(pc := PruneListing(|log|)))
  {
    forall i <- procs | i != p
      ensures ProcInv(calls, log + [c], i, procs[i])
    {
      ProcGrows(calls, log, calls, log + [c], i, procs[i]);
    }
    assert ProcInv(calls, log, p, procs[p]);
  }

  lemma ReturnedGrow(calls: seq<Call>, log: seq<Commit>, returned: seq<Return>, c: Commit)
    requires forall r <- returned :: ReturnInv(calls, log, r) && r.id != c.id
    ensures forall r <- returned :: ReturnInv(calls, log + [c], r)
  {
    forall r <- returned
      ensures ReturnInv(calls, log + [c], r)
    {
      ReturnGrows(calls, log, calls, log + [c], r);
    }
  }

  lemma FilesGrow(files: map<nat, Manifest>, log: seq<Commit>, c: Commit)
    requires FilesInv(files, log)
    ensures FilesInv(files[|log| := c.result], log + [c])
  {
  }

  lemma ReplaceKeepsOrder(s: Sys, s': Sys, p: nat)
    requires IdsInv(s.calls, s.procs, s.returned) && OrderInv(s.procs, s.log, s.returned)
    requires p in s.procs
    requires s'.calls == s.calls && s'.returned == s.returned && |s.log| <= |s'.log|
    requires s'.procs.Keys == s.procs.Keys
    requires forall i <- s.procs :: s'.procs[i].begun == s.procs[i].begun && s'.procs[i].started == s.procs[i].started
    ensures IdsInv(s'.calls, s'.procs, s'.returned) && OrderInv(s'.procs, s'.log, s'.returned)
  {
  }

  /** The state between a successful put and its prune. */
  function Appended(s: Sys, p: nat): Sys
    requires p in s.procs && s.procs[p].pc.Putting?
  {
    var q := s.procs[p];
    s.(files := s.files[|s.log| := q.pc.body],
       log := s.log + [Commit(p, |s.log|, q.pc.body)],
       procs := s.procs[p := q.(pc := PruneListing(|s.log|))])
  }

  lemma AppendKeeps(s: Sys, p: nat)
    requires Inv(s) && Enabled(s, Put(p))
    requires s.procs[p].pc.next == |s.log|
    ensures Inv(Appended(s, p))
  {
    var s' := Appended(s, p);
    var c := Commit(p, |s.log|, s.procs[p].pc.body);
    assert ProcInv(s.calls, s.log, p, s.procs[p]);
    LogGrows(s.calls, s.log, c);
    FilesGrow(s.files, s.log, c);
    ProcsGrow(s.calls, s.log, s.procs, p, c);
    ReturnedGrow(s.calls, s.log, s.returned, c);
    ReplaceKeepsOrder(s, s', p);
  }

  /** In the window only the next unused version can be free. */
  lemma WindowBlocks(s: Sys, p: nat)
    requires Inv(s) && Enabled(s, Put(p)) && InWindow(s, Put(p))
    ensures s.procs[p].pc.next <= |s.log|
    ensures s.procs[p].pc.next !in s.files <==> s.procs[p].pc.next == |s.log|
  {
    HighestIsLast(s);
    assert ProcInv(s.calls, s.log, p, s.procs[p]);
  }

  lemma LostPutKeeps(s: Sys, p: nat)
    requires Inv(s) && Enabled(s, Put(p)) && s.procs[p].pc.next in s.files
    ensures Inv(PutStep(s, p))
  {
    var q := s.procs[p];
    assert ProcInv(s.calls, s.log, p, q);
    if q.pc.lost + 1 < WRITE_ATTEMPTS {
      GotoKeeps(s, p, q, Listing(q.pc.lost + 1, 0));
    } else {
      FinishKeeps(s, p, q, GaveUp);
    }
  }

  lemma WonPut(s: Sys, p: nat)
    requires Enabled(s, Put(p)) && s.procs[p].pc.next == |s.log| && |s.log| !in s.files
    ensures PutStep(s, p) ==
            if |s.log| < VERSIONS_RETAINED then Finish(Appended(s, p), p, s.procs[p], Committed(|s.log|))
            else Appended(s, p)
  {
    assert Appended(s, p).procs - {p} == s.procs - {p};
  }

  lemma WonPutKeeps(s: Sys, p: nat)
    requires Inv(s) && Enabled(s, Put(p)) && s.procs[p].pc.next == |s.log|
    ensures Inv(Finish(Appended(s, p), p, s.procs[p], Committed(|s.log|)))
    ensures Inv(Appended(s, p))
  {
    AppendKeeps(s, p);
    var s' := Appended(s, p);
    assert ProcInv(s'.calls, s'.log, p, s'.procs[p]);
    FinishKeeps(s', p, s.procs[p], Committed(|s.log|));
  }

  lemma ReportedPut(s: Sys, p: nat)
    requires Enabled(s, Put(p)) && s.procs[p].pc.next == |s.log| && |s.log| !in s.files
    ensures FailStep(s, p, true) == Finish(Appended(s, p), p, s.procs[p], IoError)
  {
    assert Appended(s, p).procs - {p} == s.procs - {p};
  }

  lemma ReportedPutKeeps(s: Sys, p: nat)
    requires Inv(s) && Enabled(s, Put(p)) && s.procs[p].pc.next == |s.log|
    ensures Inv(Finish(Appended(s, p), p, s.procs[p], IoError))
  {
    AppendKeeps(s, p);
    var s', q := Appended(s, p), s.procs[p];
    assert ProcInv(s'.calls, s'.log, p, s'.procs[p]);
    assert ReturnInv(s'.calls, s'.log, Return(p, q.begun, q.started, q.seen, |s'.log|, IoError)) by {
      assert s'.log[|s.log|].id == p;
    }
    FinishKeeps(s', p, q, IoError);
  }

  /** A put that reports a failure, whether or not it was done. */
  lemma FailedPutKeeps(s: Sys, p: nat, done: bool)
    requires Inv(s) && Enabled(s, Put(p)) && InWindow(s, Fail(p, done))
    ensures Inv(FailStep(s, p, done))
  {
    var q := s.procs[p];
    if done && q.pc.next !in s.files {
      WindowBlocks(s, p);
      ReportedPut(s, p);
      ReportedPutKeeps(s, p);
    } else {
      assert ProcInv(s.calls, s.log, p, q);
      FinishKeeps(s, p, q, IoError);
    }
  }

  lemma PutKeeps(s: Sys, p: nat)
    requires Inv(s) && Enabled(s, Put(p)) && InWindow(s, Put(p))
    ensures Inv(PutStep(s, p))
  {
    WindowBlocks(s, p);
    if s.procs[p].pc.next in s.files {
      LostPutKeeps(s, p);
    } else {
      WonPut(s, p);
      WonPutKeeps(s, p);
    }
  }

  lemma PruneKeeps(s: Sys, a: Action)
    requires Inv(s) && Enabled(s, a)
    requires a.PruneList? || a.Delete? || (a.Fail? && !s.procs[a.id].pc.Putting?)
    ensures Inv(Step(s, a))
  {
    hide LogInv, IdsInv, OrderInv;
    var q := s.procs[a.id];
    match a
    case PruneList(p) =>
      var todo := set v | v in s.files && v + VERSIONS_RETAINED < q.pc.version;
      if todo == {} { FinishKeeps(s, p, q, Committed(q.pc.version)); }
      else { GotoKeeps(s, p, q, Pruning(q.pc.version, todo)); }
    case Delete(p, v, deleted) =>
      var s' := if deleted then s.(files := s.files - {v}) else s;
      assert FilesInv(s'.files, s'.log);
      if q.pc.todo - {v} == {} { FinishKeeps(s', p, q, Committed(q.pc.version)); }
      else { GotoKeeps(s', p, q, Pruning(q.pc.version, q.pc.todo - {v})); }
    case Fail(p, _) =>
      FinishKeeps(s, p, q, if q.pc.PruneListing? then Committed(q.pc.version) else IoError);
  }

  lemma InvokeKeeps(s: Sys, call: Call)
    requires Inv(s)
    ensures Inv(Step(s, Invoke(call)))
  {
    var s' := Step(s, Invoke(call));
    forall i | 0 <= i < |s.log|
      ensures Applied(s'.calls, s'.log, i)
    {
      assert Applied(s.calls, s.log, i);
    }
    forall p <- s'.procs
      ensures ProcInv(s'.calls, s'.log, p, s'.procs[p])
    {
      if p in s.procs {
        ProcGrows(s.calls, s.log, s'.calls, s'.log, p, s.procs[p]);
      }
    }
    forall r <- s'.returned
      ensures ReturnInv(s'.calls, s'.log, r)
    {
      ReturnGrows(s.calls, s.log, s'.calls, s'.log, r);
    }
    assert IdsInv(s'.calls, s'.procs, s'.returned);
    assert OrderInv(s'.procs, s'.log, s'.returned);
  }

  lemma StepKeeps(s: Sys, a: Action)
    requires Inv(s) && Enabled(s, a) && InWindow(s, a)
    ensures Inv(Step(s, a))
  {
    match a
    case Invoke(call) => InvokeKeeps(s, call);
    case List(p) => ListKeeps(s, p);
    case Get(p) => GetKeeps(s, p);
    case Put(p) => PutKeeps(s, p);
    case PruneList(_) => PruneKeeps(s, a);
    case Delete(_, _, _) => PruneKeeps(s, a);
    case Fail(p, done) =>
      if s.procs[p].pc.Putting? {
        FailedPutKeeps(s, p, done);
      } else {
        PruneKeeps(s, a);
      }
  }

  lemma {:induction false} RunKeeps(s: Sys, run: seq<Action>)
    requires Inv(s) && CanRun(s, run) && AllInWindow(s, run)
    ensures Inv(After(s, run))
    decreases |run|
  {
    if run != [] {
      StepKeeps(s, run[0]);
      RunKeeps(Step(s, run[0]), run[1..]);
    }
  }
}
