/** What the commit protocol guarantees for every run whose puts stay in the window. */
module ManifestTheorems {
  import opened Wrappers
  import opened ManifestLog
  import opened ManifestSafety

  /** Running step by step from the left is the same as taking one more step at the end. */
  lemma {:induction false} Snoc(s: Sys, run: seq<Action>, a: Action)
    ensures CanRun(s, run + [a]) <==> CanRun(s, run) && Enabled(After(s, run), a)
    ensures CanRun(s, run + [a]) ==> After(s, run + [a]) == Step(After(s, run), a)
    ensures CanRun(s, run + [a]) ==>
              (AllInWindow(s, run + [a]) <==> AllInWindow(s, run) && InWindow(After(s, run), a))
    decreases |run|
  {
    if run == [] {
      assert run + [a] == [a];
      assert [a][1..] == [];
    } else {
      assert (run + [a])[1..] == run[1..] + [a];
      if Enabled(s, run[0]) {
        Snoc(Step(s, run[0]), run[1..], a);
      }
    }
  }

  ghost predicate Reaches(run: seq<Action>, s: Sys) {
    CanRun(INIT, run) && AllInWindow(INIT, run) && After(INIT, run) == s
  }

  lemma ReachesInv(run: seq<Action>, s: Sys)
    requires Reaches(run, s)
    ensures Inv(s)
  {
    RunKeeps(INIT, run);
  }

  lemma LogPrefix(calls: seq<Call>, log: seq<Commit>, n: nat)
    requires LogInv(calls, log) && n <= |log|
    ensures LogInv(calls, log[..n])
    ensures At(log[..n], n) == At(log, n)
  {
    forall i | 0 <= i < n
      ensures Applied(calls, log[..n], i)
    {
      assert Applied(calls, log, i);
      assert At(log[..n], i) == At(log, i);
    }
  }

  lemma {:induction false} ReplayIsAt(calls: seq<Call>, log: seq<Commit>)
    requires LogInv(calls, log)
    ensures forall c <- log :: c.id < |calls| && calls[c.id].Update?
    ensures Replay(calls, log) == Ok(At(log, |log|))
    decreases |log|
  {
    if log != [] {
      var n := |log| - 1;
      LogPrefix(calls, log, n);
      ReplayIsAt(calls, log[..n]);
      assert Applied(calls, log, n);
    }
  }

  ghost predicate Owns(log: seq<Commit>, id: nat, v: nat) {
    v < |log| && log[v].id == id
  }

  lemma CommitsAreOwned(s: Sys, r: Return)
    requires Inv(s) && r in s.returned
    ensures forall v: nat, w: nat :: Owns(s.log, r.id, v) && Owns(s.log, r.id, w) ==> v == w
    ensures forall v: nat :: Owns(s.log, r.id, v) ==> r.begun <= v < r.ended && (r.outcome.Committed? || r.outcome.IoError?)
    ensures r.outcome.Committed? ==> Owns(s.log, r.id, r.outcome.version)
  {
    assert ReturnInv(s.calls, s.log, r);
    assert forall v :: 0 <= v < |s.log| ==> s.calls[s.log[v].id].Update?;
    if r.outcome.IoError? && CommittedWithin(s.log, r.id, r.begun, r.ended) {
      var w :| r.begun <= w < r.ended <= |s.log| && s.log[w].id == r.id;
      assert forall v: nat :: Owns(s.log, r.id, v) ==> v == w;
    }
  }

  /** No lost update: the versions ever created are 0 up to the highest present, each created once, each
      the committing call's mutation of the one before, so the manifest a reader resolves is the fold of
      all committed mutations in commit order. */
  lemma NoLostUpdate(run: seq<Action>, s: Sys)
    requires Reaches(run, s)
    ensures Highest(s.files.Keys) == |s.log| - 1
    ensures forall v :: 0 <= v < |s.log| ==>
              s.log[v].version == v && Applied(s.calls, s.log, v)
    ensures forall c <- s.log :: c.id < |s.calls| && s.calls[c.id].Update?
    ensures Replay(s.calls, s.log) == Ok(Resolve(s.files))
  {
    ReachesInv(run, s);
    HighestIsLast(s);
    ReplayIsAt(s.calls, s.log);
  }

  /** A call owns at most one commit, made while it ran. One that returned success owns one, one whose put
      reported a failure may, and no other returned call does; a commit of a call that has not returned is
      being pruned after. */
  lemma OneCommitPerSuccess(run: seq<Action>, s: Sys)
    requires Reaches(run, s)
    ensures forall v, w :: 0 <= v < w < |s.log| ==> s.log[v].id != s.log[w].id
    ensures forall r <- s.returned, v: nat ::
              Owns(s.log, r.id, v) ==> r.begun <= v < r.ended && (r.outcome.Committed? || r.outcome.IoError?)
    ensures forall r <- s.returned :: r.outcome.Committed? ==> Owns(s.log, r.id, r.outcome.version)
    ensures forall v :: 0 <= v < |s.log| ==>
              HasReturned(s.returned, s.log[v].id) ||
              (s.log[v].id in s.procs && (s.procs[s.log[v].id].pc.PruneListing? || s.procs[s.log[v].id].pc.Pruning?))
  {
    ReachesInv(run, s);
    forall r <- s.returned
      ensures forall v: nat :: Owns(s.log, r.id, v) ==> r.begun <= v < r.ended && (r.outcome.Committed? || r.outcome.IoError?)
      ensures r.outcome.Committed? ==> Owns(s.log, r.id, r.outcome.version)
    {
      CommitsAreOwned(s, r);
    }
    forall v | 0 <= v < |s.log| && s.log[v].id in s.procs
      ensures s.procs[s.log[v].id].pc.PruneListing? || s.procs[s.log[v].id].pc.Pruning?
    {
      assert ProcInv(s.calls, s.log, s.log[v].id, s.procs[s.log[v].id]);
    }
  }

  /** Where a successful call takes effect, on a scale where the manifest after `n` commits sits at `2n`
      and commit `c` leads from `2c` to `2c + 2`. */
  function Position(o: Outcome, seen: nat): nat
    requires o.Loaded? || o.Committed?
  {
    if o.Loaded? then 2 * seen else 2 * o.version + 1
  }

  ghost predicate TookEffect(r: Return) {
    r.outcome.Loaded? || r.outcome.Committed?
  }

  /** Linearizability: each successful call takes effect at one point between its invocation and its
      return, a load returns the manifest of that point, and calls that do not overlap take effect in
      the order they ran. So successive loads never go back, a load after a successful update sees it,
      and an empty manifest comes from a store that had no commit. */
  lemma Linearizable(run: seq<Action>, s: Sys, i: nat, j: nat)
    requires Reaches(run, s)
    requires i < |s.returned| && TookEffect(s.returned[i])
    requires j < |s.returned| && TookEffect(s.returned[j])
    ensures var r := s.returned[i];
            && r.begun <= r.ended <= |s.log|
            && 2 * r.begun <= Position(r.outcome, r.seen) <= 2 * r.ended
            && (r.outcome.Loaded? ==>
                  && r.seen <= |s.log|
                  && r.outcome.manifest == At(s.log, r.seen)
                  && (r.outcome.from.None? <==> r.seen == 0)
                  && (r.outcome.from.Some? ==> r.outcome.from.value == r.seen - 1))
            && (r.outcome.Committed? ==>
                  && r.outcome.version < |s.log|
                  && s.log[r.outcome.version].id == r.id)
    ensures i < s.returned[j].started ==>
              var a, b := s.returned[i], s.returned[j];
              && Position(a.outcome, a.seen) <= Position(b.outcome, b.seen)
              && (a.outcome.Committed? || b.outcome.Committed? ==>
                    Position(a.outcome, a.seen) < Position(b.outcome, b.seen))
  {
    ReachesInv(run, s);
    var a, b := s.returned[i], s.returned[j];
    assert ReturnInv(s.calls, s.log, a) && ReturnInv(s.calls, s.log, b);
    assert EndedBefore(s.returned, b.started, b.begun);
  }

  lemma StepGrowsLog(s: Sys, a: Action)
    requires Enabled(s, a)
    ensures s.log <= Step(s, a).log
    ensures |Step(s, a).log| <= |s.log| + 1
  {
  }

  /** The last listing of call `id` was the k-th step of the run, when there were `n` commits. */
  ghost predicate LastListing(run: seq<Action>, id: nat, n: nat, k: nat) {
    && k < |run| && run[k] == List(id)
    && (forall j :: k < j < |run| ==> run[j] != List(id))
    && CanRun(INIT, run[..k]) && |After(INIT, run[..k]).log| == n
  }

  ghost predicate Listed(run: seq<Action>, id: nat, n: nat) {
    exists k: nat :: LastListing(run, id, n, k)
  }

  lemma ListedStays(run: seq<Action>, a: Action, id: nat, n: nat)
    requires Listed(run, id, n) && a != List(id)
    ensures Listed(run + [a], id, n)
  {
    var k: nat :| LastListing(run, id, n, k);
    assert (run + [a])[..k] == run[..k];
    assert LastListing(run + [a], id, n, k);
  }

  lemma ListedNow(run: seq<Action>, id: nat)
    requires CanRun(INIT, run)
    ensures Listed(run + [List(id)], id, |After(INIT, run).log|)
  {
    assert (run + [List(id)])[..|run|] == run;
    assert LastListing(run + [List(id)], id, |After(INIT, run).log|, |run|);
  }

  /** What is about to be got, or was returned by a load, was found by the call's last listing. */
  ghost predicate Recorded(run: seq<Action>, s: Sys) {
    && (forall p <- s.procs :: s.procs[p].pc.Getting? ==> Listed(run, p, s.procs[p].seen))
    && (forall r <- s.returned :: r.outcome.Loaded? ==> Listed(run, r.id, r.seen))
  }

  lemma StepRecords(run: seq<Action>, s: Sys, a: Action)
    requires CanRun(INIT, run) && After(INIT, run) == s && Enabled(s, a)
    requires Recorded(run, s) && IdsInv(s.calls, s.procs, s.returned)
    ensures Recorded(run + [a], Step(s, a))
  {
    hide Listed;
    var s' := Step(s, a);
    if a.List? {
      ListedNow(run, a.id);
    }
    forall p <- s'.procs | s'.procs[p].pc.Getting?
      ensures Listed(run + [a], p, s'.procs[p].seen)
    {
      if a != List(p) {
        assert p in s.procs && s.procs[p] == s'.procs[p];
        ListedStays(run, a, p, s.procs[p].seen);
      }
    }
    forall r <- s'.returned | r.outcome.Loaded?
      ensures Listed(run + [a], r.id, r.seen)
    {
      if r in s.returned {
        assert a != List(r.id);
        ListedStays(run, a, r.id, r.seen);
      } else if a.Get? {
        ListedStays(run, a, r.id, s.procs[a.id].seen);
      }
    }
  }

  lemma {:induction false} RunRecords(run: seq<Action>, s: Sys)
    requires Reaches(run, s)
    ensures Recorded(run, s)
    decreases |run|
  {
    if run != [] {
      var before, a := run[..|run| - 1], run[|run| - 1];
      assert run == before + [a];
      Snoc(INIT, before, a);
      RunRecords(before, After(INIT, before));
      ReachesInv(before, After(INIT, before));
      StepRecords(before, After(INIT, before), a);
    }
  }

  lemma {:induction false} PrefixReaches(run: seq<Action>, s: Sys, k: nat)
    requires Reaches(run, s) && k <= |run|
    ensures CanRun(INIT, run[..k]) && Reaches(run[..k], After(INIT, run[..k]))
    ensures After(INIT, run[..k]).log <= s.log
    decreases |run|
  {
    if k == |run| {
      assert run[..k] == run;
    } else {
      var before, a := run[..|run| - 1], run[|run| - 1];
      assert run == before + [a] && before[..k] == run[..k];
      Snoc(INIT, before, a);
      PrefixReaches(before, After(INIT, before), k);
      StepGrowsLog(After(INIT, before), a);
    }
  }

  /** What readers resolved at any moment of a run is the manifest after the commits made by then. */
  lemma CurrentThen(run: seq<Action>, s: Sys, k: nat)
    requires Reaches(run, s) && k <= |run|
    ensures CanRun(INIT, run[..k])
    ensures var past := After(INIT, run[..k]);
            |past.log| <= |s.log| && Resolve(past.files) == At(s.log, |past.log|)
  {
    PrefixReaches(run, s, k);
    var past := After(INIT, run[..k]);
    ReachesInv(run[..k], past);
    HighestIsLast(past);
  }

  lemma {:induction false} LogHadLength(run: seq<Action>, s: Sys, n: nat) returns (k: nat)
    requires CanRun(INIT, run) && After(INIT, run) == s && n <= |s.log|
    ensures k <= |run| && CanRun(INIT, run[..k]) && |After(INIT, run[..k]).log| == n
    decreases |run|
  {
    if n == |s.log| {
      k := |run|;
      assert run[..k] == run;
    } else {
      var before, a := run[..|run| - 1], run[|run| - 1];
      assert run == before + [a];
      Snoc(INIT, before, a);
      StepGrowsLog(After(INIT, before), a);
      k := LogHadLength(before, After(INIT, before), n);
      assert before[..k] == run[..k];
    }
  }

  /** Every number of commits a run went through was the length of the log at some moment of it, and the
      manifest readers resolved at that moment is what the log says. */
  lemma EveryVersionWasCurrent(run: seq<Action>, s: Sys, n: nat) returns (k: nat)
    requires Reaches(run, s) && n <= |s.log|
    ensures k <= |run| && CanRun(INIT, run[..k])
    ensures var past := After(INIT, run[..k]);
            && past.log == s.log[..n]
            && Resolve(past.files) == At(s.log, n)
  {
    k := LogHadLength(run, s, n);
    PrefixReaches(run, s, k);
    CurrentThen(run, s, k);
  }

  lemma EnabledThen(run: seq<Action>, s: Sys, k: nat)
    requires Reaches(run, s) && k < |run|
    ensures CanRun(INIT, run[..k]) && Enabled(After(INIT, run[..k]), run[k])
  {
    PrefixReaches(run, s, k + 1);
    assert run[..k + 1] == run[..k] + [run[k]];
    Snoc(INIT, run[..k], run[k]);
  }

  lemma LoadListed(run: seq<Action>, s: Sys, r: Return) returns (k: nat)
    requires Reaches(run, s) && r in s.returned && r.outcome.Loaded?
    ensures r.seen <= |s.log| && LastListing(run, r.id, r.seen, k)
    ensures r.outcome.manifest == At(s.log, r.seen) && (r.outcome.from.None? <==> r.seen == 0)
  {
    ReachesInv(run, s);
    assert ReturnInv(s.calls, s.log, r);
    RunRecords(run, s);
    assert Listed(run, r.id, r.seen);
    k :| LastListing(run, r.id, r.seen, k);
  }

  /** A load that succeeds returns what was current at its last listing, the k-th step of the run. */
  lemma LoadsAreAtomic(run: seq<Action>, s: Sys, r: Return) returns (k: nat)
    requires Reaches(run, s) && r in s.returned && r.outcome.Loaded?
    ensures k < |run| && run[k] == List(r.id) && forall j :: k < j < |run| ==> run[j] != List(r.id)
    ensures CanRun(INIT, run[..k])
    ensures var past := After(INIT, run[..k]);
            && r.id in past.procs
            && r.outcome.manifest == Resolve(past.files)
            && (r.outcome.from.None? <==> past.log == [])
  {
    hide Reaches, Resolve, After, CanRun;
    k := LoadListed(run, s, r);
    CurrentThen(run, s, k);
    EnabledThen(run, s, k);
  }

  /** The commits made while a call ran, none of them its own. */
  ghost predicate Overlapped(s: Sys, r: Return, n: nat) {
    && r.begun + n <= r.ended <= |s.log|
    && forall v :: r.begun <= v < r.ended ==> s.log[v].id != r.id
  }

  /** What a failure costs: losing eight puts takes eight commits by others, missing four listed versions
      takes forty-four, and a call that fails leaves nothing in the log, unless it was told of a failed put
      that was done all the same. */
  lemma FailuresAreEarned(run: seq<Action>, s: Sys, r: Return)
    requires Reaches(run, s) && r in s.returned
    ensures r.outcome.GaveUp? ==> Overlapped(s, r, 8)
    ensures r.outcome.Disappeared? ==> Overlapped(s, r, 44)
    ensures !TookEffect(r) && !r.outcome.IoError? ==> forall v :: 0 <= v < |s.log| ==> s.log[v].id != r.id
  {
    ReachesInv(run, s);
    assert ReturnInv(s.calls, s.log, r);
  }

  /** What an update's answer means: refused, the mutation refused a manifest that was current while it ran
      and nothing was committed; committed, its version is the mutation of the version before. */
  lemma AnswersAreTrue(run: seq<Action>, s: Sys, r: Return)
    requires Reaches(run, s) && r in s.returned
    ensures r.id < |s.calls|
    ensures r.outcome.Rejected? ==>
              && s.calls[r.id].Update?
              && r.begun <= r.seen <= r.ended <= |s.log|
              && s.calls[r.id].mutate(At(s.log, r.seen)) == Err(r.outcome.error)
              && forall v :: 0 <= v < |s.log| ==> s.log[v].id != r.id
    ensures r.outcome.Committed? ==>
              && s.calls[r.id].Update?
              && r.begun <= r.outcome.version < r.ended <= |s.log|
              && s.calls[r.id].mutate(At(s.log, r.outcome.version)) == Ok(At(s.log, r.outcome.version + 1))
  {
    ReachesInv(run, s);
    assert ReturnInv(s.calls, s.log, r);
    if r.outcome.Committed? {
      assert Applied(s.calls, s.log, r.outcome.version);
    }
  }
}
