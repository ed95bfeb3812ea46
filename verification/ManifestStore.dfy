/** The retry loops of `ManifestStore` in their own form, run against a store that other calls keep
    using: before each request a scheduler lets the others take any steps they can. Each method is shown
    to take, one request at a time, exactly the steps of the protocol's step system, so what is proved of
    all runs holds of these loops. */
module ManifestStores {
  import opened Collections
  import opened Wrappers
  import opened Manifests
  import opened ManifestLog
  import ManifestSafety
  import opened ManifestTheorems

  /** What the others do next, given everything that has happened so far. */
  type Scheduler = Sys -> seq<Action>

  /** Whether a request fails with an error of its own, and whether it was done all the same. */
  datatype Fault = NoFault | Fault(done: bool)

  /** What becomes of the next request of this call, as things stand. */
  type Faults = Sys -> Fault

  /** How reading the manifest ends. */
  datatype Reading = Read(manifest: Manifest, version: Option<nat>) | Failed(outcome: Outcome)

  ghost predicate By(a: Action, me: nat) {
    !a.Invoke? && a.id == me
  }

  /** The others only take steps they can take, and never this call's. */
  ghost predicate Fair(others: Scheduler, me: nat) {
    forall s: Sys :: CanRun(s, others(s)) && forall a <- others(s) :: !By(a, me)
  }

  lemma {:induction false} OthersLeaveMe(s: Sys, run: seq<Action>, me: nat)
    requires CanRun(s, run) && me in s.procs && me < |s.calls|
    requires forall a <- run :: !By(a, me)
    ensures var s' := After(s, run);
            me in s'.procs && s'.procs[me] == s.procs[me] && me < |s'.calls| && s'.calls[me] == s.calls[me]
    decreases |run|
  {
    if run != [] {
      assert run[0] in run;
      var s' := Step(s, run[0]);
      assert me in s'.procs && s'.procs[me] == s.procs[me];
      OthersLeaveMe(s', run[1..], me);
    }
  }

  lemma {:induction false} Append(s: Sys, run: seq<Action>, more: seq<Action>)
    requires CanRun(s, run) && CanRun(After(s, run), more)
    ensures CanRun(s, run + more) && After(s, run + more) == After(After(s, run), more)
    decreases |run|
  {
    if run == [] {
      assert run + more == more;
    } else {
      assert (run + more)[1..] == run[1..] + more;
      Append(Step(s, run[0]), run[1..], more);
    }
  }

  predicate Ascending(versions: seq<nat>) {
    forall i, j :: 0 <= i < j < |versions| ==> versions[i] < versions[j]
  }

  /** The lowest of the listed versions can be deleted, and leads on to the rest of them. */
  lemma FirstDeleted(s: Sys, me: nat, current: nat, doomed: seq<nat>, deleted: bool)
    requires me in s.procs && s.procs[me].pc == Pruning(current, Elements(doomed)) && doomed != [] && Ascending(doomed)
    ensures Enabled(s, Delete(me, doomed[0], deleted)) && Ascending(doomed[1..])
    ensures var s' := Step(s, Delete(me, doomed[0], deleted));
            && s'.calls == s.calls
            && if doomed[1..] == [] then
                 s'.returned != [] && var r := s'.returned[|s'.returned| - 1]; r.id == me && r.outcome == Committed(current)
               else
                 me in s'.procs && s'.procs[me] == s.procs[me].(pc := Pruning(current, Elements(doomed[1..])))
  {
    var left := Elements(doomed);
    assert doomed[0] in left;
    assert Elements(doomed[1..]) == left - {doomed[0]};
    assert doomed[1..] != [] ==> doomed[1] in left - {doomed[0]};
  }

  /** The listing of a prune leads to the deletes it calls for, or straight to the return. */
  lemma PruneListed(s: Sys, me: nat, current: nat, doomed: seq<nat>)
    requires Enabled(s, PruneList(me)) && s.procs[me].pc == PruneListing(current)
    requires forall v :: v in doomed <==> v in s.files && v + VERSIONS_RETAINED < current
    ensures var s' := Step(s, PruneList(me));
            && s'.calls == s.calls
            && if doomed == [] then
                 s'.returned != [] && var r := s'.returned[|s'.returned| - 1]; r.id == me && r.outcome == Committed(current)
               else
                 me in s'.procs && s'.procs[me] == s.procs[me].(pc := Pruning(current, Elements(doomed)))
  {
    var todo := set v | v in s.files && v + VERSIONS_RETAINED < current;
    assert todo == Elements(doomed);
    assert doomed != [] ==> doomed[0] in todo;
  }

  /** The steps of a run that are this call's. */
  ghost function Own(run: seq<Action>, me: nat): seq<Action> {
    if run == [] then []
    else Own(run[..|run| - 1], me) + if By(run[|run| - 1], me) then [run[|run| - 1]] else []
  }

  lemma {:induction false} NoneOwn(run: seq<Action>, me: nat)
    requires forall a <- run :: !By(a, me)
    ensures Own(run, me) == []
  {
    if run != [] {
      assert run[|run| - 1] in run;
      NoneOwn(run[..|run| - 1], me);
    }
  }

  lemma {:induction false} OwnSplit(a: seq<Action>, b: seq<Action>, me: nat)
    ensures Own(a + b, me) == Own(a, me) + Own(b, me)
    decreases |b|
  {
    if b == [] {
      assert a + b == a;
    } else {
      var front := b[..|b| - 1];
      assert (a + b)[..|a + b| - 1] == a + front;
      OwnSplit(a, front, me);
    }
  }

  /** Deletes of these versions, in this order. */
  ghost predicate Deletes(own: seq<Action>, versions: seq<nat>) {
    |own| == |versions| && forall i :: 0 <= i < |own| ==> own[i].Delete? && own[i].version == versions[i]
  }

  lemma OneDelete(turn: seq<Action>, me: nat, v: nat, deleted: bool)
    requires forall a <- turn :: !By(a, me)
    ensures Deletes(Own(turn + [Delete(me, v, deleted)], me), [v])
  {
    hide Own;
    var a := Delete(me, v, deleted);
    NoneOwn(turn, me);
    OwnSnoc(turn, a, me);
    assert [] + [a] == [a];
  }

  lemma OwnSnoc(run: seq<Action>, a: Action, me: nat)
    ensures Own(run + [a], me) == Own(run, me) + if By(a, me) then [a] else []
  {
    hide By;
    assert (run + [a])[..|run|] == run;
  }

  lemma FairTurn(others: Scheduler, me: nat, s: Sys)
    requires Fair(others, me)
    ensures forall a <- others(s) :: !By(a, me)
  {
  }

  /** The call owns at most one commit, and it is this mutation of the version before. */
  ghost predicate OwnCommit(s: Sys, me: nat, mutate: Mutation) {
    && (forall v: nat, w: nat :: Owns(s.log, me, v) && Owns(s.log, me, w) ==> v == w)
    && forall v: nat :: Owns(s.log, me, v) ==> mutate(ManifestLog.At(s.log, v)) == Ok(ManifestLog.At(s.log, v + 1))
  }

  /** What an answer to an update means. */
  ghost predicate UpdateAnswered(s: Sys, me: nat, mutate: Mutation, outcome: Outcome) {
    && OwnCommit(s, me, mutate)
    && match outcome
       case Committed(v) => Owns(s.log, me, v)
       case Rejected(error) =>
         && (forall v: nat :: !Owns(s.log, me, v))
         && exists n: nat :: n <= |s.log| && mutate(ManifestLog.At(s.log, n)) == Err(error)
       case IoError => true
       case _ => forall v: nat :: !Owns(s.log, me, v)
  }

  lemma OwnsItsMutation(run: seq<Action>, s: Sys, me: nat, mutate: Mutation)
    requires Reaches(run, s) && me < |s.calls| && s.calls[me] == Update(mutate)
    ensures OwnCommit(s, me, mutate)
  {
    hide Reaches, Highest, Resolve, Replay;
    OneCommitPerSuccess(run, s);
    NoLostUpdate(run, s);
    forall v: nat | Owns(s.log, me, v)
      ensures mutate(ManifestLog.At(s.log, v)) == Ok(ManifestLog.At(s.log, v + 1))
    {
      assert ManifestSafety.Applied(s.calls, s.log, v);
    }
  }

  lemma UpdateAnswers(run: seq<Action>, s: Sys, me: nat, mutate: Mutation, outcome: Outcome)
    requires Reaches(run, s) && me < |s.calls| && s.calls[me] == Update(mutate)
    requires s.returned != []
    requires s.returned[|s.returned| - 1].id == me && s.returned[|s.returned| - 1].outcome == outcome
    ensures UpdateAnswered(s, me, mutate, outcome)
  {
    hide Reaches, OwnCommit;
    var r := s.returned[|s.returned| - 1];
    OwnsItsMutation(run, s, me, mutate);
    AnswersAreTrue(run, s, r);
    OneCommitPerSuccess(run, s);
    if outcome.Rejected? {
      assert mutate(ManifestLog.At(s.log, r.seen)) == Err(outcome.error);
    }
  }

  /** What an answer to a load means: what it loaded was current at its last listing. */
  ghost predicate LoadAnswered(s: Sys, run: seq<Action>, me: nat, outcome: Outcome) {
    outcome.Loaded? ==>
      exists k: nat ::
        && k < |run| && run[k] == List(me) && (forall j :: k < j < |run| ==> run[j] != List(me))
        && CanRun(INIT, run[..k]) && outcome.manifest == Resolve(After(INIT, run[..k]).files)
  }

  lemma LoadAnswers(run: seq<Action>, s: Sys, me: nat, outcome: Outcome)
    requires Reaches(run, s) && s.returned != []
    requires s.returned[|s.returned| - 1].id == me && s.returned[|s.returned| - 1].outcome == outcome
    ensures LoadAnswered(s, run, me, outcome)
  {
    hide Reaches, CanRun, After, Resolve;
    if outcome.Loaded? {
      var k := LoadsAreAtomic(run, s, s.returned[|s.returned| - 1]);
    }
  }

  class ManifestStore {
    /** The object store and everyone using it. */
    var sys: Sys
    /** Where this call found the system, and every step taken since, by anyone. */
    ghost var origin: Sys
    ghost var run: seq<Action>

    ghost predicate Valid()
      reads this
    {
      CanRun(origin, run) && After(origin, run) == sys
    }

    /** This call is at `pc`. */
    ghost predicate At(me: nat, call: Call, pc: Pc)
      reads this
    {
      && me < |sys.calls| && sys.calls[me] == call
      && me in sys.procs && sys.procs[me].call == call && sys.procs[me].pc == pc
    }

    /** This call's return is the last one. */
    ghost predicate Returned(me: nat, call: Call, outcome: Outcome)
      reads this
    {
      && me < |sys.calls| && sys.calls[me] == call
      && sys.returned != []
      && sys.returned[|sys.returned| - 1].id == me
      && sys.returned[|sys.returned| - 1].outcome == outcome
    }

    constructor (sys: Sys)
      ensures Valid() && this.sys == sys && origin == sys && run == []
    {
      this.sys, origin, run := sys, sys, [];
    }

    /** The others' turn. */
    method Interfere(others: Scheduler, me: nat, ghost call: Call, ghost pc: Pc)
      requires Valid() && Fair(others, me) && At(me, call, pc)
      modifies this`sys, this`run
      ensures Valid() && At(me, call, pc)
      ensures sys == After(old(sys), others(old(sys))) && run == old(run) + others(old(sys))
    {
      var turn := others(sys);
      Append(origin, run, turn);
      OthersLeaveMe(sys, turn, me);
      sys := After(sys, turn);
      run := run + turn;
    }

    /** One request of this call. */
    method Take(a: Action)
      requires Valid() && Enabled(sys, a)
      modifies this`sys, this`run
      ensures Valid() && sys == Step(old(sys), a) && run == old(run) + [a]
    {
      Snoc(origin, run, a);
      sys := Step(sys, a);
      run := run + [a];
    }

    /** Every version present, ascending. */
    method ListVersions() returns (versions: seq<nat>)
      ensures forall v :: v in versions <==> v in sys.files
      ensures Ascending(versions)
      ensures versions == [] <==> Highest(sys.files.Keys) == -1
      ensures versions != [] ==> versions[|versions| - 1] == Highest(sys.files.Keys)
    {
      versions := [];
      var rest := sys.files.Keys;
      while rest != {}
        invariant rest <= sys.files.Keys
        invariant forall v <- versions :: v in sys.files
        invariant forall v <- sys.files :: v in rest || v in versions
        invariant forall i, j :: 0 <= i < j < |versions| ==> versions[i] < versions[j]
        invariant forall v, w :: v in rest && w in versions ==> v < w
        decreases rest
      {
        var h := Highest(rest);
        assert forall w <- versions :: h < w;
        assert forall i :: 0 <= i < |versions| ==> versions[i] in versions;
        versions := [h] + versions;
        rest := rest - {h};
      }
      if versions != [] {
        var last := versions[|versions| - 1];
        assert last in versions;
        assert forall v <- sys.files :: v in versions && v <= last;
      }
    }

    /** The system is where the step system goes on from this call's finished load. */
    ghost predicate AfterRead(me: nat, call: Call, lost: nat, reading: Reading, before: Sys)
      reads this
    {
      match reading
      case Failed(outcome) => Returned(me, call, outcome)
      case Read(m, version) =>
        && me in before.procs && before.procs[me].call == call
        && me < |before.calls| && before.calls[me] == call
        && sys == AfterLoad(before, me, before.procs[me], lost, m, version)
    }

    /** List, then get the highest version; nothing when it was gone by then and there are tries left. */
    method TryRead(me: nat, call: Call, lost: nat, missed: nat, others: Scheduler, faults: Faults)
      returns (reading: Option<Reading>, ghost before: Sys)
      requires Valid() && Fair(others, me) && At(me, call, Listing(lost, missed)) && missed < READ_ATTEMPTS
      modifies this`sys, this`run
      ensures Valid() && old(run) <= run
      ensures reading.None? ==> missed + 1 < READ_ATTEMPTS && At(me, call, Listing(lost, missed + 1))
      ensures reading.Some? ==> AfterRead(me, call, lost, reading.value, before)
    {
      Interfere(others, me, call, Listing(lost, missed));
      before := sys;
      var fault := faults(sys);
      if fault.Fault? {
        Take(Fail(me, fault.done));
        return Some(Failed(IoError)), before;
      }
      var versions := ListVersions();
      before := sys.(procs := sys.procs[me := sys.procs[me].(seen := |sys.log|)]);
      Take(List(me));
      if versions == [] {
        assert AfterLoad(before, me, before.procs[me], lost, EMPTY_MANIFEST, None) == sys;
        return Some(Read(EMPTY_MANIFEST, None)), before;
      }
      reading, before := TryGet(me, call, lost, missed, versions[|versions| - 1], others, faults);
    }

    method TryGet(me: nat, call: Call, lost: nat, missed: nat, current: nat, others: Scheduler, faults: Faults)
      returns (reading: Option<Reading>, ghost before: Sys)
      requires Valid() && Fair(others, me) && At(me, call, Getting(lost, missed, current)) && missed < READ_ATTEMPTS
      modifies this`sys, this`run
      ensures Valid() && old(run) <= run
      ensures reading.None? ==> missed + 1 < READ_ATTEMPTS && At(me, call, Listing(lost, missed + 1))
      ensures reading.Some? ==> AfterRead(me, call, lost, reading.value, before)
    {
      Interfere(others, me, call, Getting(lost, missed, current));
      before := sys;
      var fault := faults(sys);
      if fault.Fault? {
        Take(Fail(me, fault.done));
        return Some(Failed(IoError)), before;
      }
      var found := if current in sys.files then Some(sys.files[current]) else None;
      Take(Get(me));
      if found.Some? {
        return Some(Read(found.value, Some(current))), before;
      }
      reading := if missed + 1 == READ_ATTEMPTS then Some(Failed(Disappeared)) else None;
    }

    /** The current manifest and the version it was read at, or how the read failed. */
    method LoadVersioned(me: nat, call: Call, lost: nat, others: Scheduler, faults: Faults)
      returns (reading: Reading, ghost before: Sys)
      requires Valid() && Fair(others, me) && At(me, call, Listing(lost, 0))
      modifies this`sys, this`run
      ensures Valid() && old(run) <= run && AfterRead(me, call, lost, reading, before)
    {
      hide Valid, Fair;
      for attempt := 0 to READ_ATTEMPTS
        invariant Valid() && old(run) <= run
        invariant At(me, call, Listing(lost, attempt)) && attempt < READ_ATTEMPTS
      {
        var tried, at := TryRead(me, call, lost, attempt, others, faults);
        if tried.Some? {
          return tried.value, at;
        }
      }
    }

    /** Delete the lowest of the versions. */
    method DeleteFirst(me: nat, ghost call: Call, ghost current: nat, doomed: seq<nat>, others: Scheduler, faults: Faults)
      requires Valid() && Fair(others, me) && doomed != []
      requires At(me, call, Pruning(current, Elements(doomed))) && Ascending(doomed)
      modifies this`sys, this`run
      ensures Valid() && Ascending(doomed[1..])
      ensures if doomed[1..] == [] then Returned(me, call, Committed(current))
              else At(me, call, Pruning(current, Elements(doomed[1..])))
      ensures old(run) <= run && Deletes(Own(run[|old(run)|..], me), doomed[..1])
    {
      hide Step, Enabled, Valid, Elements, Ascending, Own, Deletes;
      ghost var turn := others(sys);
      FairTurn(others, me, sys);
      hide Fair;
      Interfere(others, me, call, Pruning(current, Elements(doomed)));
      var fault := faults(sys);
      var deleted := fault.NoFault? || fault.done;
      FirstDeleted(sys, me, current, doomed, deleted);
      Take(Delete(me, doomed[0], deleted));
      OneDelete(turn, me, doomed[0], deleted);
      assert run[|old(run)|..] == turn + [Delete(me, doomed[0], deleted)] && doomed[..1] == [doomed[0]];
    }

    /** Delete the listed versions, lowest first, and return; one that cannot be deleted stays. */
    method DeleteAll(me: nat, ghost call: Call, ghost current: nat, versions: seq<nat>, others: Scheduler, faults: Faults)
      requires Valid() && Fair(others, me) && versions != []
      requires At(me, call, Pruning(current, Elements(versions))) && Ascending(versions)
      modifies this`sys, this`run
      ensures Valid() && Returned(me, call, Committed(current))
      ensures old(run) <= run && Deletes(Own(run[|old(run)|..], me), versions)
    {
      hide Valid, Fair, Elements, Own, Ascending, Returned, At;
      var i := 0;
      NoneOwn([], me);
      assert versions[0..] == versions && run[|run|..] == [];
      while i < |versions|
        invariant i <= |versions| && Valid() && Ascending(versions[i..])
        invariant i < |versions| ==> At(me, call, Pruning(current, Elements(versions[i..])))
        invariant i == |versions| ==> Returned(me, call, Committed(current))
        invariant old(run) <= run && Deletes(Own(run[|old(run)|..], me), versions[..i])
      {
        ghost var before := run;
        DeleteFirst(me, call, current, versions[i..], others, faults);
        assert versions[i..][1..] == versions[i + 1..];
        assert run[|old(run)|..] == before[|old(run)|..] + run[|before|..];
        OwnSplit(before[|old(run)|..], run[|before|..], me);
        i := i + 1;
      }
      assert versions[..i] == versions;
    }

    /** Prune the versions more than ten below `current`. The update has happened, so a failure is not one
        of the update's. */
    method Prune(me: nat, call: Call, current: nat, others: Scheduler, faults: Faults)
      requires Valid() && Fair(others, me) && At(me, call, PruneListing(current))
      modifies this`sys, this`run
      ensures Valid() && old(run) <= run && Returned(me, call, Committed(current))
    {
      Interfere(others, me, call, PruneListing(current));
      var fault := faults(sys);
      if fault.Fault? {
        Take(Fail(me, fault.done));
        return;
      }
      var versions := ListVersions();
      var doomed := Below(versions, current);
      PruneListed(sys, me, current, doomed);
      hide Step, Valid, Fair;
      Take(PruneList(me));
      if doomed != [] {
        DeleteAll(me, call, current, doomed, others, faults);
      }
    }

    /** The sorted versions more than ten below `current`. */
    static function Below(versions: seq<nat>, current: nat): (low: seq<nat>)
      ensures forall v :: v in low <==> v in versions && v + VERSIONS_RETAINED < current
      ensures Ascending(versions) ==> Ascending(low)
    {
      if versions == [] then []
      else
        var low := Below(versions[1..], current);
        assert forall i :: 0 <= i < |low| ==> low[i] in low && low[i] in versions[1..];
        if versions[0] + VERSIONS_RETAINED < current then [versions[0]] + low else low
    }

    /** Read, mutate, create the next version; on a lost race start over, eight times. The outcome is the
        one the step system records for this call, so when the puts of the run were in the window a
        committed version is this mutation of the one before. */
    method Update(mutate: Mutation, others: Scheduler, faults: Faults) returns (outcome: Outcome)
      requires Valid() && Fair(others, |sys.calls|)
      modifies this`sys, this`run
      ensures Valid() && old(run) <= run && Returned(old(|sys.calls|), Call.Update(mutate), outcome)
      ensures Reaches(run, sys) ==> UpdateAnswered(sys, old(|sys.calls|), mutate, outcome)
    {
      outcome := RunUpdate(mutate, others, faults);
      if Reaches(run, sys) {
        UpdateAnswers(run, sys, old(|sys.calls|), mutate, outcome);
      }
    }

    method RunUpdate(mutate: Mutation, others: Scheduler, faults: Faults) returns (outcome: Outcome)
      requires Valid() && Fair(others, |sys.calls|)
      modifies this`sys, this`run
      ensures Valid() && old(run) <= run && Returned(old(|sys.calls|), Call.Update(mutate), outcome)
    {
      hide Valid, Fair;
      var me, call := |sys.calls|, Call.Update(mutate);
      Take(Invoke(call));
      for lost := 0 to WRITE_ATTEMPTS
        invariant Valid() && old(run) <= run && lost < WRITE_ATTEMPTS
        invariant At(me, call, Listing(lost, 0))
      {
        var reading, before := LoadVersioned(me, call, lost, others, faults);
        if reading.Failed? {
          return reading.outcome;
        }
        var mutated := mutate(reading.manifest);
        if mutated.Err? {
          return Rejected(mutated.error);
        }
        var next := if reading.version.None? then 0 else reading.version.value + 1;
        var put := TryPut(me, call, lost, next, mutated.value, others, faults);
        if put.Some? {
          return put.value;
        }
      }
    }

    /** Create the next version and prune; nothing when another call took it and there are tries left. */
    method TryPut(me: nat, call: Call, lost: nat, next: nat, body: Manifest, others: Scheduler, faults: Faults)
      returns (outcome: Option<Outcome>)
      requires Valid() && Fair(others, me) && At(me, call, Putting(lost, next, body)) && lost < WRITE_ATTEMPTS
      modifies this`sys, this`run
      ensures Valid() && old(run) <= run
      ensures outcome.None? ==> lost + 1 < WRITE_ATTEMPTS && At(me, call, Listing(lost + 1, 0))
      ensures outcome.Some? ==> Returned(me, call, outcome.value)
    {
      hide Valid, Fair;
      Interfere(others, me, call, Putting(lost, next, body));
      var fault := faults(sys);
      if fault.Fault? {
        Take(Fail(me, fault.done));
        return Some(IoError);
      }
      var taken := next in sys.files;
      Take(Put(me));
      if !taken {
        if next >= VERSIONS_RETAINED {
          Prune(me, call, next, others, faults);
        }
        return Some(Committed(next));
      }
      outcome := if lost + 1 == WRITE_ATTEMPTS then Some(GaveUp) else None;
    }

    /** The current manifest. */
    method Load(others: Scheduler, faults: Faults) returns (outcome: Outcome)
      requires Valid() && Fair(others, |sys.calls|)
      modifies this`sys, this`run
      ensures Valid() && old(run) <= run && Returned(old(|sys.calls|), Call.Load, outcome)
      ensures Reaches(run, sys) ==> LoadAnswered(sys, run, old(|sys.calls|), outcome)
    {
      var me := |sys.calls|;
      Take(Invoke(Call.Load));
      var reading, before := LoadVersioned(me, Call.Load, 0, others, faults);
      outcome := if reading.Failed? then reading.outcome else Loaded(reading.manifest, reading.version);
      if Reaches(run, sys) {
        LoadAnswers(run, sys, me, outcome);
      }
    }
  }
}
