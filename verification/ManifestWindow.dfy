/** The bounds are exact. A put that is at most eleven commits late can never be lost, and for every longer
    delay there is a run that loses one although its caller is told it succeeded. A listed version can be
    gone when it is read from eleven commits on. Giving up takes eight commits by others and a read that
    fails for good forty-four, and no more. */
module ManifestWindow {
  import opened Wrappers
  import opened Manifests
  import opened ManifestLog
  import opened ManifestSafety
  import opened ManifestTheorems

  /** After a run whose puts were all in the window, call `p` is about to put, `g` commits after its last
      listing; its file name is free, yet below the highest version, so no reader will resolve to it. */
  ghost predicate AboutToBeLost(run: seq<Action>, s: Sys, p: nat, g: nat) {
    && Reaches(run, s)
    && Enabled(s, Put(p))
    && s.procs[p].seen + g == |s.log|
    && s.procs[p].pc.next !in s.files
    && s.procs[p].pc.next < Highest(s.files.Keys)
  }

  lemma ElevenCommitsAreSafe(run: seq<Action>, s: Sys, p: nat)
    requires Reaches(run, s) && Enabled(s, Put(p))
    requires |s.log| <= s.procs[p].seen + 11
    ensures InWindow(s, Put(p))
    ensures s.procs[p].pc.next !in s.files ==> Highest(s.files.Keys) < s.procs[p].pc.next
  {
    ReachesInv(run, s);
    HighestIsLast(s);
    assert ProcInv(s.calls, s.log, p, s.procs[p]);
    WindowBlocks(s, p);
  }

  /** Declaring an empty database, as a pure function of the manifest. */
  function WithDatabase(m: Manifest, name: string): Manifest {
    m.(databases := m.databases[name := DatabaseEntry(None, None)])
  }

  function Declare(name: string): Mutation {
    (m: Manifest) => Ok(WithDatabase(m, name))
  }

  const SLOW := "slow"
  const FAST := "fast"

  /** The slow writer: it listed an empty store and is about to put version 0. */
  function Waiting(): Proc {
    Proc(Update(Declare(SLOW)), 0, 0, 0, Putting(0, 0, WithDatabase(EMPTY_MANIFEST, SLOW)))
  }

  /** `n` commits have been made and pruned behind, and only the `waiting` calls are in flight. */
  ghost predicate Quiet(s: Sys, n: nat, waiting: map<nat, Proc>) {
    && |s.log| == n
    && s.procs == waiting
    && (forall p <- waiting :: p < |s.calls|)
    && (forall v :: v in s.files <==> 0 <= v < n && n <= v + VERSIONS_RETAINED + 1)
    && (forall v <- s.files :: SLOW !in s.files[v].databases)
  }

  lemma HighestOf(versions: set<nat>, h: nat)
    requires h in versions && forall v <- versions :: v <= h
    ensures Highest(versions) == h
  {
  }

  lemma QuietHighest(s: Sys, n: nat, waiting: map<nat, Proc>)
    requires Quiet(s, n, waiting)
    ensures Highest(s.files.Keys) == n - 1
    ensures n == 0 ==> s.files == map[]
    ensures n > 0 ==> n - 1 in s.files
  {
    if n == 0 {
      assert s.files == map[];
    } else {
      HighestOf(s.files.Keys, n - 1);
    }
  }

  lemma Extend(run: seq<Action>, s: Sys, a: Action) returns (run': seq<Action>, s': Sys)
    requires Reaches(run, s) && Enabled(s, a) && InWindow(s, a)
    ensures run' == run + [a] && s' == Step(s, a) && Reaches(run', s')
  {
    run', s' := run + [a], Step(s, a);
    Snoc(INIT, run, a);
  }

  // ---- quick updates

  /** From invocation to just before the put. */
  lemma QuickRead(run: seq<Action>, s: Sys, n: nat, waiting: map<nat, Proc>) returns (run': seq<Action>, s': Sys)
    requires Reaches(run, s) && Quiet(s, n, waiting)
    ensures Reaches(run', s')
    ensures var me := |s.calls|;
            && s'.files == s.files && s'.log == s.log && s'.returned == s.returned && |s'.calls| == me + 1
            && me in s'.procs && s'.procs == waiting[me := s'.procs[me]]
            && var pc := s'.procs[me].pc; pc.Putting? && pc.next == n && SLOW !in pc.body.databases
  {
    hide Reaches, Inv;
    QuietHighest(s, n, waiting);
    var me := |s.calls|;
    run', s' := Extend(run, s, Invoke(Update(Declare(FAST))));
    run', s' := Extend(run', s', List(me));
    if n > 0 {
      run', s' := Extend(run', s', Get(me));
    }
  }

  lemma QuickPrune(run: seq<Action>, s: Sys, n: nat, waiting: map<nat, Proc>, me: nat) returns (run': seq<Action>, s': Sys)
    requires Reaches(run, s)
    requires n >= VERSIONS_RETAINED && |s.log| == n + 1
    requires me in s.procs && s.procs - {me} == waiting && s.procs[me].pc == PruneListing(n)
    requires forall p <- waiting :: p < |s.calls|
    requires forall v :: v in s.files <==> 0 <= v <= n && n <= v + VERSIONS_RETAINED + 1
    requires forall v <- s.files :: SLOW !in s.files[v].databases
    ensures Reaches(run', s') && Quiet(s', n + 1, waiting)
    ensures s'.calls == s.calls
  {
    hide Reaches;
    run', s' := Extend(run, s, PruneList(me));
    var todo := set v | v in s.files && v + VERSIONS_RETAINED < n;
    if n == VERSIONS_RETAINED {
      assert todo == {};
    } else {
      assert todo == {n - VERSIONS_RETAINED - 1};
      assert s'.procs - {me} == waiting;
      run', s' := Extend(run', s', Delete(me, n - VERSIONS_RETAINED - 1, true));
    }
  }

  lemma QuickUpdate(run: seq<Action>, s: Sys, n: nat, waiting: map<nat, Proc>) returns (run': seq<Action>, s': Sys)
    requires Reaches(run, s) && Quiet(s, n, waiting)
    ensures Reaches(run', s') && Quiet(s', n + 1, waiting)
  {
    hide Reaches;
    QuietHighest(s, n, waiting);
    var me := |s.calls|;
    run', s' := QuickRead(run, s, n, waiting);
    assert s'.procs - {me} == waiting;
    run', s' := Extend(run', s', Put(me));
    assert s'.procs - {me} == waiting;
    if n >= VERSIONS_RETAINED {
      run', s' := QuickPrune(run', s', n, waiting, me);
    }
  }

  lemma {:induction false} QuickUpdates(run: seq<Action>, s: Sys, n: nat, waiting: map<nat, Proc>, more: nat)
    returns (run': seq<Action>, s': Sys)
    requires Reaches(run, s) && Quiet(s, n, waiting)
    ensures Reaches(run', s') && Quiet(s', n + more, waiting)
    decreases more
  {
    run', s' := run, s;
    if more > 0 {
      run', s' := QuickUpdate(run, s, n, waiting);
      run', s' := QuickUpdates(run', s', n + 1, waiting, more - 1);
    }
  }

  lemma Nobody() returns (run: seq<Action>, s: Sys)
    ensures Reaches(run, s) && Quiet(s, 0, map[]) && s == INIT
  {
    run, s := [], INIT;
  }

  // ---- a late put

  lemma SlowStart() returns (run: seq<Action>, s: Sys)
    ensures Reaches(run, s) && Quiet(s, 0, map[0 := Waiting()])
    ensures s.calls == [Update(Declare(SLOW))]
  {
    run, s := Nobody();
    run, s := Extend(run, s, Invoke(Update(Declare(SLOW))));
    run, s := Extend(run, s, List(0));
  }

  /** Twelve or more quick updates while a writer waits: its put succeeds on a pruned name, it is told so,
      and no reader sees the database it declared. */
  lemma LateUpdateIsLost(g: nat) returns (run: seq<Action>, s: Sys)
    requires g >= 12
    ensures AboutToBeLost(run, s, 0, g)
    ensures s.procs[0].call == Update(Declare(SLOW))
    ensures var s' := Step(s, Put(0));
            && s'.returned != []
            && s'.returned[|s'.returned| - 1].id == 0
            && s'.returned[|s'.returned| - 1].outcome == Committed(0)
            && SLOW !in Resolve(s'.files).databases
  {
    hide Reaches;
    run, s := SlowStart();
    run, s := QuickUpdates(run, s, 0, map[0 := Waiting()], g);
    QuietHighest(s, g, map[0 := Waiting()]);
    HighestOf(Step(s, Put(0)).files.Keys, g - 1);
  }

  /** The exact window. */
  lemma WindowIsExact(g: nat)
    ensures (exists run, s, p :: AboutToBeLost(run, s, p, g)) <==> g >= 12
  {
    if g > VERSIONS_RETAINED + 1 {
      var run, s := LateUpdateIsLost(g);
    } else {
      forall run, s, p
        ensures !AboutToBeLost(run, s, p, g)
      {
        if AboutToBeLost(run, s, p, g) {
          ElevenCommitsAreSafe(run, s, p);
        }
      }
    }
  }

  // ---- a version gone when it is read

  /** Call `p` is about to get the version it listed `g` commits ago, and it is no longer there. */
  ghost predicate Gone(run: seq<Action>, s: Sys, p: nat, g: nat) {
    && Reaches(run, s)
    && Enabled(s, Get(p))
    && s.procs[p].seen + g == |s.log|
    && s.procs[p].pc.version !in s.files
  }

  lemma TenCommitsAreSafe(run: seq<Action>, s: Sys, p: nat)
    requires Reaches(run, s) && Enabled(s, Get(p))
    requires |s.log| <= s.procs[p].seen + 10
    ensures s.procs[p].pc.version in s.files
  {
    ReachesInv(run, s);
    assert ProcInv(s.calls, s.log, p, s.procs[p]);
  }

  /** A reader that listed `n` commits, `missed` of its versions having gone before. */
  function Reader(begun: nat, started: nat, n: nat, missed: nat): Proc
    requires n > 0
  {
    Proc(Load, begun, started, n, Getting(0, missed, n - 1))
  }

  lemma ListAgain(run: seq<Action>, s: Sys, n: nat, p: nat, q: Proc) returns (run': seq<Action>, s': Sys)
    requires Reaches(run, s) && Quiet(s, n, map[p := q]) && n > 0
    requires q.call.Load? && q.pc.Listing? && q.pc.lost == 0
    ensures Reaches(run', s') && Quiet(s', n, map[p := Reader(q.begun, q.started, n, q.pc.missed)])
  {
    hide Reaches;
    QuietHighest(s, n, map[p := q]);
    run', s' := Extend(run, s, List(p));
  }

  /** A reader is invoked after the first commit, and other updates come before it gets to list. */
  lemma ReaderStarts(wait: nat) returns (run: seq<Action>, s: Sys, p: nat, started: nat)
    ensures Reaches(run, s) && Quiet(s, 1 + wait, map[p := Proc(Load, 1, started, 1, Listing(0, 0))])
  {
    hide Reaches;
    run, s := Nobody();
    run, s := QuickUpdates(run, s, 0, map[], 1);
    p, started := |s.calls|, |s.returned|;
    run, s := Extend(run, s, Invoke(Load));
    run, s := QuickUpdates(run, s, 1, map[p := Proc(Load, 1, started, 1, Listing(0, 0))], wait);
  }

  lemma VersionGone(g: nat) returns (run: seq<Action>, s: Sys, p: nat)
    requires g > VERSIONS_RETAINED
    ensures Gone(run, s, p, g)
  {
    hide Reaches;
    var started;
    run, s, p, started := ReaderStarts(0);
    run, s := ListAgain(run, s, 1, p, Proc(Load, 1, started, 1, Listing(0, 0)));
    run, s := QuickUpdates(run, s, 1, map[p := Reader(1, started, 1, 0)], g);
  }

  /** A listed version can be gone when it is read exactly when eleven or more commits were made between. */
  lemma ReadWindowIsExact(g: nat)
    ensures (exists run, s, p :: Gone(run, s, p, g)) <==> g >= 11
  {
    if g > VERSIONS_RETAINED {
      var run, s, p := VersionGone(g);
    } else {
      forall run, s, p
        ensures !Gone(run, s, p, g)
      {
        if Gone(run, s, p, g) {
          TenCommitsAreSafe(run, s, p);
        }
      }
    }
  }

  // ---- failures at their price

  /** A call returned `outcome` after a run in which `g` commits were made while it ran. */
  ghost predicate FailedAfter(run: seq<Action>, s: Sys, r: Return, outcome: Outcome, g: nat) {
    Reaches(run, s) && r in s.returned && r.outcome == outcome && r.ended == r.begun + g
  }

  /** Eleven updates pass between each listing and its read, four times over. */
  lemma {:induction false} KeepMissing(run: seq<Action>, s: Sys, n: nat, p: nat, begun: nat, started: nat, missed: nat)
    returns (run': seq<Action>, s': Sys, r: Return)
    requires Reaches(run, s) && n > 0 && missed < READ_ATTEMPTS && begun <= n
    requires Quiet(s, n, map[p := Reader(begun, started, n, missed)])
    ensures FailedAfter(run', s', r, Disappeared, n + (VERSIONS_RETAINED + 1) * (READ_ATTEMPTS - missed) - begun)
    ensures r.begun == begun
    decreases READ_ATTEMPTS - missed
  {
    hide Reaches;
    var waiting := map[p := Reader(begun, started, n, missed)];
    var n' := n + VERSIONS_RETAINED + 1;
    run', s' := QuickUpdates(run, s, n, waiting, VERSIONS_RETAINED + 1);
    run', s' := Extend(run', s', Get(p));
    if missed + 1 < READ_ATTEMPTS {
      var q := Reader(begun, started, n, missed).(pc := Listing(0, missed + 1));
      assert s'.procs == map[p := q];
      run', s' := ListAgain(run', s', n', p, q);
      run', s', r := KeepMissing(run', s', n', p, begun, started, missed + 1);
    } else {
      r := s'.returned[|s'.returned| - 1];
    }
  }

  /** A read can fail for good after `g` commits by others exactly when `g` is at least forty-four. */
  lemma DisappearingTakesFortyFour(g: nat)
    ensures (exists run, s, r :: FailedAfter(run, s, r, Disappeared, g)) <==> g >= 44
  {
    if g >= 44 {
      var run, s, p, started := ReaderStarts(g - 44);
      run, s := ListAgain(run, s, 1 + g - 44, p, Proc(Load, 1, started, 1, Listing(0, 0)));
      var r;
      run, s, r := KeepMissing(run, s, 1 + g - 44, p, 1, started, 0);
      assert FailedAfter(run, s, r, Disappeared, g);
    } else {
      forall run, s, r
        ensures !FailedAfter(run, s, r, Disappeared, g)
      {
        if FailedAfter(run, s, r, Disappeared, g) {
          FailuresAreEarned(run, s, r);
        }
      }
    }
  }

  /** A writer lists and reads, and is about to put the next version. */
  lemma ReadAgain(run: seq<Action>, s: Sys, n: nat, p: nat, q: Proc) returns (run': seq<Action>, s': Sys, body: Manifest)
    requires Reaches(run, s) && Quiet(s, n, map[p := q])
    requires q.call == Update(Declare(SLOW)) && q.pc.Listing?
    ensures Reaches(run', s') && Quiet(s', n, map[p := q.(seen := n, pc := Putting(q.pc.lost, n, body))])
  {
    hide Reaches;
    QuietHighest(s, n, map[p := q]);
    run', s' := Extend(run, s, List(p));
    if n > 0 {
      run', s' := Extend(run', s', Get(p));
    }
    body := s'.procs[p].pc.body;
    assert s'.procs == map[p := q.(seen := n, pc := Putting(q.pc.lost, n, body))];
  }

  /** One update passes between each reading and its put, eight times over. */
  lemma {:induction false} KeepLosing(run: seq<Action>, s: Sys, n: nat, p: nat, q: Proc)
    returns (run': seq<Action>, s': Sys, r: Return)
    requires Reaches(run, s) && Quiet(s, n, map[p := q]) && q.begun <= n
    requires q.call == Update(Declare(SLOW)) && q.pc.Listing? && q.pc.lost < WRITE_ATTEMPTS
    ensures FailedAfter(run', s', r, GaveUp, n + WRITE_ATTEMPTS - q.pc.lost - q.begun)
    ensures r.begun == q.begun
    decreases WRITE_ATTEMPTS - q.pc.lost
  {
    hide Reaches;
    var body;
    run', s', body := ReadAgain(run, s, n, p, q);
    var put := q.(seen := n, pc := Putting(q.pc.lost, n, body));
    run', s' := QuickUpdate(run', s', n, map[p := put]);
    QuietHighest(s', n + 1, map[p := put]);
    run', s' := Extend(run', s', Put(p));
    if q.pc.lost + 1 < WRITE_ATTEMPTS {
      var q' := put.(pc := Listing(q.pc.lost + 1, 0));
      assert s'.procs == map[p := q'];
      run', s', r := KeepLosing(run', s', n + 1, p, q');
    } else {
      r := s'.returned[|s'.returned| - 1];
    }
  }

  /** An update can give up after `g` commits by others exactly when `g` is at least eight. */
  lemma GivingUpTakesEight(g: nat)
    ensures (exists run, s, r :: FailedAfter(run, s, r, GaveUp, g)) <==> g >= 8
  {
    if g >= 8 {
      var q := Proc(Update(Declare(SLOW)), 0, 0, 0, Listing(0, 0));
      var run, s := Nobody();
      run, s := Extend(run, s, Invoke(Update(Declare(SLOW))));
      assert s.procs == map[0 := q];
      run, s := QuickUpdates(run, s, 0, map[0 := q], g - 8);
      var r;
      run, s, r := KeepLosing(run, s, g - 8, 0, q);
      assert FailedAfter(run, s, r, GaveUp, g);
    } else {
      forall run, s, r
        ensures !FailedAfter(run, s, r, GaveUp, g)
      {
        if FailedAfter(run, s, r, GaveUp, g) {
          FailuresAreEarned(run, s, r);
        }
      }
    }
  }
}
