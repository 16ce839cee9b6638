/**
  What the scheduler guarantees over every run of the installation (any processes, any
  interleaving, any crashes), and runs that show why the conditions are needed.
*/
module JobTheorems {
  import opened Wrappers
  import opened JobRows
  import opened JobProtocol

  /** At most one execution holds a job, and runningRunId names exactly its run; a live one is still RUNNING. */
  lemma MutualExclusion(env: Env, acts: seq<Action>, s: System, t: nat, u: nat)
    requires Runs(env, INIT, acts, s) && t in s.threads && u in s.threads
    requires Holds(s.threads[t].pc) && Holds(s.threads[u].pc)
    requires s.threads[t].pc.snap.id == s.threads[u].pc.snap.id
    ensures t == u
    ensures var pc := s.threads[t].pc;
            pc.snap.id in s.jobs && s.jobs[pc.snap.id].runningRunId == Some(pc.run)
            && pc.run in s.runs && s.runs[pc.run].job == pc.snap.id
            && (s.runs[pc.run].status.RUNNING? <==> pc.Live?)
  {
    InvInit();
    InvRuns(env, INIT, acts, s);
    assert ThreadOk(s, t) && ThreadOk(s, u);
  }

  ghost predicate ClaimsOwned(s: System) {
    forall j :: j in s.jobs && s.jobs[j].runningRunId.Some? ==>
      s.jobs[j].runningRunId.value in s.fate && s.fate[s.jobs[j].runningRunId.value].Owned?
  }

  lemma ClaimsOwnedStep(env: Env, s: System, a: Action)
    requires Inv(s) && ClaimsOwned(s) && Enabled(s, a) && !a.Crash?
    ensures ClaimsOwned(Apply(env, s, a))
  {
    hide Due, IsDueList, CountOk;
    var s' := Apply(env, s, a);
    forall j | j in s'.jobs && s'.jobs[j].runningRunId.Some?
      ensures s'.jobs[j].runningRunId.value in s'.fate && s'.fate[s'.jobs[j].runningRunId.value].Owned?
    {
      var r := s'.jobs[j].runningRunId.value;
      if j in s.jobs && s.jobs[j].runningRunId == Some(r) { ClaimStaysOwned(env, s, a, j, r); }
      if a.Claim? { assert ThreadOk(s, a.t); }
    }
  }

  lemma ClaimStaysOwned(env: Env, s: System, a: Action, j: JobId, r: RunId)
    requires Inv(s) && Enabled(s, a) && !a.Crash? && j in s.jobs && s.jobs[j].runningRunId == Some(r)
    requires r in s.fate && s.fate[r].Owned?
    ensures j in Apply(env, s, a).jobs && Apply(env, s, a).jobs[j].runningRunId == Some(r) ==>
              r in Apply(env, s, a).fate && Apply(env, s, a).fate[r].Owned?
  {
    var u := s.fate[r].thread;
    assert RowOk(s, r) && ThreadOk(s, u) && ClaimOk(s, j);
    OwnedFateStep(env, s, a, r);
    if a.Release? {
      assert ThreadOk(s, a.t);
      ReleaseFrees(env, s, a);
    } else if a.Discard? {
      assert ThreadOk(s, a.t);
    }
    hide Apply, CountOk;
  }

  lemma ReleaseFrees(env: Env, s: System, a: Action)
    requires Possible(s, a) && a.Release?
    ensures var j := s.threads[a.t].pc.snap.id;
            j in Apply(env, s, a).jobs && Apply(env, s, a).jobs[j].runningRunId.None?
  {
  }

  lemma {:induction false} ClaimsOwnedAlways(env: Env, s: System, acts: seq<Action>, s': System)
    requires Inv(s) && ClaimsOwned(s) && Runs(env, s, acts, s') && NoCrash(acts)
    ensures ClaimsOwned(s')
    decreases |acts|
  {
    if acts != [] {
      assert !acts[0].Crash?;
      ClaimsOwnedStep(env, s, acts[0]);
      InvStep(env, s, acts[0]);
      ClaimsOwnedAlways(env, Apply(env, s, acts[0]), acts[1..], s');
    }
  }

  ghost predicate NoCrash(acts: seq<Action>) {
    forall i :: 0 <= i < |acts| ==> !acts[i].Crash?
  }

  /** Conversely a claim is held by a living execution, or was left behind by a crash. */
  lemma ClaimHasHolder(env: Env, acts: seq<Action>, s: System, j: JobId)
    requires Runs(env, INIT, acts, s) && j in s.jobs && s.jobs[j].runningRunId.Some?
    ensures var r := s.jobs[j].runningRunId.value;
            r in s.fate && s.fate[r] != Counted
            && (s.fate[r].Owned? ==>
                  s.fate[r].thread in s.threads && Holds(s.threads[s.fate[r].thread].pc)
                  && s.threads[s.fate[r].thread].pc.snap.id == j && s.threads[s.fate[r].thread].pc.run == r)
            && (NoCrash(acts) ==> s.fate[r].Owned?)
  {
    InvInit();
    InvRuns(env, INIT, acts, s);
    assert ClaimOk(s, j);
    var r := s.jobs[j].runningRunId.value;
    assert RowOk(s, r);
    if s.fate[r].Owned? { assert ThreadOk(s, s.fate[r].thread); }
    if NoCrash(acts) { ClaimsOwnedAlways(env, INIT, acts, s); }
  }

  /** No crash happens, and every process has a handler for every job. */
  ghost predicate Calm(env: Env, acts: seq<Action>) {
    && NoCrash(acts)
    && (forall p: nat, j: JobId :: env.registered(p, j))
  }

  ghost predicate NoStray(s: System) {
    forall r :: r in s.fate ==> !s.fate[r].Stray? && !s.fate[r].Gap? && !s.fate[r].BySync?
  }

  lemma CalmStep(env: Env, s: System, a: Action)
    requires Inv(s) && NoStray(s) && Enabled(s, a) && Calm(env, [a])
    ensures NoStray(Apply(env, s, a))
  {
    assert !([a][0]).Crash?;
    if a.SyncCloseRuns? {
      forall r | r in s.runs ensures !s.runs[r].status.RUNNING? {
        assert RowOk(s, r);
        if s.fate[r].Owned? { assert ThreadOk(s, s.fate[r].thread); }
      }
    }
  }

  lemma {:induction false} CalmRuns(env: Env, s: System, acts: seq<Action>, s': System)
    requires Inv(s) && NoStray(s) && Calm(env, acts) && Runs(env, s, acts, s')
    ensures NoStray(s')
    decreases |acts|
  {
    if acts != [] {
      assert !acts[0].Crash?;
      CalmStep(env, s, acts[0]);
      InvStep(env, s, acts[0]);
      CalmRuns(env, Apply(env, s, acts[0]), acts[1..], s');
    }
  }

  /** Lost claims leave no run behind: a RUNNING row belongs to an execution still at work, or is a stray. */
  lemma RunningRowsHaveOwners(env: Env, acts: seq<Action>, s: System, r: RunId)
    requires Runs(env, INIT, acts, s) && r in s.runs && s.runs[r].status.RUNNING?
    ensures r in s.fate
    ensures s.fate[r].Stray? || exists t :: t in s.threads && IsOpen(s.threads[t].pc) && s.threads[t].pc.run == r
    ensures Calm(env, acts) ==> !s.fate[r].Stray?
  {
    InvInit();
    InvRuns(env, INIT, acts, s);
    assert RowOk(s, r);
    if s.fate[r].Owned? { assert ThreadOk(s, s.fate[r].thread); }
    if Calm(env, acts) { CalmRuns(env, INIT, acts, s); }
  }

  lemma ClosedStep(env: Env, s: System, a: Action, r: RunId)
    requires Inv(s) && Enabled(s, a) && r in s.runs && !s.runs[r].status.RUNNING?
    ensures r in Apply(env, s, a).runs && Apply(env, s, a).runs[r] == s.runs[r]
  {
    RunRowStep(env, s, a, r);
    hide Apply, RowOk, ClaimOk, CountOk;
    if a.Discard? || a.CloseRun? { assert ThreadOk(s, a.t); }
  }

  /** A run once OK or ERROR is never rewritten or deleted. */
  lemma {:induction false} ClosedForever(env: Env, s: System, acts: seq<Action>, s': System, r: RunId)
    requires Inv(s) && Runs(env, s, acts, s') && r in s.runs && !s.runs[r].status.RUNNING?
    ensures r in s'.runs && s'.runs[r] == s.runs[r]
    decreases |acts|
  {
    if acts != [] {
      ClosedStep(env, s, acts[0], r);
      InvStep(env, s, acts[0]);
      ClosedForever(env, Apply(env, s, acts[0]), acts[1..], s', r);
    }
  }

  ghost function ClosedRuns(s: System, j: JobId): set<RunId> {
    set r | r in s.runs && s.runs[r].job == j && !s.runs[r].status.RUNNING?
  }

  /** Runs whose row finish has closed while the job row is still to be written. */
  ghost function BetweenWrites(s: System, j: JobId): set<RunId> {
    set r | r in s.runs && s.runs[r].job == j && !s.runs[r].status.RUNNING? && r in s.fate && s.fate[r].Owned?
  }

  lemma CardOfFour<T>(all: set<T>, a: set<T>, b: set<T>, c: set<T>, d: set<T>)
    requires forall x :: x in all <==> x in a || x in b || x in c || x in d
    requires a !! b && a !! c && a !! d && b !! c && b !! d && c !! d
    ensures |all| == |a| + |b| + |c| + |d|
  {
    assert all == (a + b) + (c + d) && (a + b) !! (c + d);
  }

  lemma FatesDisjoint(s: System, j: JobId, f: Fate, g: Fate)
    requires f != g && !f.Owned?
    ensures RunsWith(s, j, f) !! RunsWith(s, j, g) && RunsWith(s, j, f) !! BetweenWrites(s, j)
  {
  }

  lemma ClosedRunHasOneFate(s: System, r: RunId)
    requires s.fate.Keys == s.runs.Keys && r in s.runs && RowOk(s, r)
    ensures !s.runs[r].status.RUNNING? ==> s.fate[r] in {Counted, BySync, Gap} || s.fate[r].Owned?
    ensures s.fate[r] in {Counted, BySync, Gap} ==> !s.runs[r].status.RUNNING?
  {
  }

  lemma SplitClosed(s: System, j: JobId)
    requires s.fate.Keys == s.runs.Keys && forall r :: r in s.runs ==> RowOk(s, r)
    ensures |ClosedRuns(s, j)| == |RunsWith(s, j, Counted)| + |RunsWith(s, j, BySync)| + |RunsWith(s, j, Gap)|
        + |BetweenWrites(s, j)|
  {
    var c, y, g, w := RunsWith(s, j, Counted), RunsWith(s, j, BySync), RunsWith(s, j, Gap), BetweenWrites(s, j);
    forall r ensures r in ClosedRuns(s, j) <==> r in c || r in y || r in g || r in w {
      if r in s.runs { ClosedRunHasOneFate(s, r); }
    }
    FatesDisjoint(s, j, Counted, BySync);
    FatesDisjoint(s, j, BySync, Gap);
    FatesDisjoint(s, j, Gap, Counted);
    CardOfFour(ClosedRuns(s, j), c, y, g, w);
  }

  /** Between the two writes of finish the claim is still held. */
  lemma BetweenWritesHolds(s: System, r: RunId)
    requires Inv(s) && r in s.runs && !s.runs[r].status.RUNNING? && s.fate[r].Owned?
    ensures s.jobs[s.runs[r].job].runningRunId == Some(r)
  {
    assert RowOk(s, r) && ThreadOk(s, s.fate[r].thread);
  }

  /** The ledger: runCount is the closed runs, less those sync closed, less those a crash caught between finish's
      writes. */
  lemma Ledger(env: Env, acts: seq<Action>, s: System, j: JobId)
    requires Runs(env, INIT, acts, s) && j in s.jobs
    ensures s.jobs[j].runCount ==
            |ClosedRuns(s, j)| - |RunsWith(s, j, BySync)| - |RunsWith(s, j, Gap)| - |BetweenWrites(s, j)|
    ensures Calm(env, acts) && s.jobs[j].runningRunId.None? ==> s.jobs[j].runCount == |ClosedRuns(s, j)|
  {
    InvInit();
    InvRuns(env, INIT, acts, s);
    SplitClosed(s, j);
    assert CountOk(s, j);
    if Calm(env, acts) && s.jobs[j].runningRunId.None? {
      CalmRuns(env, INIT, acts, s);
      assert RunsWith(s, j, BySync) == {} && RunsWith(s, j, Gap) == {};
      forall r | r in BetweenWrites(s, j) ensures s.jobs[j].runningRunId == Some(r) {
        BetweenWritesHolds(s, r);
      }
      assert BetweenWrites(s, j) == {};
    }
  }

  /** finish always finds its rows: neither of its two updates can miss. */
  lemma FinishFindsItsRows(env: Env, acts: seq<Action>, s: System, t: nat)
    requires Runs(env, INIT, acts, s) && t in s.threads && Holds(s.threads[t].pc)
    ensures forall outcome, at :: s.threads[t].pc.Live? ==> Enabled(s, CloseRun(t, outcome, at))
    ensures forall at, from :: s.threads[t].pc.Written? && at <= from ==> Enabled(s, Release(t, at, from))
  {
    InvInit();
    InvRuns(env, INIT, acts, s);
    HolderFinds(s, t);
  }

  lemma HolderFinds(s: System, t: nat)
    requires t in s.threads && ThreadOk(s, t)
    ensures forall outcome, at :: s.threads[t].pc.Live? ==> Enabled(s, CloseRun(t, outcome, at))
    ensures forall at, from :: s.threads[t].pc.Written? && at <= from ==> Enabled(s, Release(t, at, from))
  {
  }

  // ---------------------------------------------------------------- one execution, undisturbed

  lemma RunsOfTwo(env: Env, s: System, a: Action, s1: System, b: Action, s2: System)
    requires Enabled(s, a) && s1 == Apply(env, s, a) && Enabled(s1, b) && s2 == Apply(env, s1, b)
    ensures Runs(env, s, [a, b], s2)
  {
    assert [a, b][1..] == [b];
    assert Runs(env, s2, [b][1..], s2);
  }

  /** Create and claim, when the job is free. */
  lemma StartRun(env: Env, s: System, t: nat, at: Instant) returns (s': System)
    requires t in s.threads && s.threads[t].pc.Starting?
    requires env.registered(s.threads[t].proc, s.threads[t].pc.snap.id) && ClaimWins(s.jobs, s.threads[t].pc.snap.id)
    ensures Runs(env, s, [Create(t, at), Claim(t)], s')
    ensures var snap, r := s.threads[t].pc.snap, s.nextRun;
            s' == System(s.jobs[snap.id := Claimed(s.jobs[snap.id], r)],
                         s.runs[r := NewRun(snap.id, s.threads[t].trigger, at)],
                         s.threads[t := s.threads[t].(pc := Live(snap, r))], r + 1, s.fate[r := Owned(t)])
  {
    var s1 := CreateStep(env, s, t, at);
    s' := ClaimStep(s1, t);
    RunsOfTwo(env, s, Create(t, at), s1, Claim(t), s');
  }

  /** Create, and stop there for want of a handler. */
  lemma StrayRun(env: Env, s: System, t: nat, at: Instant) returns (s': System)
    requires t in s.threads && s.threads[t].pc.Starting?
    requires !env.registered(s.threads[t].proc, s.threads[t].pc.snap.id)
    ensures Runs(env, s, [Create(t, at)], s')
    ensures s'.jobs == s.jobs && s'.nextRun == s.nextRun + 1
    ensures s'.runs == s.runs[s.nextRun := NewRun(s.threads[t].pc.snap.id, s.threads[t].trigger, at)]
    ensures s'.threads == s.threads[t := s.threads[t].(pc := Idle)]
  {
    s' := CreateStep(env, s, t, at);
    assert Runs(env, s', [Create(t, at)][1..], s');
  }

  /** Create, lose the claim, and discard: the rows are as before. */
  lemma LoseRun(env: Env, s: System, t: nat, at: Instant) returns (s': System)
    requires t in s.threads && s.threads[t].pc.Starting? && s.nextRun !in s.runs
    requires env.registered(s.threads[t].proc, s.threads[t].pc.snap.id) && !ClaimWins(s.jobs, s.threads[t].pc.snap.id)
    ensures Runs(env, s, [Create(t, at), Claim(t), Discard(t)], s')
    ensures s'.jobs == s.jobs && s'.runs == s.runs && s'.nextRun == s.nextRun + 1
    ensures s'.threads == s.threads[t := s.threads[t].(pc := Idle)]
  {
    var s1 := CreateStep(env, s, t, at);
    var s2 := ClaimStep(s1, t);
    s' := DiscardStep(s2, t);
    RunsOfTwo(env, s, Create(t, at), s1, Claim(t), s2);
    assert Runs(env, s', [Discard(t)][1..], s');
    RunsConcat(env, s, [Create(t, at), Claim(t)], s2, [Discard(t)], s');
    assert [Create(t, at), Claim(t)] + [Discard(t)] == [Create(t, at), Claim(t), Discard(t)];
  }

  /** The two writes of finish. */
  lemma FinishRun(env: Env, s: System, t: nat, outcome: Outcome, at: Instant) returns (s': System)
    requires t in s.threads && s.threads[t].pc.Live?
    requires s.threads[t].pc.run in s.runs && s.threads[t].pc.snap.id in s.jobs
    ensures Runs(env, s, [CloseRun(t, outcome, at), Release(t, at, at)], s')
    ensures var snap, r := s.threads[t].pc.snap, s.threads[t].pc.run;
            s' == System(s.jobs[snap.id := Released(env, s.jobs[snap.id], snap.row, outcome, at, at)],
                         s.runs[r := Closed(s.runs[r], outcome, at)],
                         s.threads[t := s.threads[t].(pc := Idle)], s.nextRun, s.fate[r := Counted])
  {
    var s1 := CloseRunStep(s, t, outcome, at);
    s' := ReleaseStep(env, s1, t, at, at);
    RunsOfTwo(env, s, CloseRun(t, outcome, at), s1, Release(t, at, at), s');
  }

  /** Create, claim, run the handler and finish, when the job is free. */
  lemma WinRun(env: Env, s: System, t: nat, at: Instant, outcome: Outcome, end: Instant) returns (s': System)
    requires t in s.threads && s.threads[t].pc.Starting?
    requires env.registered(s.threads[t].proc, s.threads[t].pc.snap.id) && ClaimWins(s.jobs, s.threads[t].pc.snap.id)
    ensures Runs(env, s, [Create(t, at), Claim(t), CloseRun(t, outcome, end), Release(t, end, end)], s')
    ensures var snap, r := s.threads[t].pc.snap, s.nextRun;
            s'.jobs == s.jobs[snap.id := Released(env, Claimed(s.jobs[snap.id], r), snap.row, outcome, end, end)]
            && s'.runs == s.runs[r := Closed(NewRun(snap.id, s.threads[t].trigger, at), outcome, end)]
                && s'.nextRun == r + 1
    ensures s'.threads == s.threads[t := s.threads[t].(pc := Idle)]
  {
    var mid := StartRun(env, s, t, at);
    s' := FinishRun(env, mid, t, outcome, end);
    var start, finish := [Create(t, at), Claim(t)], [CloseRun(t, outcome, end), Release(t, end, end)];
    RunsConcat(env, s, start, mid, finish, s');
    assert start + finish == [Create(t, at), Claim(t), CloseRun(t, outcome, end), Release(t, end, end)];
  }

  // ---------------------------------------------------------------- why the conditions are needed

  function Fresh(env: Env, key: JobId, cron: string, tz: string, at: Instant): Job {
    Job(cron, tz, true, false, None, None, None, None, env.next(cron, tz, at), 0)
  }

  /** Two manual requests read the job before either claims it; the first is now running. */
  lemma RaceToRunNow(env: Env, key: JobId, cron: string, tz: string) returns (acts: seq<Action>, s: System)
    requires env.registered(0, key)
    ensures Runs(env, INIT, acts, s)
    ensures var row := Fresh(env, key, cron, tz, 0);
            s == System(map[key := Claimed(row, 0)], map[0 := NewRun(key, MANUAL, 0)],
                        map[0 := Thread(0, MANUAL, [], Live(Snapshot(key, row), 0)),
                            1 := Thread(0, MANUAL, [], Starting(Snapshot(key, row)))], 1, map[0 := Owned(0)])
  {
    var row := Fresh(env, key, cron, tz, 0);
    var th := Thread(0, MANUAL, [], Starting(Snapshot(key, row)));
    var s1 := System(map[key := row], map[], map[], 0, map[]);
    var s2 := s1.(threads := map[0 := th]);
    var s3 := s1.(threads := map[0 := th, 1 := th]);
    assert Runs(env, s1, [SyncUpsert(key, cron, tz, 0)][1..], s1);
    RunsOfTwo(env, s1, RunNow(0, 0, key), s2, RunNow(1, 0, key), s3);
    s := StartRun(env, s3, 0, 0);
    var p := [SyncUpsert(key, cron, tz, 0)];
    RunsConcat(env, INIT, p, s1, [RunNow(0, 0, key), RunNow(1, 0, key)], s3);
    p := p + [RunNow(0, 0, key), RunNow(1, 0, key)];
    RunsConcat(env, INIT, p, s3, [Create(0, 0), Claim(0)], s);
    acts := p + [Create(0, 0), Claim(0)];
  }

  /** Clearing the claims while an execution is live lets a second handler of the same job start. */
  lemma SyncDuringRunBreaksExclusion(env: Env, key: JobId, cron: string, tz: string)
    returns (acts: seq<Action>, s: System, bad: System)
    requires env.registered(0, key)
    ensures Runs(env, INIT, acts, s) && !NoHolder(s)
    ensures Runs(env, ClearClaimsStep(s), [Create(1, 0), Claim(1)], bad)
    ensures 0 in bad.threads && 1 in bad.threads
    ensures bad.threads[0].pc.Live? && bad.threads[1].pc.Live?
        && bad.threads[0].pc.snap.id == bad.threads[1].pc.snap.id == key
  {
    acts, s := RaceToRunNow(env, key, cron, tz);
    assert Holds(s.threads[0].pc);
    bad := StartRun(env, ClearClaimsStep(s), 1, 0);
  }

  /** Two instances read the same due list, and both are about to execute its only job. */
  lemma TwoTicks(env: Env, key: JobId, cron: string, tz: string, slot: Instant) returns (acts: seq<Action>, s: System)
    requires env.next(cron, tz, 0) == Some(slot)
    ensures Runs(env, INIT, acts, s)
    ensures var snap := Snapshot(key, Fresh(env, key, cron, tz, 0));
            s == System(map[key := snap.row], map[],
                        map[0 := Thread(0, CRON, [], Starting(snap)), 1 := Thread(1, CRON, [], Starting(snap))], 0,
                            map[])
  {
    var snap := Snapshot(key, Fresh(env, key, cron, tz, 0));
    var s1 := System(map[key := snap.row], map[], map[], 0, map[]);
    assert IsDueList(s1.jobs, slot, [snap]);
    var a1, a2, a3 := [SyncUpsert(key, cron, tz, 0)], TickStart(0, 0, slot, [snap]), TickStart(1, 1, slot, [snap]);
    assert Runs(env, s1, a1[1..], s1);
    var s2 := s1.(threads := map[0 := Thread(0, CRON, [snap], Idle)]);
    var s3 := s1.(threads := map[0 := Thread(0, CRON, [snap], Idle), 1 := Thread(1, CRON, [snap], Idle)]);
    RunsOfTwo(env, s1, a2, s2, a3, s3);
    var s4 := s1.(threads := map[0 := Thread(0, CRON, [], Starting(snap)), 1 := Thread(1, CRON, [snap], Idle)]);
    s := s1.(threads := map[0 := Thread(0, CRON, [], Starting(snap)), 1 := Thread(1, CRON, [], Starting(snap))]);
    assert [snap][1..] == [];
    RunsOfTwo(env, s3, TickNext(0), s4, TickNext(1), s);
    RunsConcat(env, INIT, a1, s1, [a2, a3], s3);
    RunsConcat(env, INIT, a1 + [a2, a3], s3, [TickNext(0), TickNext(1)], s);
    acts := a1 + [a2, a3] + [TickNext(0), TickNext(1)];
  }

  /** Two instances that read the same due list run the same slot twice: the claim does not look at nextRunAt. */
  lemma StaleDueListRunsSlotTwice(env: Env, key: JobId, cron: string, tz: string, slot: Instant)
    returns (acts: seq<Action>, s: System)
    requires StrictlyLater(env.next) && env.registered(0, key) && env.registered(1, key)
    requires env.next(cron, tz, 0) == Some(slot)
    ensures Runs(env, INIT, acts, s) && 1 in s.threads && key in s.jobs
    ensures s.threads[1].pc.Live? && s.threads[1].pc.snap == Snapshot(key, Fresh(env, key, cron, tz, 0))
    ensures s.jobs[key].runCount == 1 && s.jobs[key].lastRunAt == Some(slot)
    ensures s.jobs[key].nextRunAt.Some? ==> s.jobs[key].nextRunAt.value > slot
  {
    var p, s5 := TwoTicks(env, key, cron, tz, slot);
    var s6 := StartRun(env, s5, 0, slot);
    var s7 := FinishRun(env, s6, 0, Returned, slot);
    s := StartRun(env, s7, 1, slot);
    var start0, finish0 := [Create(0, slot), Claim(0)], [CloseRun(0, Returned, slot), Release(0, slot, slot)];
    RunsConcat(env, INIT, p, s5, start0, s6);
    RunsConcat(env, INIT, p + start0, s6, finish0, s7);
    RunsConcat(env, INIT, p + start0 + finish0, s7, [Create(1, slot), Claim(1)], s);
    acts := p + start0 + finish0 + [Create(1, slot), Claim(1)];
  }

  /** finish writes the next slot of the schedule it started with, even if an admin changed the schedule meanwhile. */
  lemma FinishOverwritesEdit(env: Env, key: JobId, cron: string, tz: string, edited: string)
    returns (acts: seq<Action>, s: System)
    requires env.registered(0, key) && env.next(edited, tz, 0).Some?
    ensures Runs(env, INIT, acts, s) && key in s.jobs
    ensures s.jobs[key].cronExpr == edited && s.jobs[key].nextRunAt == env.next(cron, tz, 0)
  {
    var p, s0 := RaceToRunNow(env, key, cron, tz);
    var row := Claimed(Fresh(env, key, cron, tz, 0), 0);
    var patch := Patch(Some(edited), Some(tz), None);
    var s1 := s0.(threads := s0.threads[2 := Thread(0, MANUAL, [], Editing(Snapshot(key, row), patch))]);
    var s2 := EditWriteStep(env, s1, 2, 0);
    RunsOfTwo(env, s0, EditStart(2, 0, key, patch), s1, EditWrite(2, 0), s2);
    s := FinishRun(env, s2, 0, Returned, 0);
    RunsConcat(env, INIT, p, s0, [EditStart(2, 0, key, patch), EditWrite(2, 0)], s2);
    p := p + [EditStart(2, 0, key, patch), EditWrite(2, 0)];
    RunsConcat(env, INIT, p, s2, [CloseRun(0, Returned, 0), Release(0, 0, 0)], s);
    acts := p + [CloseRun(0, Returned, 0), Release(0, 0, 0)];
  }

  /** An edit that nothing interrupts. */
  lemma EditRun(env: Env, s: System, t: nat, key: JobId, patch: Patch, at: Instant) returns (s': System)
    requires t !in s.threads && key in s.jobs && Edited(env, s.jobs[key], s.jobs[key], patch, at).Some?
    ensures Runs(env, s, [EditStart(t, 0, key, patch), EditWrite(t, at)], s')
    ensures s' == s.(jobs := s.jobs[key := Edited(env, s.jobs[key], s.jobs[key], patch, at).value],
                     threads := s.threads[t := Thread(0, MANUAL, [], Idle)])
  {
    var s1 := s.(threads := s.threads[t := Thread(0, MANUAL, [], Editing(Snapshot(key, s.jobs[key]), patch))]);
    s' := EditWriteStep(env, s1, t, at);
    RunsOfTwo(env, s, EditStart(t, 0, key, patch), s1, EditWrite(t, at), s');
  }

  lemma PausedJob(env: Env, key: JobId, cron: string, tz: string) returns (acts: seq<Action>, s: System)
    requires env.next(cron, tz, 0).Some?
    ensures Runs(env, INIT, acts, s)
    ensures s == System(map[key := Fresh(env, key, cron, tz, 0).(enabled := false)], map[],
                        map[0 := Thread(0, MANUAL, [], Idle)], 0, map[])
  {
    var patch := Patch(None, None, Some(false));
    var s1 := System(map[key := Fresh(env, key, cron, tz, 0)], map[], map[], 0, map[]);
    assert Runs(env, s1, [SyncUpsert(key, cron, tz, 0)][1..], s1);
    s := EditRun(env, s1, 0, key, patch, 0);
    RunsConcat(env, INIT, [SyncUpsert(key, cron, tz, 0)], s1, [EditStart(0, 0, key, patch), EditWrite(0, 0)], s);
    acts := [SyncUpsert(key, cron, tz, 0)] + [EditStart(0, 0, key, patch), EditWrite(0, 0)];
  }

  /** A job is paused and then started by hand. */
  lemma PausedRun(env: Env, key: JobId, cron: string, tz: string) returns (acts: seq<Action>, s: System)
    requires env.registered(0, key) && env.next(cron, tz, 0).Some?
    ensures Runs(env, INIT, acts, s) && key in s.jobs
    ensures var paused := Fresh(env, key, cron, tz, 0).(enabled := false);
            s.jobs == map[key := Claimed(paused, 0)] && s.threads.Keys == {0, 1} && 0 in s.runs
            && s.threads[1] == Thread(0, MANUAL, [], Live(Snapshot(key, paused), 0))
  {
    var p, s2 := PausedJob(env, key, cron, tz);
    hide Fresh;
    var snap := Snapshot(key, s2.jobs[key]);
    var s3 := s2.(threads := s2.threads[1 := Thread(0, MANUAL, [], Starting(snap))]);
    assert Runs(env, s3, [RunNow(1, 0, key)][1..], s3);
    assert snap.row.runningRunId.None? && !snap.row.orphaned by { FreshIsFree(env, key, cron, tz, 0); }
    assert Runs(env, s2, [RunNow(1, 0, key)], s3);
    RunsConcat(env, INIT, p, s2, [RunNow(1, 0, key)], s3);
    s := StartRun(env, s3, 1, 0);
    hide Runs;
    RunsConcat(env, INIT, p + [RunNow(1, 0, key)], s3, [Create(1, 0), Claim(1)], s);
    acts := p + [RunNow(1, 0, key)] + [Create(1, 0), Claim(1)];
  }

  lemma FreshIsFree(env: Env, key: JobId, cron: string, tz: string, at: Instant)
    ensures Fresh(env, key, cron, tz, at).runningRunId.None? && !Fresh(env, key, cron, tz, at).orphaned
  {
  }

  /** The job is resumed while that run lasts, its next slot moved to the future; the finish then puts back the slot the
      paused row had, and the job is due at once although its schedule was never changed. */
  lemma FinishUndoesResume(env: Env, key: JobId, cron: string, tz: string, slot: Instant, at: Instant)
    returns (acts: seq<Action>, resumed: System, more: seq<Action>, s: System)
    requires StrictlyLater(env.next) && env.registered(0, key)
    requires env.next(cron, tz, 0) == Some(slot) && slot <= at && env.next(cron, tz, at).Some?
    ensures Runs(env, INIT, acts, resumed) && Runs(env, resumed, more, s) && key in resumed.jobs && key in s.jobs
    ensures resumed.jobs[key].cronExpr == s.jobs[key].cronExpr == cron
    ensures resumed.jobs[key].timezone == s.jobs[key].timezone == tz
    ensures resumed.jobs[key].nextRunAt == env.next(cron, tz, at) && !Due(resumed.jobs[key], at)
    ensures s.jobs[key].nextRunAt == Some(slot) && Due(s.jobs[key], at)
  {
    var p, s0 := PausedRun(env, key, cron, tz);
    var patch := Patch(None, None, Some(true));
    resumed := EditRun(env, s0, 2, key, patch, at);
    RunsConcat(env, INIT, p, s0, [EditStart(2, 0, key, patch), EditWrite(2, at)], resumed);
    acts := p + [EditStart(2, 0, key, patch), EditWrite(2, at)];
    s := FinishRun(env, resumed, 1, Returned, at);
    more := [CloseRun(1, Returned, at), Release(1, at, at)];
  }

  // ---------------------------------------------------------------- what the steps write

  /** The first write of finish, on the run row; the second, on the job row. Neither touches another row. */
  lemma FinishWrites(env: Env, s: System, t: nat, outcome: Outcome, at: Instant, from: Instant)
    requires Possible(s, CloseRun(t, outcome, at)) && s.threads[t].pc.snap.id in s.jobs && at <= from
    ensures var pc, s1 := s.threads[t].pc, Apply(env, s, CloseRun(t, outcome, at));
            && Possible(s1, Release(t, at, from))
            && var s2 := Apply(env, s1, Release(t, at, from));
               && s1.jobs == s.jobs && s2.runs == s1.runs
               && s1.runs == s.runs[pc.run := s1.runs[pc.run]] && s2.jobs == s.jobs[pc.snap.id := s2.jobs[pc.snap.id]]
               && Records(outcome, s2.runs[pc.run], s2.jobs[pc.snap.id], at)
               && s2.runs[pc.run].job == s.runs[pc.run].job && s2.runs[pc.run].trigger == s.runs[pc.run].trigger
               && s2.runs[pc.run].startedAt == s.runs[pc.run].startedAt
               && (outcome.Returned? ==> s2.runs[pc.run].error == s.runs[pc.run].error)
               && Rescheduled(env, s.jobs[pc.snap.id], pc.snap.row, s2.jobs[pc.snap.id], from)
  {
  }

  /** A process crashes while its handler runs: its executions are gone, the others and every row are as they were. So
      the claim and the RUNNING run stay until sync. */
  lemma CrashLeavesClaim(env: Env, key: JobId, cron: string, tz: string) returns (acts: seq<Action>, s: System)
    requires env.registered(0, key)
    ensures Runs(env, INIT, acts, s) && s.threads == map[]
    ensures key in s.jobs && s.jobs[key].runningRunId == Some(0) && 0 in s.runs && s.runs[0].status == RUNNING
    ensures s.fate == map[0 := Stray] && NoHolder(s) && NoOpenThread(s)
  {
    var p, s0 := RaceToRunNow(env, key, cron, tz);
    s := CrashStep(s0, 0);
    assert Runs(env, s, [Crash(0)][1..], s);
    RunsConcat(env, INIT, p, s0, [Crash(0)], s);
    acts := p + [Crash(0)];
  }

  lemma CrashExactly(env: Env, s: System, proc: nat, t: nat)
    ensures Possible(s, Crash(proc))
    ensures var s' := Apply(env, s, Crash(proc));
            && s'.jobs == s.jobs && s'.runs == s.runs && s'.nextRun == s.nextRun
            && (t in s'.threads <==> t in s.threads && s.threads[t].proc != proc)
            && (t in s'.threads ==> s'.threads[t] == s.threads[t])
  {
  }
}
