/**
  One process of the job console on its own: jobs.service.ts with its rows as fields.
  Every method is tied to a function of the rows; the lemmas after the class say what
  the functions promise, and that a whole execution is a run of the protocol.
*/
module JobsService {
  import opened Wrappers
  import opened JobRows
  import P = JobProtocol
  import T = JobTheorems
  import S = JobSync

  /** The rows, the id generator and the clock. */
  datatype World = World(jobs: map<JobId, Job>, runs: map<RunId, Run>, nextRun: RunId, clock: Instant)

  /** What a handler call does: how it ends and how long it takes. */
  datatype Effect = Effect(outcome: Outcome, took: nat)

  datatype Host = Host(env: Env, proc: nat, handler: (JobId, Instant) -> Effect)

  datatype Registration = Registration(key: JobId, defaultCron: string, timezone: Option<string>)

  datatype Failure = NotFound | Conflict | BadCron

  datatype ClaimResult = NoHandler | Won | LostRace

  const DEFAULT_TZ := "America/Santiago"

  /** execute up to the claim. */
  function Begin(h: Host, w: World, snap: Snapshot, trigger: Trigger): (World, ClaimResult) {
    var r := w.nextRun;
    var created := w.(runs := w.runs[r := NewRun(snap.id, trigger, w.clock)], nextRun := r + 1);
    if !h.env.registered(h.proc, snap.id) then (created, NoHandler)
    else if ClaimWins(w.jobs, snap.id) then (created.(jobs := w.jobs[snap.id := Claimed(w.jobs[snap.id], r)]), Won)
    else (w.(nextRun := r + 1), LostRace)
  }

  /** The handler call and the two writes of finish. */
  function Finish(h: Host, w: World, snap: Snapshot, r: RunId): World
    requires r in w.runs && snap.id in w.jobs
  {
    var e := h.handler(snap.id, w.clock);
    var at := w.clock + e.took;
    World(w.jobs[snap.id := Released(h.env, w.jobs[snap.id], snap.row, e.outcome, at, at)],
          w.runs[r := Closed(w.runs[r], e.outcome, at)], w.nextRun, at)
  }

  function Execute(h: Host, w: World, snap: Snapshot, trigger: Trigger): World {
    var (begun, result) := Begin(h, w, snap, trigger);
    if result.Won? then Finish(h, begun, snap, w.nextRun) else begun
  }

  function TickAll(h: Host, w: World, due: seq<Snapshot>): World
    decreases |due|
  {
    if due == [] then w
    else if due[0].row.runningRunId.Some? then TickAll(h, w, due[1..])
    else TickAll(h, Execute(h, w, due[0], CRON), due[1..])
  }

  function Keys(regs: seq<Registration>): set<JobId> {
    set i | 0 <= i < |regs| :: regs[i].key
  }

  function UpsertAll(env: Env, jobs: map<JobId, Job>, regs: seq<Registration>, at: Instant): map<JobId, Job>
    decreases |regs|
  {
    if regs == [] then jobs
    else
      var last := regs[|regs| - 1];
      Upserted(env, UpsertAll(env, jobs, regs[..|regs| - 1], at), last.key, last.defaultCron,
          last.timezone.GetOr(DEFAULT_TZ), at)
  }

  function SyncedJobs(env: Env, jobs: map<JobId, Job>, regs: seq<Registration>, at: Instant): map<JobId, Job> {
    ClaimsCleared(Orphaned(UpsertAll(env, jobs, regs, at), Keys(regs)))
  }

  ghost predicate IdsBelow(w: World) {
    forall r :: r in w.runs ==> r < w.nextRun
  }

  class JobsService {
    const host: Host
    var jobs: map<JobId, Job>
    var runs: map<RunId, Run>
    var nextRun: RunId
    var clock: Instant

    constructor (host: Host, w: World)
      ensures this.host == host && View() == w
    {
      this.host := host;
      jobs, runs, nextRun, clock := w.jobs, w.runs, w.nextRun, w.clock;
    }

    ghost function View(): World
      reads this
    {
      World(jobs, runs, nextRun, clock)
    }

    /** Run ids are fresh. */
    ghost predicate Valid()
      reads this
    {
      IdsBelow(View())
    }

    method Sync(regs: seq<Registration>)
      modifies this
      ensures View() == old(View()).(jobs := SyncedJobs(host.env, old(jobs), regs, clock),
          runs := RunsSynced(old(runs), clock))
    {
      for i := 0 to |regs|
        invariant View() == old(View()).(jobs := UpsertAll(host.env, old(jobs), regs[..i], clock))
      {
        assert regs[..i + 1][..i] == regs[..i];
        jobs := Upserted(host.env, jobs, regs[i].key, regs[i].defaultCron, regs[i].timezone.GetOr(DEFAULT_TZ), clock);
      }
      assert regs[..|regs|] == regs;
      jobs := Orphaned(jobs, Keys(regs));
      runs := RunsSynced(runs, clock);
      jobs := ClaimsCleared(jobs);
    }

    method Update(key: JobId, patch: Patch) returns (res: Result<Job, Failure>)
      modifies this
      ensures res.Failure? ==> View() == old(View())
      ensures res == Failure(NotFound) <==> key !in old(jobs)
      ensures res.Success? ==>
                key in old(jobs) && Edited(host.env, old(jobs)[key], old(jobs)[key], patch, clock) == Some(res.value)
                && View() == old(View()).(jobs := old(jobs)[key := res.value])
                && Patched(host.env, old(jobs)[key], old(jobs)[key], patch, res.value, clock)
      ensures res == Failure(BadCron) <==> key in old(jobs) && BadSchedule(host.env, old(jobs)[key], patch, clock)
      ensures res == Failure(BadCron) <==>
            key in old(jobs)
            && Edited(host.env, old(jobs)[key], old(jobs)[key], patch, clock).None?
    {
      if key !in jobs {
        return Failure(NotFound);
      }
      var read := jobs[key];
      var edited := Edited(host.env, jobs[key], read, patch, clock);
      if edited.None? {
        return Failure(BadCron);
      }
      jobs := jobs[key := edited.value];
      return Success(edited.value);
    }

    method BeginRun(snap: Snapshot, trigger: Trigger) returns (run: RunId, result: ClaimResult)
      requires Valid()
      modifies this
      ensures run == old(nextRun) && (View(), result) == Begin(host, old(View()), snap, trigger)
      ensures Valid() && clock == old(clock) && nextRun == old(nextRun) + 1
      ensures result.NoHandler? <==> !host.env.registered(host.proc, snap.id)
      ensures result.Won? <==> host.env.registered(host.proc, snap.id) && snap.id in old(jobs)
                               && old(jobs)[snap.id].runningRunId == None
      ensures result.LostRace? ==> runs == old(runs)
      ensures !result.LostRace? ==> runs == old(runs)[run := Run(snap.id, trigger, RUNNING, None, clock, None)]
      ensures !result.Won? ==> jobs == old(jobs)
      ensures result.Won? ==>
                jobs == old(jobs)[snap.id := jobs[snap.id]] && TakenBy(old(jobs)[snap.id], run, jobs[snap.id])
    {
      run := nextRun;
      ghost var before := runs;
      runs := runs[run := NewRun(snap.id, trigger, clock)];
      nextRun := nextRun + 1;
      if !host.env.registered(host.proc, snap.id) {
        return run, NoHandler;
      }
      if !ClaimWins(jobs, snap.id) {
        runs := runs - {run};
        assert runs == before;
        return run, LostRace;
      }
      jobs := jobs[snap.id := Claimed(jobs[snap.id], run)];
      return run, Won;
    }

    method FinishRun(snap: Snapshot, run: RunId)
      requires run in runs && snap.id in jobs
      modifies this
      ensures View() == Finish(host, old(View()), snap, run)
      ensures var e := host.handler(snap.id, old(clock));
              && clock == old(clock) + e.took && Records(e.outcome, runs[run], jobs[snap.id], clock)
              && (e.outcome.Returned? ==> runs[run].error == old(runs)[run].error)
      ensures runs[run].job == old(runs)[run].job && runs[run].trigger == old(runs)[run].trigger
      ensures runs[run].startedAt == old(runs)[run].startedAt && nextRun == old(nextRun)
      ensures Rescheduled(host.env, old(jobs)[snap.id], snap.row, jobs[snap.id], clock)
      ensures StrictlyLater(host.env.next) && snap.row.enabled ==>
                forall now :: now <= clock ==> !Due(jobs[snap.id], now)
      ensures runs.Keys == old(runs).Keys && forall r :: r in runs && r != run ==> runs[r] == old(runs)[r]
      ensures jobs.Keys == old(jobs).Keys && forall j :: j in jobs && j != snap.id ==> jobs[j] == old(jobs)[j]
    {
      var e := host.handler(snap.id, clock);
      clock := clock + e.took;
      runs := runs[run := Closed(runs[run], e.outcome, clock)];
      jobs := jobs[snap.id := Released(host.env, jobs[snap.id], snap.row, e.outcome, clock, clock)];
    }

    /** The due list, as findMany returns it: each due job once, in some order. */
    method FindDue(now: Instant) returns (due: seq<Snapshot>)
      ensures IsDueList(jobs, now, due)
      ensures forall j :: (exists i :: 0 <= i < |due| && due[i].id == j) <==>
                j in jobs && jobs[j].enabled && !jobs[j].orphaned
                && jobs[j].nextRunAt.Some? && jobs[j].nextRunAt.value <= now
    {
      due := [];
      var left := jobs.Keys;
      while left != {}
        invariant left <= jobs.Keys
        invariant forall i :: 0 <= i < |due| ==>
          due[i].id in jobs && due[i].id !in left && due[i].row == jobs[due[i].id] && Due(due[i].row, now)
        invariant forall i, k :: 0 <= i < k < |due| ==> due[i].id != due[k].id
        invariant forall j :: j in jobs && Due(jobs[j], now) ==> j in left || Snapshot(j, jobs[j]) in due
        decreases left
      {
        var j :| j in left;
        left := left - {j};
        if Due(jobs[j], now) {
          due := due + [Snapshot(j, jobs[j])];
        }
      }
    }

    method Tick(now: Instant)
      requires Valid()
      modifies this
      ensures Valid()
      ensures exists due :: IsDueList(old(jobs), now, due) && View() == TickAll(host, old(View()), due)
    {
      var due := FindDue(now);
      ghost var start := View();
      for i := 0 to |due|
        invariant Valid()
        invariant TickAll(host, start, due) == TickAll(host, View(), due[i..])
      {
        ghost var before := View();
        assert due[i..][1..] == due[i + 1..];
        if due[i].row.runningRunId.None? {
          var run, result := BeginRun(due[i], CRON);
          if result.Won? {
            FinishRun(due[i], run);
          }
          assert View() == Execute(host, before, due[i], CRON);
        }
      }
    }

    /** The part of runNow its caller waits for: the handler goes on in the background (FinishRun). */
    method RunNow(key: JobId) returns (res: Result<RunId, Failure>)
      requires Valid()
      modifies this
      ensures Valid()
      ensures res == Failure(NotFound) <==> key !in old(jobs)
      ensures res == Failure(Conflict) <==>
            key in old(jobs)
            && (old(jobs)[key].orphaned || old(jobs)[key].runningRunId.Some?)
      ensures res.Failure? ==> View() == old(View())
      ensures res.Success? ==>
            res.value == old(nextRun)
            && View() == Begin(host, old(View()), Snapshot(key, old(jobs)[key]), MANUAL).0
            && runs == old(runs)[res.value := Run(key, MANUAL, RUNNING, None, clock, None)]
            && clock == old(clock) && jobs.Keys == old(jobs).Keys
            && (if host.env.registered(host.proc, key) then TakenBy(old(jobs)[key], res.value, jobs[key])
                else jobs == old(jobs))
    {
      if key !in jobs {
        return Failure(NotFound);
      }
      if jobs[key].orphaned || jobs[key].runningRunId.Some? {
        return Failure(Conflict);
      }
      var run, result := BeginRun(Snapshot(key, jobs[key]), MANUAL);
      return Success(run);
    }
  }

  // ---------------------------------------------------------------- catch-up

  /** A due list whose snapshots still show the rows as they are. */
  ghost predicate Current(w: World, due: seq<Snapshot>) {
    && (forall i :: 0 <= i < |due| ==> due[i].id in w.jobs && due[i].row == w.jobs[due[i].id])
    && (forall i, k :: 0 <= i < k < |due| ==> due[i].id != due[k].id)
  }

  /** Run rows of job j that w' has and w does not. */
  ghost function NewRuns(w: World, w': World, j: JobId): set<RunId> {
    set r | r in w'.runs && r !in w.runs && w'.runs[r].job == j
  }

  /** Nothing about job j, and no run row that was there, differs between the two. */
  ghost predicate Untouched(w: World, w': World, j: JobId) {
    && j in w.jobs && j in w'.jobs && w'.jobs[j] == w.jobs[j] && NewRuns(w, w', j) == {}
  }

  ghost predicate Extends(w: World, w': World) {
    && IdsBelow(w) && IdsBelow(w') && w.nextRun <= w'.nextRun && w.clock <= w'.clock && w.jobs.Keys == w'.jobs.Keys
    && (forall r :: r in w.runs ==> r in w'.runs && w'.runs[r] == w.runs[r])
    && (forall r :: r in w'.runs && r !in w.runs ==> w.nextRun <= r)
  }

  lemma ExecuteExtends(h: Host, w: World, snap: Snapshot)
    requires IdsBelow(w) && snap.id in w.jobs
    ensures Extends(w, Execute(h, w, snap, CRON))
    ensures forall j :: j in w.jobs && j != snap.id ==> Untouched(w, Execute(h, w, snap, CRON), j)
  {
  }

  /** A tick leaves alone every job that is not in its due list. */
  lemma {:induction false} TickLeavesOthers(h: Host, w: World, due: seq<Snapshot>, j: JobId)
    requires IdsBelow(w) && Current(w, due) && j in w.jobs
    requires forall i :: 0 <= i < |due| ==> due[i].id != j
    ensures Extends(w, TickAll(h, w, due)) && Untouched(w, TickAll(h, w, due), j)
    decreases |due|
  {
    if due != [] {
      var w1 := if due[0].row.runningRunId.Some? then w else Execute(h, w, due[0], CRON);
      if due[0].row.runningRunId.None? { ExecuteExtends(h, w, due[0]); }
      StaysCurrent(h, w, due);
      TickLeavesOthers(h, w1, due[1..], j);
    }
  }

  lemma StaysCurrent(h: Host, w: World, due: seq<Snapshot>)
    requires IdsBelow(w) && Current(w, due) && due != []
    ensures Current(w, due[1..]) && Current(Execute(h, w, due[0], CRON), due[1..])
  {
    ExecuteExtends(h, w, due[0]);
    forall i | 0 <= i < |due[1..]| ensures due[1..][i].row == Execute(h, w, due[0], CRON).jobs[due[1..][i].id] {
      assert Untouched(w, Execute(h, w, due[0], CRON), due[i + 1].id);
    }
  }

  /** The run of j started during the tick, and says with the job's row what the handler did with it. */
  ghost predicate RecordedRun(h: Host, w: World, run: Run, row': Job, j: JobId) {
    var e := h.handler(j, run.startedAt);
    && run.job == j && run.trigger == CRON && w.clock <= run.startedAt
    && Records(e.outcome, run, row', run.startedAt + e.took)
    && (e.outcome.Returned? ==> run.error == None)
  }

  /** What one executed job looks like after the tick: one closed run, counted, released, rescheduled. */
  ghost predicate RanOnce(h: Host, w: World, w': World, j: JobId)
    requires j in w.jobs && j in w'.jobs
  {
    var row, row' := w.jobs[j], w'.jobs[j];
    && (exists r :: NewRuns(w, w', j) == {r} && r in w'.runs && RecordedRun(h, w, w'.runs[r], row', j))
    && row'.runCount == row.runCount + 1 && row'.runningRunId.None?
    && row'.lastRunAt.Some? && w.clock <= row'.lastRunAt.value <= w'.clock
    && row'.nextRunAt == h.env.next(row.cronExpr, row.timezone, row'.lastRunAt.value)
    && (forall now :: now <= row'.lastRunAt.value ==> !Due(row', now))
  }

  lemma ExecuteRunsOnce(h: Host, w: World, snap: Snapshot)
    requires IdsBelow(w) && StrictlyLater(h.env.next) && snap.id in w.jobs && snap.row == w.jobs[snap.id]
    requires snap.row.enabled && snap.row.runningRunId.None? && h.env.registered(h.proc, snap.id)
    ensures RanOnce(h, w, Execute(h, w, snap, CRON), snap.id)
  {
    var w' := Execute(h, w, snap, CRON);
    assert NewRuns(w, w', snap.id) == {w.nextRun};
    var row' := w'.jobs[snap.id];
    assert RecordedRun(h, w, w'.runs[w.nextRun], row', snap.id);
    assert row'.nextRunAt.Some? ==> row'.nextRunAt.value > row'.lastRunAt.value;
  }

  /** One run row is left RUNNING, and nothing else: what an execution without a handler does. */
  ghost predicate LeftStray(w: World, w': World, j: JobId) {
    && j in w.jobs && j in w'.jobs && w'.jobs[j] == w.jobs[j]
    && exists r :: NewRuns(w, w', j) == {r} && r in w'.runs && w'.runs[r].status.RUNNING?
  }

  /** What a tick does with a due job. */
  ghost predicate Handled(h: Host, w: World, w': World, j: JobId)
    requires j in w.jobs && j in w'.jobs
  {
    if w.jobs[j].runningRunId.Some? then Untouched(w, w', j)
    else if h.env.registered(h.proc, j) then RanOnce(h, w, w', j)
    else LeftStray(w, w', j)
  }

  lemma ExecuteHandles(h: Host, w: World, snap: Snapshot)
    requires IdsBelow(w) && StrictlyLater(h.env.next) && snap.id in w.jobs && snap.row == w.jobs[snap.id]
    requires snap.row.enabled && snap.row.runningRunId.None?
    ensures Handled(h, w, Execute(h, w, snap, CRON), snap.id)
  {
    if h.env.registered(h.proc, snap.id) {
      ExecuteRunsOnce(h, w, snap);
    } else {
      assert NewRuns(w, Execute(h, w, snap, CRON), snap.id) == {w.nextRun};
    }
  }

  /** Handling at one moment of the tick is handling in the tick: before and after, the job is left alone. */
  lemma HandledBetween(h: Host, w: World, w1: World, w2: World, w3: World, j: JobId)
    requires Extends(w, w1) && Extends(w1, w2) && Extends(w2, w3)
    requires Untouched(w, w1, j) && j in w2.jobs && Handled(h, w1, w2, j) && Untouched(w2, w3, j)
    ensures Handled(h, w, w3, j)
  {
    assert NewRuns(w, w3, j) == NewRuns(w1, w2, j);
  }

  lemma UntouchedItself(w: World, j: JobId)
    requires IdsBelow(w) && j in w.jobs
    ensures Untouched(w, w, j) && Extends(w, w)
  {
  }

  /** Catch-up: however many slots were missed, a tick handles each due job once. */
  lemma {:induction false} TickHandlesEach(h: Host, w: World, due: seq<Snapshot>, k: nat)
    requires IdsBelow(w) && StrictlyLater(h.env.next) && Current(w, due) && k < |due| && due[k].row.enabled
    ensures due[k].id in TickAll(h, w, due).jobs && Handled(h, w, TickAll(h, w, due), due[k].id)
    ensures Extends(w, TickAll(h, w, due))
    decreases |due|
  {
    var j, w' := due[k].id, TickAll(h, w, due);
    var w1 := if due[0].row.runningRunId.Some? then w else Execute(h, w, due[0], CRON);
    StaysCurrent(h, w, due);
    UntouchedItself(w, j);
    if due[0].row.runningRunId.None? { ExecuteExtends(h, w, due[0]); }
    hide Execute, Handled, Current;
    if k == 0 {
      if due[0].row.runningRunId.None? { ExecuteHandles(h, w, due[0]); } else { ClaimedIsHandled(h, w, j); }
      TickLeavesOthers(h, w1, due[1..], j);
      HandledBetween(h, w, w, w1, w', j);
    } else {
      TickHandlesEach(h, w1, due[1..], k - 1);
      UntouchedItself(w', j);
      HandledBetween(h, w, w1, w', w', j);
    }
  }

  lemma ClaimedIsHandled(h: Host, w: World, j: JobId)
    requires IdsBelow(w) && j in w.jobs && w.jobs[j].runningRunId.Some?
    ensures Handled(h, w, w, j)
  {
  }

  /** The tick as a whole, on whatever due list the database returned: a due job runs once, or leaves one stray run for
      want of a handler, or waits because it is claimed; a job that is not due is left alone. */
  lemma TickCatchesUp(h: Host, w: World, now: Instant, due: seq<Snapshot>, j: JobId)
    requires IdsBelow(w) && StrictlyLater(h.env.next) && IsDueList(w.jobs, now, due) && j in w.jobs
    ensures var w' := TickAll(h, w, due);
            j in w'.jobs && if Due(w.jobs[j], now) then Handled(h, w, w', j) else Untouched(w, w', j)
  {
    if !Due(w.jobs[j], now) {
      TickLeavesOthers(h, w, due, j);
    } else {
      var k :| 0 <= k < |due| && due[k] == Snapshot(j, w.jobs[j]);
      TickHandlesEach(h, w, due, k);
    }
  }

  // ---------------------------------------------------------------- sync

  lemma {:induction false} UpsertAllKeeps(env: Env, jobs: map<JobId, Job>, regs: seq<Registration>, at: Instant,
      j: JobId)
    ensures j in UpsertAll(env, jobs, regs, at) <==> j in jobs || j in Keys(regs)
    ensures j in jobs ==>
              UpsertAll(env, jobs, regs, at)[j] == (if j in Keys(regs) then jobs[j].(orphaned := false) else jobs[j])
    ensures j !in jobs && j in Keys(regs) ==>
              UpsertAll(env, jobs, regs, at)[j].runningRunId.None? && !UpsertAll(env, jobs, regs, at)[j].orphaned
    decreases |regs|
  {
    if regs != [] {
      var front, last := regs[..|regs| - 1], regs[|regs| - 1];
      UpsertAllKeeps(env, jobs, front, at, j);
      assert regs == front + [last];
      assert Keys(regs) == Keys(front) + {last.key} by {
        forall x | x in Keys(regs) ensures x in Keys(front) + {last.key} {
          var i :| 0 <= i < |regs| && regs[i].key == x;
          if i < |front| { assert front[i].key == x; }
        }
        forall x | x in Keys(front) ensures x in Keys(regs) {
          var i :| 0 <= i < |front| && front[i].key == x;
          assert regs[i].key == x;
        }
        assert regs[|regs| - 1].key == last.key;
      }
    }
  }

  /** The first registration of a key. */
  ghost predicate IsFirst(regs: seq<Registration>, i: nat, key: JobId) {
    i < |regs| && regs[i].key == key && forall k :: 0 <= k < i ==> regs[k].key != key
  }

  lemma {:induction false} NewJobRow(env: Env, jobs: map<JobId, Job>, regs: seq<Registration>, at: Instant, i: nat)
    requires i < |regs| && regs[i].key !in jobs && IsFirst(regs, i, regs[i].key)
    ensures var j := regs[i].key;
            var tz := if regs[i].timezone.Some? then regs[i].timezone.value else "America/Santiago";
            && j in UpsertAll(env, jobs, regs, at)
            && UpsertAll(env, jobs, regs, at)[j] ==
               Job(regs[i].defaultCron, tz, true, false, None, None, None, None,
                   env.next(regs[i].defaultCron, tz, at), 0)
    decreases |regs|
  {
    var front, last, j := regs[..|regs| - 1], regs[|regs| - 1], regs[i].key;
    UpsertAllKeeps(env, jobs, front, at, j);
    if i < |front| {
      assert front[i] == regs[i] && IsFirst(front, i, j);
      NewJobRow(env, jobs, front, at, i);
    } else {
      forall x | x in Keys(front) ensures x != j {
        var k :| 0 <= k < |front| && front[k].key == x;
        assert regs[k].key == x;
      }
    }
  }

  /** What sync writes: RUNNING runs are closed as ERROR with the restart message at its time, claimed jobs show ERROR,
      and a job registered for the first time starts with its default schedule, enabled and free. */
  lemma SyncWrites(env: Env, jobs: map<JobId, Job>, runs: map<RunId, Run>, regs: seq<Registration>, at: Instant,
                   j: JobId, i: nat)
    ensures forall r :: r in runs && runs[r].status == RUNNING ==>
              r in RunsSynced(runs, at) &&
              RunsSynced(runs, at)[r] == Run(runs[r].job, runs[r].trigger, ERROR,
                                             Some("proceso reiniciado durante la corrida"), runs[r].startedAt, Some(at))
    ensures RunsSynced(runs, at).Keys == runs.Keys
    ensures var after := SyncedJobs(env, jobs, regs, at);
            && (j in jobs ==>
                  && j in after && after[j].lastRunAt == jobs[j].lastRunAt && after[j].lastError == jobs[j].lastError
                  && after[j].lastStatus == (if jobs[j].runningRunId.Some? then Some(ERROR) else jobs[j].lastStatus))
            && (j !in jobs && IsFirst(regs, i, j) ==>
                  var tz := if regs[i].timezone.Some? then regs[i].timezone.value else "America/Santiago";
                  j in after &&
                  after[j] == Job(regs[i].defaultCron, tz, true, false, None, None, None, None,
                                  env.next(regs[i].defaultCron, tz, at), 0))
  {
    UpsertAllKeeps(env, jobs, regs, at, j);
    if j !in jobs && IsFirst(regs, i, j) { NewJobRow(env, jobs, regs, at, i); }
  }

  /** A tick whose due jobs are all claimed does nothing: it creates no run, not even to delete it again. */
  lemma {:induction false} TickSkipsClaimed(h: Host, w: World, due: seq<Snapshot>)
    requires forall i :: 0 <= i < |due| ==> due[i].row.runningRunId.Some?
    ensures TickAll(h, w, due) == w
    decreases |due|
  {
    if due != [] { TickSkipsClaimed(h, w, due[1..]); }
  }

  /** After sync no run is RUNNING and no job is claimed; orphaned says exactly which jobs have no handler;
      what the admin edited, the next slot and the counter are kept; so every due job can be claimed again. */
  lemma SyncRecovers(env: Env, jobs: map<JobId, Job>, runs: map<RunId, Run>, regs: seq<Registration>, at: Instant,
      j: JobId)
    ensures var after := SyncedJobs(env, jobs, regs, at);
            && (j in after <==> j in jobs || j in Keys(regs))
            && (j in after ==> ClaimWins(after, j) && (after[j].orphaned <==> j !in Keys(regs)))
            && (j in jobs ==> after[j].cronExpr == jobs[j].cronExpr && after[j].timezone == jobs[j].timezone
                              && after[j].enabled == jobs[j].enabled && after[j].nextRunAt == jobs[j].nextRunAt
                              && after[j].runCount == jobs[j].runCount)
    ensures forall r :: r in RunsSynced(runs, at) ==> !RunsSynced(runs, at)[r].status.RUNNING?
    ensures forall r :: r in runs && !runs[r].status.RUNNING? ==>
          r in RunsSynced(runs, at)
          && RunsSynced(runs, at)[r] == runs[r]
  {
    UpsertAllKeeps(env, jobs, regs, at, j);
  }

  // ---------------------------------------------------------------- the service follows the protocol

  function WorldOf(s: P.System, clock: Instant): World {
    World(s.jobs, s.runs, s.nextRun, clock)
  }

  /** An execution of the service, by a tick or by hand, is a run of the protocol: same rows, step by step. */
  lemma ExecuteFollowsProtocol(h: Host, s: P.System, t: nat, clock: Instant) returns (acts: seq<P.Action>, s': P.System)
    requires t in s.threads && s.threads[t].pc.Starting? && s.threads[t].proc == h.proc && s.nextRun !in s.runs
    ensures P.Runs(h.env, s, acts, s')
    ensures var w' := Execute(h, WorldOf(s, clock), s.threads[t].pc.snap, s.threads[t].trigger);
        WorldOf(s', w'.clock) == w'
    ensures s'.threads == s.threads[t := s.threads[t].(pc := P.Idle)]
    ensures var e := h.handler(s.threads[t].pc.snap.id, clock);
            && ((exists a :: a in acts && a.CloseRun?) <==>
                h.env.registered(h.proc, s.threads[t].pc.snap.id) && ClaimWins(s.jobs, s.threads[t].pc.snap.id))
            && forall a :: a in acts && a.CloseRun? ==> a == P.CloseRun(t, e.outcome, clock + e.took)
  {
    hide P.Runs, P.Goto, Released, Closed, Claimed;
    var snap := s.threads[t].pc.snap;
    if !h.env.registered(h.proc, snap.id) {
      acts := [P.Create(t, clock)];
      s' := T.StrayRun(h.env, s, t, clock);
    } else if ClaimWins(s.jobs, snap.id) {
      var e := h.handler(snap.id, clock);
      var end := clock + e.took;
      acts := [P.Create(t, clock), P.Claim(t), P.CloseRun(t, e.outcome, end), P.Release(t, end, end)];
      assert acts[2] in acts;
      s' := T.WinRun(h.env, s, t, clock, e.outcome, end);
    } else {
      acts := [P.Create(t, clock), P.Claim(t), P.Discard(t)];
      s' := T.LoseRun(h.env, s, t, clock);
    }
  }

  /** A manual request that is let through: its read, and the execution in the background. */
  lemma RunNowFollowsProtocol(h: Host, s: P.System, t: nat, j: JobId, clock: Instant)
      returns (acts: seq<P.Action>, s': P.System)
    requires t !in s.threads && j in s.jobs && !s.jobs[j].orphaned && s.jobs[j].runningRunId.None?
        && s.nextRun !in s.runs
    ensures P.Runs(h.env, s, acts, s')
    ensures var w' := Execute(h, WorldOf(s, clock), Snapshot(j, s.jobs[j]), MANUAL); WorldOf(s', w'.clock) == w'
  {
    var first := P.RunNow(t, h.proc, j);
    var s1 := P.Apply(h.env, s, first);
    var rest;
    rest, s' := ExecuteFollowsProtocol(h, s1, t, clock);
    assert P.Runs(h.env, s1, [first][1..], s1);
    P.RunsConcat(h.env, s, [first], s1, rest, s');
    acts := [first] + rest;
  }

  /** An admin edit that nothing interrupts is the protocol's read and write. */
  lemma UpdateFollowsProtocol(env: Env, s: P.System, t: nat, proc: nat, key: JobId, patch: Patch, at: Instant)
    returns (acts: seq<P.Action>, s': P.System)
    requires t !in s.threads && key in s.jobs
    ensures P.Runs(env, s, acts, s') && s'.runs == s.runs
    ensures var row := Edited(env, s.jobs[key], s.jobs[key], patch, at);
            s'.jobs == if row.None? then s.jobs else s.jobs[key := row.value]
  {
    var a, b := P.EditStart(t, proc, key, patch), P.EditWrite(t, at);
    var s1 := P.Apply(env, s, a);
    s' := P.Apply(env, s1, b);
    T.RunsOfTwo(env, s, a, s1, b, s');
    acts := [a, b];
  }

  lemma UnderOne(env: Env, c: P.Care, s: P.System, a: P.Action)
    requires P.Allowed(c, s, a)
    ensures P.RunsUnder(env, c, s, [a], P.Apply(env, s, a))
  {
    assert P.RunsUnder(env, c, P.Apply(env, s, a), [a][1..], P.Apply(env, s, a));
  }

  lemma {:induction false} UpsertsFollowProtocol(env: Env, s: P.System, regs: seq<Registration>, at: Instant)
    returns (acts: seq<P.Action>)
    ensures P.RunsUnder(env, ANY_TIME, s, acts, s.(jobs := UpsertAll(env, s.jobs, regs, at)))
    decreases |regs|
  {
    if regs == [] { return []; }
    var front, last := regs[..|regs| - 1], regs[|regs| - 1];
    var before := UpsertsFollowProtocol(env, s, front, at);
    var mid := s.(jobs := UpsertAll(env, s.jobs, front, at));
    var a := P.SyncUpsert(last.key, last.defaultCron, last.timezone.GetOr(DEFAULT_TZ), at);
    UnderOne(env, ANY_TIME, mid, a);
    S.UnderConcat(env, ANY_TIME, s, before, mid, [a], P.Apply(env, mid, a));
    return before + [a];
  }

  /** Sync as the code has it, waiting for nothing. */
  const ANY_TIME := P.Care(false, false)

  /** Sync is a run of its statements in the protocol, whatever executions it meets. */
  lemma SyncFollowsProtocol(env: Env, s: P.System, regs: seq<Registration>, at: Instant)
    returns (acts: seq<P.Action>, s': P.System)
    ensures P.RunsUnder(env, ANY_TIME, s, acts, s')
    ensures s'.jobs == SyncedJobs(env, s.jobs, regs, at) && s'.runs == RunsSynced(s.runs, at) && s'.threads == s.threads
  {
    var upserts := UpsertsFollowProtocol(env, s, regs, at);
    var s1 := s.(jobs := UpsertAll(env, s.jobs, regs, at));
    var s2 := s1.(jobs := Orphaned(s1.jobs, Keys(regs)));
    var s3 := P.CloseRunsStep(s2, at);
    s' := P.ClearClaimsStep(s3);
    assert s2 == P.Apply(env, s1, P.SyncOrphan(Keys(regs))) && s3 == P.Apply(env, s2, P.SyncCloseRuns(at));
    assert s' == P.Apply(env, s3, P.SyncClearClaims);
    hide P.Apply, P.RunsUnder, UpsertAll, Orphaned, RunsSynced, ClaimsCleared;
    acts := Then(env, s, upserts, s1, P.SyncOrphan(Keys(regs)));
    acts := Then(env, s, acts, s2, P.SyncCloseRuns(at));
    acts := Then(env, s, acts, s3, P.SyncClearClaims);
  }

  lemma Then(env: Env, s: P.System, acts: seq<P.Action>, mid: P.System, a: P.Action) returns (more: seq<P.Action>)
    requires P.RunsUnder(env, ANY_TIME, s, acts, mid) && P.Allowed(ANY_TIME, mid, a)
    ensures P.RunsUnder(env, ANY_TIME, s, more, P.Apply(env, mid, a))
  {
    UnderOne(env, ANY_TIME, mid, a);
    S.UnderConcat(env, ANY_TIME, s, acts, mid, [a], P.Apply(env, mid, a));
    more := acts + [a];
  }

  /** So is a whole tick: what the protocol proves of every run holds of the service's ticks. */
  lemma {:induction false} TickFollowsProtocol(h: Host, s: P.System, t: nat, clock: Instant)
      returns (acts: seq<P.Action>, s': P.System)
    requires P.Inv(s) && t in s.threads && s.threads[t].pc.Idle? && s.threads[t].proc == h.proc
        && s.threads[t].trigger == CRON
    ensures P.Runs(h.env, s, acts, s')
    ensures var w' := TickAll(h, WorldOf(s, clock), s.threads[t].rest); WorldOf(s', w'.clock) == w'
    decreases |s.threads[t].rest|
  {
    var due := s.threads[t].rest;
    if due == [] {
      return [], s;
    }
    var s1 := P.Apply(h.env, s, P.TickNext(t));
    P.InvStep(h.env, s, P.TickNext(t));
    var first := [P.TickNext(t)];
    assert P.Runs(h.env, s1, first[1..], s1);
    if due[0].row.runningRunId.Some? {
      var more, last := TickFollowsProtocol(h, s1, t, clock);
      P.RunsConcat(h.env, s, first, s1, more, last);
      return first + more, last;
    } else {
      var exec, s2 := ExecuteFollowsProtocol(h, s1, t, clock);
      P.RunsConcat(h.env, s, first, s1, exec, s2);
      P.InvRuns(h.env, s1, exec, s2);
      var more, last := TickFollowsProtocol(h, s2, t, Execute(h, WorldOf(s, clock), due[0], CRON).clock);
      P.RunsConcat(h.env, s, first + exec, s2, more, last);
      return first + exec + more, last;
    }
  }
}
