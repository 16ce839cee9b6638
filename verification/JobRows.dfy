/**
  The ScheduledJob and JobRun rows and the row updates of jobs.service.ts, each as one
  atomic database statement. The protocol and the service class share them.
*/
module JobRows {
  import opened Wrappers

  type JobId = string
  type RunId = nat // a cuid: fresh on every create, never reused
  type Instant = int

  datatype Status = RUNNING | OK | ERROR
  datatype Trigger = CRON | MANUAL
  datatype Outcome = Returned | Threw(message: string)

  datatype Run = Run(job: JobId, trigger: Trigger, status: Status, error: Option<string>,
                     startedAt: Instant, finishedAt: Option<Instant>)

  datatype Job = Job(cronExpr: string, timezone: string, enabled: bool, orphaned: bool,
                     runningRunId: Option<RunId>, lastRunAt: Option<Instant>, lastStatus: Option<Status>,
                     lastError: Option<string>, nextRunAt: Option<Instant>, runCount: nat)

  /** A job row as some caller read it; the row may have changed since. */
  datatype Snapshot = Snapshot(id: JobId, row: Job)

  /** What the admin console sends to `update`. */
  datatype Patch = Patch(cronExpr: Option<string>, timezone: Option<string>, enabled: Option<bool>)

  /** `next` is nextRunAt (None: invalid cron); `registered(p, j)`: process p has a handler for j. */
  datatype Env = Env(next: (string, string, Instant) -> Option<Instant>, registered: (nat, JobId) -> bool)

  /** All that is assumed of cron-parser: the next slot is strictly later. */
  ghost predicate StrictlyLater(next: (string, string, Instant) -> Option<Instant>) {
    forall c, z, t :: next(c, z, t).Some? ==> next(c, z, t).value > t
  }

  predicate Due(row: Job, now: Instant) {
    row.enabled && !row.orphaned && row.nextRunAt.Some? && row.nextRunAt.value <= now
  }

  /** `due` is the tick's findMany: every due job once, in any order. */
  ghost predicate IsDueList(jobs: map<JobId, Job>, now: Instant, due: seq<Snapshot>) {
    && (forall i :: 0 <= i < |due| ==> due[i].id in jobs && due[i].row == jobs[due[i].id] && Due(due[i].row, now))
    && (forall i, k :: 0 <= i < k < |due| ==> due[i].id != due[k].id)
    && (forall j :: j in jobs && Due(jobs[j], now) ==> Snapshot(j, jobs[j]) in due)
  }

  function NewRun(job: JobId, trigger: Trigger, at: Instant): Run {
    Run(job, trigger, RUNNING, None, at, None)
  }

  /** The guard of the conditional update that serves as mutex. */
  predicate ClaimWins(jobs: map<JobId, Job>, job: JobId) {
    job in jobs && jobs[job].runningRunId.None?
  }

  function Claimed(row: Job, run: RunId): Job {
    row.(runningRunId := Some(run), lastStatus := Some(RUNNING))
  }

  function StatusOf(outcome: Outcome): Status {
    if outcome.Returned? then OK else ERROR
  }

  function ErrorOf(outcome: Outcome): Option<string> {
    if outcome.Returned? then None else Some(outcome.message)
  }

  /** First write of `finish`: the run row (an OK run keeps its error column as it was). */
  function Closed(run: Run, outcome: Outcome, at: Instant): Run {
    match outcome
    case Returned => run.(status := OK, finishedAt := Some(at))
    case Threw(m) => run.(status := ERROR, error := Some(m), finishedAt := Some(at))
  }

  /** Second write of `finish`: the job row, with the schedule of the snapshot it started from. */
  function Released(env: Env, row: Job, snap: Job, outcome: Outcome, at: Instant, from: Instant): Job {
    row.(runningRunId := None, lastRunAt := Some(at), lastStatus := Some(StatusOf(outcome)),
         lastError := ErrorOf(outcome), runCount := row.runCount + 1,
         nextRunAt := if snap.enabled then env.next(snap.cronExpr, snap.timezone, from) else snap.nextRunAt)
  }

  /** The write of `update`: None when the edited cron is invalid. Every column not patched comes from `read`. */
  function Edited(env: Env, row: Job, read: Job, patch: Patch, at: Instant): Option<Job> {
    var cron, tz := patch.cronExpr.GetOr(read.cronExpr), patch.timezone.GetOr(read.timezone);
    var next := env.next(cron, tz, at);
    var recompute := patch.cronExpr.Some? || patch.timezone.Some? || patch.enabled == Some(true);
    if next.None? then None
    else Some(row.(cronExpr := cron, timezone := tz, enabled := patch.enabled.GetOr(read.enabled),
                   nextRunAt := if recompute then next else read.nextRunAt))
  }

  /** One iteration of sync's first loop. */
  function Upserted(env: Env, jobs: map<JobId, Job>, key: JobId, cron: string, tz: string, at: Instant)
    : map<JobId, Job>
  {
    if key in jobs then jobs[key := jobs[key].(orphaned := false)]
    else jobs[key := Job(cron, tz, true, false, None, None, None, None, env.next(cron, tz, at), 0)]
  }

  function Orphaned(jobs: map<JobId, Job>, keys: set<JobId>): map<JobId, Job> {
    map j | j in jobs :: if j in keys then jobs[j] else jobs[j].(orphaned := true)
  }

  const RESTARTED := "proceso reiniciado durante la corrida"

  function RunsSynced(runs: map<RunId, Run>, at: Instant): map<RunId, Run> {
    map r | r in runs :: if runs[r].status.RUNNING? then Closed(runs[r], Threw(RESTARTED), at) else runs[r]
  }

  function ClaimsCleared(jobs: map<JobId, Job>): map<JobId, Job> {
    map j | j in jobs ::
      if jobs[j].runningRunId.Some? then jobs[j].(runningRunId := None, lastStatus := Some(ERROR)) else jobs[j]
  }

  // ---------------------------------------------------------------- what the rows record

  /** A run that ended at `at` and its job's row say how it ended. */
  ghost predicate Records(outcome: Outcome, run: Run, row: Job, at: Instant) {
    && run.finishedAt == Some(at) && row.lastRunAt == Some(at)
    && match outcome
       case Returned => run.status == OK && row.lastStatus == Some(OK) && row.lastError == None
       case Threw(m) =>
         && run.status == ERROR && run.error == Some(m)
         && row.lastStatus == Some(ERROR) && row.lastError == Some(m)
  }

  /** The rest of the job's row: the claim is gone, the run counted, and the next slot is that of the schedule the run
      started from, or of the paused row. */
  ghost predicate Rescheduled(env: Env, row: Job, snap: Job, row': Job, from: Instant) {
    && row'.runningRunId == None && row'.runCount == row.runCount + 1
    && row'.nextRunAt == (if snap.enabled then env.next(snap.cronExpr, snap.timezone, from) else snap.nextRunAt)
    && row'.cronExpr == row.cronExpr && row'.timezone == row.timezone
    && row'.enabled == row.enabled && row'.orphaned == row.orphaned
  }

  /** The edited row: patched columns hold the patch, the others what was read; a patched schedule, or switching the job
      on, takes the next slot of the new row's own schedule; nothing else changes. */
  ghost predicate Patched(env: Env, row: Job, read: Job, patch: Patch, row': Job, at: Instant) {
    && row'.cronExpr == (if patch.cronExpr.Some? then patch.cronExpr.value else read.cronExpr)
    && row'.timezone == (if patch.timezone.Some? then patch.timezone.value else read.timezone)
    && row'.enabled == (if patch.enabled.Some? then patch.enabled.value else read.enabled)
    && (if patch.cronExpr.Some? || patch.timezone.Some? || patch.enabled == Some(true)
        then row'.nextRunAt.Some? && row'.nextRunAt == env.next(row'.cronExpr, row'.timezone, at)
        else row'.nextRunAt == read.nextRunAt)
    && row'.runningRunId == row.runningRunId && row'.runCount == row.runCount && row'.orphaned == row.orphaned
    && row'.lastRunAt == row.lastRunAt && row'.lastStatus == row.lastStatus && row'.lastError == row.lastError
  }

  /** The slot that an edit must have to be valid. */
  ghost predicate BadSchedule(env: Env, read: Job, patch: Patch, at: Instant) {
    env.next(if patch.cronExpr.Some? then patch.cronExpr.value else read.cronExpr,
             if patch.timezone.Some? then patch.timezone.value else read.timezone, at).None?
  }

  /** A row that has just been claimed by `run`. */
  ghost predicate TakenBy(row: Job, run: RunId, row': Job) {
    && row'.runningRunId == Some(run) && row'.lastStatus == Some(RUNNING)
    && row'.cronExpr == row.cronExpr && row'.timezone == row.timezone && row'.enabled == row.enabled
    && row'.orphaned == row.orphaned && row'.nextRunAt == row.nextRunAt && row'.runCount == row.runCount
    && row'.lastRunAt == row.lastRunAt && row'.lastError == row.lastError
  }
}
