/**
  The scheduler as a state machine: any number of processes run ticks, manual runs and
  admin edits over the shared rows, with a step at every await, and may crash between
  any two steps. Ticks of one process may overlap: node-cron does not wait for them.
*/
module JobProtocol {
  import opened Wrappers
  import opened JobRows

  datatype Pc =
    | Idle
    | Starting(snap: Snapshot)                               // about to create the run row
    | Created(snap: Snapshot, run: RunId)                    // about to claim the job
    | Lost(snap: Snapshot, run: RunId)                       // claim lost, about to delete the run row
    | Live(snap: Snapshot, run: RunId)                       // handler running
    | Written(snap: Snapshot, run: RunId, outcome: Outcome)  // run row closed, job row still to write
    | Editing(read: Snapshot, patch: Patch)                  // an admin edit between its read and its write

  datatype Thread = Thread(proc: nat, trigger: Trigger, rest: seq<Snapshot>, pc: Pc)

  /** Bookkeeping of the proof: who is responsible for a run row. No step reads it. */
  datatype Fate =
    | Owned(thread: nat)
    | Counted // closed by finish and added to runCount
    | BySync  // closed by sync
    | Gap     // closed, but the process crashed before the job row was written
    | Stray   // left RUNNING by a crash, or by a process that has no handler for the job

  datatype System = System(jobs: map<JobId, Job>, runs: map<RunId, Run>, threads: map<nat, Thread>,
                           nextRun: RunId, fate: map<RunId, Fate>)

  datatype Action =
    | TickStart(t: nat, proc: nat, now: Instant, due: seq<Snapshot>)
    | TickNext(t: nat)
    | RunNow(t: nat, proc: nat, job: JobId)
    | Create(t: nat, at: Instant)
    | Claim(t: nat)
    | Discard(t: nat)
    | CloseRun(t: nat, outcome: Outcome, at: Instant)
    | Release(t: nat, at: Instant, from: Instant)
    | Crash(proc: nat)
    | EditStart(t: nat, proc: nat, job: JobId, patch: Patch)
    | EditWrite(t: nat, at: Instant)
    | SyncUpsert(key: JobId, cron: string, tz: string, at: Instant)
    | SyncOrphan(keys: set<JobId>)
    | SyncCloseRuns(at: Instant)
    | SyncClearClaims

  const INIT := System(map[], map[], map[], 0, map[])

  predicate IsOpen(pc: Pc) { pc.Created? || pc.Lost? || pc.Live? }
  predicate Holds(pc: Pc) { pc.Live? || pc.Written? }
  predicate Owns(pc: Pc) { IsOpen(pc) || pc.Written? }

  /** No execution has an open run row. */
  ghost predicate NoOpenThread(s: System) {
    forall t :: t in s.threads ==> !IsOpen(s.threads[t].pc)
  }

  /** No execution is between its won claim and the write that releases it. */
  ghost predicate NoHolder(s: System) {
    forall t :: t in s.threads ==> !Holds(s.threads[t].pc)
  }

  /** The code lets the step happen. */
  ghost predicate Possible(s: System, a: Action) {
    match a
    case TickStart(t, _, now, due) => t !in s.threads && IsDueList(s.jobs, now, due)
    case TickNext(t) => t in s.threads && s.threads[t].pc.Idle? && s.threads[t].rest != []
    case RunNow(t, _, j) => t !in s.threads && j in s.jobs && !s.jobs[j].orphaned && s.jobs[j].runningRunId.None?
    case Create(t, _) => t in s.threads && s.threads[t].pc.Starting?
    case Claim(t) => t in s.threads && s.threads[t].pc.Created?
    case Discard(t) => t in s.threads && s.threads[t].pc.Lost?
    case CloseRun(t, _, _) => t in s.threads && s.threads[t].pc.Live? && s.threads[t].pc.run in s.runs
    case Release(t, at, from) => t in s.threads && s.threads[t].pc.Written? && s.threads[t].pc.snap.id in s.jobs
        && at <= from
    case Crash(_) => true
    case EditStart(t, _, j, _) => t !in s.threads && j in s.jobs
    case EditWrite(t, _) => t in s.threads && s.threads[t].pc.Editing? && s.threads[t].pc.read.id in s.jobs
    case SyncUpsert(_, _, _, _) => true
    case SyncOrphan(_) => true
    case SyncCloseRuns(_) => true
    case SyncClearClaims => true
  }

  /** Which of sync's two closing statements wait until nothing they close is in use. The code waits for neither. */
  datatype Care = Care(closing: bool, clearing: bool)

  ghost predicate Allowed(c: Care, s: System, a: Action) {
    && Possible(s, a)
    && (c.closing && a.SyncCloseRuns? ==> NoOpenThread(s))
    && (c.clearing && a.SyncClearClaims? ==> NoHolder(s))
  }

  /** Possible, and neither closing statement hits a live execution. */
  ghost predicate Enabled(s: System, a: Action) {
    Allowed(Care(true, true), s, a)
  }

  function Goto(s: System, t: nat, pc: Pc): System
    requires t in s.threads
  {
    s.(threads := s.threads[t := s.threads[t].(pc := pc)])
  }

  function CreateStep(env: Env, s: System, t: nat, at: Instant): System
    requires t in s.threads && s.threads[t].pc.Starting?
  {
    var th, r := s.threads[t], s.nextRun;
    var s1 := s.(runs := s.runs[r := NewRun(th.pc.snap.id, th.trigger, at)], nextRun := r + 1);
    if env.registered(th.proc, th.pc.snap.id)
    then Goto(s1, t, Created(th.pc.snap, r)).(fate := s.fate[r := Owned(t)])
    else Goto(s1, t, Idle).(fate := s.fate[r := Stray])
  }

  function ClaimStep(s: System, t: nat): System
    requires t in s.threads && s.threads[t].pc.Created?
  {
    var pc := s.threads[t].pc;
    var j := pc.snap.id;
    if ClaimWins(s.jobs, j)
    then Goto(s, t, Live(pc.snap, pc.run)).(jobs := s.jobs[j := Claimed(s.jobs[j], pc.run)])
    else Goto(s, t, Lost(pc.snap, pc.run))
  }

  function DiscardStep(s: System, t: nat): System
    requires t in s.threads && s.threads[t].pc.Lost?
  {
    var r := s.threads[t].pc.run;
    Goto(s, t, Idle).(runs := s.runs - {r}, fate := s.fate - {r})
  }

  function CloseRunStep(s: System, t: nat, outcome: Outcome, at: Instant): System
    requires t in s.threads && s.threads[t].pc.Live? && s.threads[t].pc.run in s.runs
  {
    var pc := s.threads[t].pc;
    Goto(s, t, Written(pc.snap, pc.run, outcome)).(runs := s.runs[pc.run := Closed(s.runs[pc.run], outcome, at)])
  }

  function ReleaseStep(env: Env, s: System, t: nat, at: Instant, from: Instant): System
    requires t in s.threads && s.threads[t].pc.Written? && s.threads[t].pc.snap.id in s.jobs
  {
    var pc := s.threads[t].pc;
    var j := pc.snap.id;
    Goto(s, t, Idle).(jobs := s.jobs[j := Released(env, s.jobs[j], pc.snap.row, pc.outcome, at, from)],
                      fate := s.fate[pc.run := Counted])
  }

  function FateAfterCrash(s: System, proc: nat, r: RunId): Fate
    requires r in s.fate
  {
    var f := s.fate[r];
    if f.Owned? && f.thread in s.threads && s.threads[f.thread].proc == proc
    then if s.threads[f.thread].pc.Written? then Gap else Stray
    else f
  }

  function CrashStep(s: System, proc: nat): System {
    s.(threads := map t | t in s.threads && s.threads[t].proc != proc :: s.threads[t],
       fate := map r | r in s.fate :: FateAfterCrash(s, proc, r))
  }

  function EditWriteStep(env: Env, s: System, t: nat, at: Instant): System
    requires t in s.threads && s.threads[t].pc.Editing? && s.threads[t].pc.read.id in s.jobs
  {
    var pc := s.threads[t].pc;
    var j := pc.read.id;
    var edited := Edited(env, s.jobs[j], pc.read.row, pc.patch, at);
    if edited.None? then Goto(s, t, Idle) else Goto(s, t, Idle).(jobs := s.jobs[j := edited.value])
  }

  function CloseRunsStep(s: System, at: Instant): System {
    s.(runs := RunsSynced(s.runs, at),
       fate := map r | r in s.fate :: if r in s.runs && s.runs[r].status.RUNNING? then BySync else s.fate[r])
  }

  function ClearClaimsStep(s: System): System {
    s.(jobs := ClaimsCleared(s.jobs))
  }

  ghost function Apply(env: Env, s: System, a: Action): System
    requires Possible(s, a)
  {
    match a
    case TickStart(t, p, _, due) => s.(threads := s.threads[t := Thread(p, CRON, due, Idle)])
    case TickNext(t) =>
      var th := s.threads[t];
      var next := if th.rest[0].row.runningRunId.Some? then Idle else Starting(th.rest[0]);
      s.(threads := s.threads[t := th.(rest := th.rest[1..], pc := next)])
    case RunNow(t, p, j) => s.(threads := s.threads[t := Thread(p, MANUAL, [], Starting(Snapshot(j, s.jobs[j])))])
    case Create(t, at) => CreateStep(env, s, t, at)
    case Claim(t) => ClaimStep(s, t)
    case Discard(t) => DiscardStep(s, t)
    case CloseRun(t, outcome, at) => CloseRunStep(s, t, outcome, at)
    case Release(t, at, from) => ReleaseStep(env, s, t, at, from)
    case Crash(p) => CrashStep(s, p)
    case EditStart(t, p, j, patch) =>
      s.(threads := s.threads[t := Thread(p, MANUAL, [], Editing(Snapshot(j, s.jobs[j]), patch))])
    case EditWrite(t, at) => EditWriteStep(env, s, t, at)
    case SyncUpsert(key, cron, tz, at) => s.(jobs := Upserted(env, s.jobs, key, cron, tz, at))
    case SyncOrphan(keys) => s.(jobs := Orphaned(s.jobs, keys))
    case SyncCloseRuns(at) => CloseRunsStep(s, at)
    case SyncClearClaims => ClearClaimsStep(s)
  }

  /** The steps `acts`, one after the other, lead from s to s'. */
  ghost predicate Runs(env: Env, s: System, acts: seq<Action>, s': System)
    decreases |acts|
  {
    if acts == [] then s == s' else Enabled(s, acts[0]) && Runs(env, Apply(env, s, acts[0]), acts[1..], s')
  }

  /** The same with sync as careful as `c` says; Care(false, false) takes in everything the code can do. */
  ghost predicate RunsUnder(env: Env, c: Care, s: System, acts: seq<Action>, s': System)
    decreases |acts|
  {
    if acts == [] then s == s'
    else Allowed(c, s, acts[0]) && RunsUnder(env, c, Apply(env, s, acts[0]), acts[1..], s')
  }

  /** Runs is the careful case, and a careful run is a run under any care. */
  lemma {:induction false} RunsAreCareful(env: Env, c: Care, s: System, acts: seq<Action>, s': System)
    ensures Runs(env, s, acts, s') ==> RunsUnder(env, c, s, acts, s')
    ensures RunsUnder(env, Care(true, true), s, acts, s') ==> Runs(env, s, acts, s')
    decreases |acts|
  {
    if acts != [] && Possible(s, acts[0]) { RunsAreCareful(env, c, Apply(env, s, acts[0]), acts[1..], s'); }
  }

  // ---------------------------------------------------------------- who writes what

  /** A run row changes only in its execution's discard and close, and in sync. */
  lemma RunRowStep(env: Env, s: System, a: Action, r: RunId)
    requires Possible(s, a) && r in s.runs && r < s.nextRun
    ensures || (r in Apply(env, s, a).runs && Apply(env, s, a).runs[r] == s.runs[r])
            || ((a.Discard? || a.CloseRun?) && s.threads[a.t].pc.run == r)
            || (a.SyncCloseRuns? && s.runs[r].status.RUNNING?)
  {
    hide Due, IsDueList, Upserted, Edited, Released;
  }

  /** A claim is set in a won claim of a free job, and cleared in a release and in sync. */
  lemma ClaimColumnStep(env: Env, s: System, a: Action, j: JobId)
    requires Possible(s, a) && j in s.jobs
    ensures j in Apply(env, s, a).jobs
    ensures || Apply(env, s, a).jobs[j].runningRunId == s.jobs[j].runningRunId
            || (a.Claim? && s.threads[a.t].pc.snap.id == j && s.jobs[j].runningRunId.None?)
            || (a.Release? && s.threads[a.t].pc.snap.id == j)
            || a.SyncClearClaims?
  {
    hide Due, IsDueList, StatusOf, ErrorOf;
  }

  /** A run leaves the hands of its owner in the owner's discard and release, in a crash, and in sync. */
  lemma OwnedFateStep(env: Env, s: System, a: Action, r: RunId)
    requires Possible(s, a) && s.fate.Keys == s.runs.Keys && r in s.fate && r < s.nextRun && s.fate[r].Owned?
    ensures || (r in Apply(env, s, a).fate && Apply(env, s, a).fate[r] == s.fate[r])
            || ((a.Discard? || a.Release?) && s.threads[a.t].pc.run == r)
            || a.Crash? || (a.SyncCloseRuns? && s.runs[r].status.RUNNING?)
  {
    hide Due, IsDueList, Upserted, Edited, Released;
  }

  // ---------------------------------------------------------------- invariant

  ghost predicate RowOk(s: System, r: RunId)
    requires r in s.runs && r in s.fate
  {
    match s.fate[r]
    case Owned(t) => t in s.threads && Owns(s.threads[t].pc) && s.threads[t].pc.run == r
    case Stray => s.runs[r].status.RUNNING?
    case _ => !s.runs[r].status.RUNNING?
  }

  ghost predicate ThreadOk(s: System, t: nat)
    requires t in s.threads
  {
    var pc := s.threads[t].pc;
    && (forall i :: 0 <= i < |s.threads[t].rest| ==> s.threads[t].rest[i].id in s.jobs)
    && (pc.Starting? ==> pc.snap.id in s.jobs)
    && (pc.Editing? ==> pc.read.id in s.jobs)
    && (Owns(pc) ==>
      && pc.run in s.runs && pc.run in s.fate && s.fate[pc.run] == Owned(t)
      && s.runs[pc.run].job == pc.snap.id && pc.snap.id in s.jobs
      && (Holds(pc) <==> s.jobs[pc.snap.id].runningRunId == Some(pc.run)))
    && (IsOpen(pc) ==> s.runs[pc.run].status.RUNNING?)
    && (pc.Written? ==> s.runs[pc.run].status == StatusOf(pc.outcome))
  }

  ghost predicate ClaimOk(s: System, j: JobId)
    requires j in s.jobs
  {
    s.jobs[j].runningRunId.Some? ==>
      var r := s.jobs[j].runningRunId.value;
      r in s.runs && s.runs[r].job == j && r in s.fate && !s.fate[r].Counted?
  }

  ghost function RunsWith(s: System, j: JobId, f: Fate): set<RunId> {
    set r | r in s.fate && s.fate[r] == f && r in s.runs && s.runs[r].job == j
  }

  ghost predicate CountOk(s: System, j: JobId)
    requires j in s.jobs
  {
    s.jobs[j].runCount == |RunsWith(s, j, Counted)|
  }

  ghost predicate Inv(s: System) {
    && s.fate.Keys == s.runs.Keys
    && (forall r :: r in s.runs ==> r < s.nextRun && s.runs[r].job in s.jobs && RowOk(s, r))
    && (forall t :: t in s.threads ==> ThreadOk(s, t))
    && (forall j :: j in s.jobs ==> ClaimOk(s, j) && CountOk(s, j))
  }

  /** Two states agree on which runs count, so on every counter. */
  lemma CountsCarryOver(s: System, s': System)
    requires forall j :: j in s.jobs ==> CountOk(s, j)
    requires s.jobs.Keys <= s'.jobs.Keys
    requires forall j :: j in s'.jobs ==> if j in s.jobs then s'.jobs[j].runCount == s.jobs[j].runCount
                                          else s'.jobs[j].runCount == 0
                                               && forall r :: r in s.runs ==> s.runs[r].job != j
    requires forall r :: (r in s.fate && s.fate[r].Counted? && r in s.runs) <==>
        (r in s'.fate && s'.fate[r].Counted? && r in s'.runs)
    requires forall r :: r in s.runs && r in s'.runs ==> s.runs[r].job == s'.runs[r].job
    ensures forall j :: j in s'.jobs ==> CountOk(s', j)
  {
    forall j | j in s'.jobs ensures CountOk(s', j) {
      assert RunsWith(s', j, Counted) == RunsWith(s, j, Counted);
      if j !in s.jobs { assert RunsWith(s, j, Counted) == {}; }
    }
  }

  /** Rows, fates, jobs and threads other than (r, j, t) are the same in both states. */
  ghost predicate SameOutside(s: System, s': System, t: nat, r: RunId, j: JobId)
    requires s.fate.Keys == s.runs.Keys
  {
    && s'.threads.Keys == s.threads.Keys && t in s.threads
    && (forall u :: u in s.threads && u != t ==> s'.threads[u] == s.threads[u])
    && s'.fate.Keys == s'.runs.Keys
    && (forall q :: q != r ==> (q in s.runs <==> q in s'.runs))
    && (forall q :: q in s.runs && q != r ==> s'.runs[q] == s.runs[q] && s'.fate[q] == s.fate[q])
    && s'.jobs.Keys == s.jobs.Keys && j in s.jobs
    && (forall k :: k in s.jobs && k != j ==> s'.jobs[k] == s.jobs[k])
    && s.nextRun <= s'.nextRun
  }

  /** A step of thread t that touches its own run row r and its own job row j, and nothing else. */
  ghost predicate Local(s: System, s': System, t: nat, r: RunId, j: JobId)
    requires s.fate.Keys == s.runs.Keys
  {
    && SameOutside(s, s', t, r, j)
    && (if r in s.runs then s.fate[r] == Owned(t) else s.nextRun <= r)
    && (s'.jobs[j].runningRunId != s.jobs[j].runningRunId ==>
          s.jobs[j].runningRunId in {None, Some(r)} && s'.jobs[j].runningRunId in {None, Some(r)})
  }

  lemma OtherThreadOk(s: System, s': System, t: nat, r: RunId, j: JobId, u: nat)
    requires Inv(s) && Local(s, s', t, r, j) && u in s.threads && u != t
    ensures ThreadOk(s', u)
  {
    assert ThreadOk(s, u);
  }

  lemma OtherRowOk(s: System, s': System, t: nat, r: RunId, j: JobId, q: RunId)
    requires Inv(s) && Local(s, s', t, r, j) && q in s'.runs && q != r
    requires Owns(s.threads[t].pc) ==> s.threads[t].pc.run == r
    ensures q < s'.nextRun && s'.runs[q].job in s'.jobs && RowOk(s', q)
  {
    assert q in s.runs && RowOk(s, q);
    assert ThreadOk(s, t);
  }

  lemma OtherClaimOk(s: System, s': System, t: nat, r: RunId, j: JobId, k: JobId)
    requires Inv(s) && Local(s, s', t, r, j) && k in s.jobs && k != j
    requires r in s.runs ==> s.runs[r].job == j
    ensures ClaimOk(s', k)
  {
    assert ClaimOk(s, k);
  }

  lemma LocalStep(s: System, s': System, t: nat, r: RunId, j: JobId)
    requires Inv(s) && LocalOk(s, s', t, r, j)
    requires Owns(s.threads[t].pc) ==> s.threads[t].pc.run == r
    requires r in s.runs ==> s.runs[r].job == j
    requires forall k :: k in s'.jobs ==> CountOk(s', k)
    ensures Inv(s')
  {
    forall u | u in s'.threads ensures ThreadOk(s', u) {
      if u != t { OtherThreadOk(s, s', t, r, j, u); }
    }
    forall q | q in s'.runs ensures q < s'.nextRun && s'.runs[q].job in s'.jobs && RowOk(s', q) {
      if q != r { OtherRowOk(s, s', t, r, j, q); }
    }
    forall k | k in s'.jobs ensures ClaimOk(s', k) {
      if k != j { OtherClaimOk(s, s', t, r, j, k); }
    }
  }

  /** What a local step owes for its own rows. */
  ghost predicate LocalOk(s: System, s': System, t: nat, r: RunId, j: JobId)
    requires s.fate.Keys == s.runs.Keys
  {
    && Local(s, s', t, r, j)
    && (r in s'.runs ==> r < s'.nextRun && s'.runs[r].job in s'.jobs && RowOk(s', r))
    && ThreadOk(s', t) && ClaimOk(s', j)
  }

  lemma CreateLocal(env: Env, s: System, t: nat, at: Instant)
    requires t in s.threads && s.threads[t].pc.Starting? && s.fate.Keys == s.runs.Keys && ThreadOk(s, t)
    requires ClaimOk(s, s.threads[t].pc.snap.id) && s.nextRun !in s.runs
    ensures LocalOk(s, CreateStep(env, s, t, at), t, s.nextRun, s.threads[t].pc.snap.id)
  {
    var s', r, j := CreateStep(env, s, t, at), s.nextRun, s.threads[t].pc.snap.id;
    assert SameOutside(s, s', t, r, j);
    hide SameOutside;
    assert ThreadOk(s', t) && ClaimOk(s', j) && RowOk(s', r);
  }

  lemma ClaimLocal(s: System, t: nat)
    requires t in s.threads && s.threads[t].pc.Created? && s.fate.Keys == s.runs.Keys && ThreadOk(s, t)
    requires ClaimOk(s, s.threads[t].pc.snap.id) && s.threads[t].pc.run < s.nextRun
    ensures LocalOk(s, ClaimStep(s, t), t, s.threads[t].pc.run, s.threads[t].pc.snap.id)
  {
  }

  lemma DiscardLocal(s: System, t: nat)
    requires t in s.threads && s.threads[t].pc.Lost? && s.fate.Keys == s.runs.Keys && ThreadOk(s, t)
    requires ClaimOk(s, s.threads[t].pc.snap.id)
    ensures LocalOk(s, DiscardStep(s, t), t, s.threads[t].pc.run, s.threads[t].pc.snap.id)
  {
  }

  lemma CloseRunLocal(s: System, t: nat, outcome: Outcome, at: Instant)
    requires t in s.threads && s.threads[t].pc.Live? && s.fate.Keys == s.runs.Keys && ThreadOk(s, t)
    requires ClaimOk(s, s.threads[t].pc.snap.id) && s.threads[t].pc.run < s.nextRun
    ensures LocalOk(s, CloseRunStep(s, t, outcome, at), t, s.threads[t].pc.run, s.threads[t].pc.snap.id)
  {
  }

  lemma ReleaseLocal(env: Env, s: System, t: nat, at: Instant, from: Instant)
    requires t in s.threads && s.threads[t].pc.Written? && s.fate.Keys == s.runs.Keys && ThreadOk(s, t)
    requires s.threads[t].pc.run < s.nextRun
    ensures LocalOk(s, ReleaseStep(env, s, t, at, from), t, s.threads[t].pc.run, s.threads[t].pc.snap.id)
  {
  }

  lemma EditWriteLocal(env: Env, s: System, t: nat, at: Instant)
    requires t in s.threads && s.threads[t].pc.Editing? && s.fate.Keys == s.runs.Keys && ThreadOk(s, t)
    requires ClaimOk(s, s.threads[t].pc.read.id) && s.nextRun !in s.runs
    ensures LocalOk(s, EditWriteStep(env, s, t, at), t, s.nextRun, s.threads[t].pc.read.id)
  {
  }

  lemma InvCreate(env: Env, s: System, t: nat, at: Instant)
    requires Inv(s) && t in s.threads && s.threads[t].pc.Starting?
    ensures Inv(CreateStep(env, s, t, at))
  {
    hide RowOk, Local, CountOk;
    CreateLocal(env, s, t, at);
    CountsCarryOver(s, CreateStep(env, s, t, at));
    LocalStep(s, CreateStep(env, s, t, at), t, s.nextRun, s.threads[t].pc.snap.id);
  }

  lemma InvClaim(s: System, t: nat)
    requires Inv(s) && t in s.threads && s.threads[t].pc.Created?
    ensures Inv(ClaimStep(s, t))
  {
    ClaimLocal(s, t);
    CountsCarryOver(s, ClaimStep(s, t));
    LocalStep(s, ClaimStep(s, t), t, s.threads[t].pc.run, s.threads[t].pc.snap.id);
  }

  lemma InvDiscard(s: System, t: nat)
    requires Inv(s) && t in s.threads && s.threads[t].pc.Lost?
    ensures Inv(DiscardStep(s, t))
  {
    DiscardLocal(s, t);
    CountsCarryOver(s, DiscardStep(s, t));
    LocalStep(s, DiscardStep(s, t), t, s.threads[t].pc.run, s.threads[t].pc.snap.id);
  }

  lemma InvCloseRun(s: System, t: nat, outcome: Outcome, at: Instant)
    requires Inv(s) && t in s.threads && s.threads[t].pc.Live? && s.threads[t].pc.run in s.runs
    ensures Inv(CloseRunStep(s, t, outcome, at))
  {
    CloseRunLocal(s, t, outcome, at);
    CountsCarryOver(s, CloseRunStep(s, t, outcome, at));
    LocalStep(s, CloseRunStep(s, t, outcome, at), t, s.threads[t].pc.run, s.threads[t].pc.snap.id);
  }

  /** The one step that counts a run: it adds that run, and only that run, to its job's counter. */
  lemma ReleaseCounts(env: Env, s: System, t: nat, at: Instant, from: Instant)
    requires t in s.threads && s.threads[t].pc.Written? && s.fate.Keys == s.runs.Keys && ThreadOk(s, t)
    requires forall k :: k in s.jobs ==> CountOk(s, k)
    ensures forall k :: k in s.jobs ==> CountOk(ReleaseStep(env, s, t, at, from), k)
  {
    var s', pc := ReleaseStep(env, s, t, at, from), s.threads[t].pc;
    forall k | k in s'.jobs ensures CountOk(s', k) {
      assert CountOk(s, k);
      var added := if k == pc.snap.id then {pc.run} else {};
      assert RunsWith(s', k, Counted) == RunsWith(s, k, Counted) + added;
    }
  }

  lemma InvRelease(env: Env, s: System, t: nat, at: Instant, from: Instant)
    requires Inv(s) && t in s.threads && s.threads[t].pc.Written? && s.threads[t].pc.snap.id in s.jobs
    ensures Inv(ReleaseStep(env, s, t, at, from))
  {
    ReleaseLocal(env, s, t, at, from);
    ReleaseCounts(env, s, t, at, from);
    LocalStep(s, ReleaseStep(env, s, t, at, from), t, s.threads[t].pc.run, s.threads[t].pc.snap.id);
  }

  lemma InvEditWrite(env: Env, s: System, t: nat, at: Instant)
    requires Inv(s) && t in s.threads && s.threads[t].pc.Editing? && s.threads[t].pc.read.id in s.jobs
    ensures Inv(EditWriteStep(env, s, t, at))
  {
    hide RowOk, Local, CountOk;
    EditWriteLocal(env, s, t, at);
    CountsCarryOver(s, EditWriteStep(env, s, t, at));
    LocalStep(s, EditWriteStep(env, s, t, at), t, s.nextRun, s.threads[t].pc.read.id);
  }

  /** A new thread, or an idle one moving on: the rows are untouched. */
  lemma InvThread(s: System, t: nat, th: Thread)
    requires Inv(s) && (t in s.threads ==> s.threads[t].pc.Idle?)
    requires forall i :: 0 <= i < |th.rest| ==> th.rest[i].id in s.jobs
    requires !Owns(th.pc) && (th.pc.Starting? ==> th.pc.snap.id in s.jobs)
        && (th.pc.Editing? ==> th.pc.read.id in s.jobs)
    ensures Inv(s.(threads := s.threads[t := th]))
  {
    var s' := s.(threads := s.threads[t := th]);
    forall r | r in s'.runs ensures RowOk(s', r) { assert RowOk(s, r); }
    forall u | u in s'.threads ensures ThreadOk(s', u) {
      if u != t { assert ThreadOk(s, u); }
    }
    CountsCarryOver(s, s');
    forall k | k in s'.jobs ensures ClaimOk(s', k) { assert ClaimOk(s, k); }
  }

  /** A crash keeps the fate of every run row truthful. */
  lemma CrashRowOk(s: System, proc: nat, r: RunId)
    requires s.fate.Keys == s.runs.Keys && r in s.runs && RowOk(s, r)
    requires s.fate[r].Owned? ==> ThreadOk(s, s.fate[r].thread)
    ensures RowOk(CrashStep(s, proc), r)
  {
  }

  lemma InvCrash(s: System, proc: nat)
    requires Inv(s)
    ensures Inv(CrashStep(s, proc))
  {
    var s' := CrashStep(s, proc);
    forall r | r in s'.runs ensures RowOk(s', r) {
      assert RowOk(s, r);
      CrashRowOk(s, proc, r);
    }
    forall u | u in s'.threads ensures ThreadOk(s', u) { assert ThreadOk(s, u); }
    CountsCarryOver(s, s');
    forall k | k in s'.jobs ensures ClaimOk(s', k) { assert ClaimOk(s, k); }
  }

  /** Job rows may be added, and every column but the claim and the counter may change. */
  lemma InvJobColumns(s: System, jobs: map<JobId, Job>)
    requires Inv(s) && s.jobs.Keys <= jobs.Keys
    requires forall j :: j in s.jobs ==>
          jobs[j].runningRunId == s.jobs[j].runningRunId
          && jobs[j].runCount == s.jobs[j].runCount
    requires forall j :: j in jobs && j !in s.jobs ==> jobs[j].runningRunId.None? && jobs[j].runCount == 0
    ensures Inv(s.(jobs := jobs))
  {
    var s' := s.(jobs := jobs);
    forall r | r in s'.runs ensures RowOk(s', r) { assert RowOk(s, r); }
    forall u | u in s'.threads ensures ThreadOk(s', u) { assert ThreadOk(s, u); }
    CountsCarryOver(s, s');
    forall k | k in s'.jobs ensures ClaimOk(s', k) {
      if k in s.jobs { assert ClaimOk(s, k); }
    }
  }

  /** Closing the RUNNING rows keeps the invariant exactly when no execution has one open. */
  lemma CloseRunsExact(s: System, at: Instant)
    requires Inv(s)
    ensures Inv(CloseRunsStep(s, at)) <==> NoOpenThread(s)
  {
    var s' := CloseRunsStep(s, at);
    if NoOpenThread(s) {
      InvCloseRuns(s, at);
    } else {
      var t :| t in s.threads && IsOpen(s.threads[t].pc);
      assert ThreadOk(s, t) && !ThreadOk(s', t);
    }
  }

  lemma CloseRunsRowOk(s: System, at: Instant, r: RunId)
    requires Inv(s) && NoOpenThread(s) && r in s.runs
    ensures RowOk(CloseRunsStep(s, at), r)
  {
    hide ClaimOk, CountOk;
    assert RowOk(s, r);
    if s.fate[r].Owned? { assert ThreadOk(s, s.fate[r].thread); }
  }

  lemma CloseRunsThreadOk(s: System, at: Instant, u: nat)
    requires s.fate.Keys == s.runs.Keys && NoOpenThread(s) && u in s.threads && ThreadOk(s, u)
    ensures ThreadOk(CloseRunsStep(s, at), u)
  {
    assert !IsOpen(s.threads[u].pc);
  }

  lemma CountedIsClosed(s: System, r: RunId)
    requires s.fate.Keys == s.runs.Keys && r in s.runs && RowOk(s, r) && s.runs[r].status.RUNNING?
    ensures !s.fate[r].Counted?
  {
  }

  lemma CloseRunsClaimOk(s: System, at: Instant, j: JobId)
    requires s.fate.Keys == s.runs.Keys && j in s.jobs && ClaimOk(s, j)
    ensures ClaimOk(CloseRunsStep(s, at), j)
  {
  }

  lemma CloseRunsShape(s: System, at: Instant)
    requires s.fate.Keys == s.runs.Keys
    ensures var s' := CloseRunsStep(s, at);
            && s'.fate.Keys == s'.runs.Keys == s.runs.Keys && s'.jobs == s.jobs && s'.threads == s.threads
            && s'.nextRun == s.nextRun && forall r :: r in s.runs ==> s'.runs[r].job == s.runs[r].job
  {
  }

  lemma CloseRunsRows(s: System, at: Instant)
    requires Inv(s) && NoOpenThread(s)
    ensures var s' := CloseRunsStep(s, at);
            && s'.fate.Keys == s'.runs.Keys
            && forall r :: r in s'.runs ==> r < s'.nextRun && s'.runs[r].job in s'.jobs && RowOk(s', r)
  {
    CloseRunsShape(s, at);
    hide RowOk, ThreadOk, ClaimOk, CountOk, NoOpenThread, CloseRunsStep;
    forall r | r in s.runs ensures RowOk(CloseRunsStep(s, at), r) { CloseRunsRowOk(s, at, r); }
  }

  lemma CloseRunsThreads(s: System, at: Instant)
    requires Inv(s) && NoOpenThread(s)
    ensures var s' := CloseRunsStep(s, at); forall u :: u in s'.threads ==> ThreadOk(s', u)
  {
    CloseRunsShape(s, at);
    hide RowOk, ThreadOk, ClaimOk, CountOk, NoOpenThread, CloseRunsStep;
    forall u | u in s.threads ensures ThreadOk(CloseRunsStep(s, at), u) { CloseRunsThreadOk(s, at, u); }
  }

  lemma CloseRunsJobs(s: System, at: Instant)
    requires Inv(s)
    ensures var s' := CloseRunsStep(s, at); forall j :: j in s'.jobs ==> ClaimOk(s', j) && CountOk(s', j)
  {
    CloseRunsShape(s, at);
    hide RowOk, ThreadOk, ClaimOk, CountOk, CloseRunsStep;
    forall r | r in s.runs && s.runs[r].status.RUNNING? ensures !s.fate[r].Counted? { CountedIsClosed(s, r); }
    CloseRunsCounts(s, at);
    forall j | j in s.jobs ensures ClaimOk(CloseRunsStep(s, at), j) { CloseRunsClaimOk(s, at, j); }
  }

  lemma InvCloseRuns(s: System, at: Instant)
    requires Inv(s) && NoOpenThread(s)
    ensures Inv(CloseRunsStep(s, at))
  {
    CloseRunsRows(s, at);
    CloseRunsThreads(s, at);
    CloseRunsJobs(s, at);
    hide RowOk, ThreadOk, ClaimOk, CountOk, NoOpenThread, CloseRunsStep;
  }

  /** Runs closed by sync are not added to any counter. */
  lemma CloseRunsCounts(s: System, at: Instant)
    requires s.fate.Keys == s.runs.Keys
    requires forall r :: r in s.runs && s.runs[r].status.RUNNING? ==> !s.fate[r].Counted?
    requires forall j :: j in s.jobs ==> CountOk(s, j)
    ensures forall j :: j in s.jobs ==> CountOk(CloseRunsStep(s, at), j)
  {
    CountsCarryOver(s, CloseRunsStep(s, at));
  }

  /** Clearing the claims keeps the invariant exactly when no execution holds one. */
  lemma ClearClaimsExact(s: System)
    requires Inv(s)
    ensures Inv(ClearClaimsStep(s)) <==> NoHolder(s)
  {
    var s' := ClearClaimsStep(s);
    if NoHolder(s) {
      forall r | r in s'.runs ensures RowOk(s', r) { assert RowOk(s, r); }
      forall u | u in s'.threads ensures ThreadOk(s', u) { assert ThreadOk(s, u); }
      CountsCarryOver(s, s');
    } else {
      var t :| t in s.threads && Holds(s.threads[t].pc);
      assert ThreadOk(s, t) && !ThreadOk(s', t);
    }
  }

  lemma InvThreadStep(env: Env, s: System, a: Action)
    requires Inv(s) && Enabled(s, a) && (a.TickStart? || a.TickNext? || a.RunNow? || a.EditStart?)
    ensures Inv(Apply(env, s, a))
  {
    if a.TickNext? { assert ThreadOk(s, a.t); }
    InvThread(s, a.t, Apply(env, s, a).threads[a.t]);
  }

  lemma InvUpsert(env: Env, s: System, key: JobId, cron: string, tz: string, at: Instant)
    requires Inv(s)
    ensures Inv(s.(jobs := Upserted(env, s.jobs, key, cron, tz, at)))
  {
    hide RowOk, ThreadOk, ClaimOk, CountOk;
    InvJobColumns(s, Upserted(env, s.jobs, key, cron, tz, at));
  }

  lemma InvOrphan(s: System, keys: set<JobId>)
    requires Inv(s)
    ensures Inv(s.(jobs := Orphaned(s.jobs, keys)))
  {
    hide RowOk, ThreadOk, ClaimOk, CountOk;
    InvJobColumns(s, Orphaned(s.jobs, keys));
  }

  lemma InvSyncStep(env: Env, s: System, a: Action)
    requires Inv(s) && Enabled(s, a) && (a.SyncUpsert? || a.SyncOrphan? || a.SyncCloseRuns? || a.SyncClearClaims?)
    ensures Inv(Apply(env, s, a))
  {
    hide Inv, Upserted, Orphaned, NoOpenThread, NoHolder, CloseRunsStep, ClearClaimsStep;
    match a {
      case SyncUpsert(key, cron, tz, at) => InvUpsert(env, s, key, cron, tz, at);
      case SyncOrphan(keys) => InvOrphan(s, keys);
      case SyncCloseRuns(at) => CloseRunsExact(s, at);
      case SyncClearClaims => ClearClaimsExact(s);
    }
  }

  lemma InvStep(env: Env, s: System, a: Action)
    requires Inv(s) && Enabled(s, a)
    ensures Inv(Apply(env, s, a))
  {
    match a {
      case Create(t, at) => InvCreate(env, s, t, at);
      case Claim(t) => InvClaim(s, t);
      case Discard(t) => InvDiscard(s, t);
      case CloseRun(t, outcome, at) => InvCloseRun(s, t, outcome, at);
      case Release(t, at, from) => InvRelease(env, s, t, at, from);
      case Crash(p) => InvCrash(s, p);
      case EditWrite(t, at) => InvEditWrite(env, s, t, at);
      case _ =>
        if a.TickStart? || a.TickNext? || a.RunNow? || a.EditStart? {
          InvThreadStep(env, s, a);
        } else {
          InvSyncStep(env, s, a);
        }
    }
  }

  /** Every state of every run of the installation, from an empty database, meets the invariant. */
  lemma {:induction false} InvRuns(env: Env, s: System, acts: seq<Action>, s': System)
    requires Inv(s) && Runs(env, s, acts, s')
    ensures Inv(s')
    decreases |acts|
  {
    if acts != [] {
      InvStep(env, s, acts[0]);
      InvRuns(env, Apply(env, s, acts[0]), acts[1..], s');
    }
  }

  lemma InvInit()
    ensures Inv(INIT)
  {
  }

  lemma {:induction false} RunsConcat(env: Env, s: System, acts: seq<Action>, mid: System, more: seq<Action>,
      s': System)
    requires Runs(env, s, acts, mid) && Runs(env, mid, more, s')
    ensures Runs(env, s, acts + more, s')
    decreases |acts|
  {
    if acts == [] {
      assert acts + more == more;
    } else {
      RunsConcat(env, Apply(env, s, acts[0]), acts[1..], mid, more, s');
      assert (acts + more)[1..] == acts[1..] + more;
    }
  }
}
