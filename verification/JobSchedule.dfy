/**
  When a slot runs once, and when the next slot follows the stored schedule. Everything here
  holds of every run the code can make, with sync at any time and any crashes.
*/
module JobSchedule {
  import opened Wrappers
  import opened JobRows
  import opened JobProtocol

  ghost predicate Releases(s: System, a: Action, j: JobId) {
    a.Release? && a.t in s.threads && s.threads[a.t].pc.Written? && s.threads[a.t].pc.snap.id == j
  }

  ghost predicate Edits(s: System, a: Action, j: JobId) {
    a.EditWrite? && a.t in s.threads && s.threads[a.t].pc.Editing? && s.threads[a.t].pc.read.id == j
  }

  /** The row that the last execution of j to finish in the run had started from. */
  ghost function LastFinish(env: Env, s: System, acts: seq<Action>, j: JobId): Option<Job>
    decreases |acts|
  {
    if acts == [] || !Possible(s, acts[0]) then None
    else
      var later := LastFinish(env, Apply(env, s, acts[0]), acts[1..], j);
      if later.Some? then later
      else if Releases(s, acts[0], j) then Some(s.threads[acts[0].t].pc.snap.row)
      else None
  }

  /** Some admin edit of j is written in the run. */
  ghost predicate EditedIn(env: Env, s: System, acts: seq<Action>, j: JobId)
    decreases |acts|
  {
    acts != [] && Possible(s, acts[0]) && (Edits(s, acts[0], j) || EditedIn(env, Apply(env, s, acts[0]), acts[1..], j))
  }

  /** The executions of j that finish in the run reschedule no earlier than `now`. */
  ghost predicate NotBefore(env: Env, s: System, acts: seq<Action>, j: JobId, now: Instant)
    decreases |acts|
  {
    acts != [] && Possible(s, acts[0]) ==>
      && (Releases(s, acts[0], j) ==> now <= acts[0].from)
      && NotBefore(env, Apply(env, s, acts[0]), acts[1..], j, now)
  }

  predicate SameSchedule(row: Job, read: Job) {
    row.cronExpr == read.cronExpr && row.timezone == read.timezone
  }

  // ---------------------------------------------------------------- one step

  /** The next slot changes only in a finish or an edit of the job; the schedule only in an edit. */
  lemma SlotStep(env: Env, s: System, a: Action, j: JobId)
    requires Possible(s, a) && j in s.jobs
    ensures j in Apply(env, s, a).jobs
    ensures !Edits(s, a, j) ==>
              SameSchedule(Apply(env, s, a).jobs[j], s.jobs[j]) && Apply(env, s, a).jobs[j].enabled == s.jobs[j].enabled
    ensures !Edits(s, a, j) && !Releases(s, a, j) ==> Apply(env, s, a).jobs[j].nextRunAt == s.jobs[j].nextRunAt
  {
    hide Due, IsDueList, StatusOf, ErrorOf;
  }

  // ---------------------------------------------------------------- over runs

  lemma {:induction false} ScheduleKept(env: Env, c: Care, s: System, acts: seq<Action>, s': System, j: JobId)
    requires RunsUnder(env, c, s, acts, s') && j in s.jobs && !EditedIn(env, s, acts, j)
    ensures j in s'.jobs && SameSchedule(s'.jobs[j], s.jobs[j]) && s'.jobs[j].enabled == s.jobs[j].enabled
    decreases |acts|
  {
    if acts != [] {
      SlotStep(env, s, acts[0], j);
      ScheduleKept(env, c, Apply(env, s, acts[0]), acts[1..], s', j);
    }
  }

  /** What an execution that started from `read` leaves as the next slot, if it finishes after `now`. */
  predicate SlotAfter(read: Job, slot: Option<Instant>, now: Instant) {
    if read.enabled then slot.Some? ==> now < slot.value else slot == read.nextRunAt
  }

  /** Without edits the slot stays until an execution finishes; it is then in the future, or what the paused row had. */
  lemma {:induction false} SlotMoves(env: Env, c: Care, s: System, acts: seq<Action>, s': System, j: JobId,
                                     now: Instant)
    requires StrictlyLater(env.next) && RunsUnder(env, c, s, acts, s') && j in s.jobs
    requires !EditedIn(env, s, acts, j)
    ensures j in s'.jobs
    ensures LastFinish(env, s, acts, j).None? ==> s'.jobs[j].nextRunAt == s.jobs[j].nextRunAt
    ensures LastFinish(env, s, acts, j).Some? && NotBefore(env, s, acts, j, now) ==>
              SlotAfter(LastFinish(env, s, acts, j).value, s'.jobs[j].nextRunAt, now)
    decreases |acts|
  {
    if acts != [] {
      SlotStep(env, s, acts[0], j);
      SlotMoves(env, c, Apply(env, s, acts[0]), acts[1..], s', j, now);
    }
  }

  // ---------------------------------------------------------------- where a snapshot comes from

  /** Thread t is to execute, or is executing, the job it read as `snap`. */
  ghost predicate Carries(s: System, t: nat, trigger: Trigger, snap: Snapshot) {
    t in s.threads && s.threads[t].trigger == trigger &&
    (snap in s.threads[t].rest || ((s.threads[t].pc.Starting? || Owns(s.threads[t].pc))
        && s.threads[t].pc.snap == snap))
  }

  /** The step in which t reads `snap`: a tick at `now`, or a manual request. */
  ghost predicate Reads(s: System, a: Action, t: nat, trigger: Trigger, snap: Snapshot, now: Instant) {
    && snap.id in s.jobs && s.jobs[snap.id] == snap.row
    && match trigger
       case CRON => a.TickStart? && a.t == t && a.now == now && snap in a.due && Due(snap.row, now)
       case MANUAL => a.RunNow? && a.t == t && a.job == snap.id
  }

  lemma CarriedOrRead(env: Env, s: System, a: Action, t: nat, trigger: Trigger, snap: Snapshot) returns (now: Instant)
    requires Possible(s, a) && Carries(Apply(env, s, a), t, trigger, snap) && !Carries(s, t, trigger, snap)
    ensures Reads(s, a, t, trigger, snap, now)
  {
    hide Due;
    now := if a.TickStart? then a.now else 0;
  }

  /** Either t carries the snapshot from the start, or the run splits at the step that read it. */
  lemma {:induction false} ReadSomewhere(env: Env, c: Care, s: System, acts: seq<Action>, s': System,
                                         t: nat, trigger: Trigger, snap: Snapshot)
    returns (before: seq<Action>, mid: System, since: seq<Action>, now: Instant)
    requires RunsUnder(env, c, s, acts, s') && Carries(s', t, trigger, snap) && !Carries(s, t, trigger, snap)
    ensures acts == before + since && RunsUnder(env, c, s, before, mid) && RunsUnder(env, c, mid, since, s')
    ensures since != [] && Reads(mid, since[0], t, trigger, snap, now)
    decreases |acts|
  {
    var s1 := Apply(env, s, acts[0]);
    if Carries(s1, t, trigger, snap) {
      now := CarriedOrRead(env, s, acts[0], t, trigger, snap);
      before, mid, since := [], s, acts;
    } else {
      var front;
      front, mid, since, now := ReadSomewhere(env, c, s1, acts[1..], s', t, trigger, snap);
      before := [acts[0]] + front;
      assert before[1..] == front;
    }
  }

  // ---------------------------------------------------------------- a slot runs once

  /** An execution a tick is about to claim: its job's slot is still the one the tick read if and only if no execution
      of the job has finished since, or the last that has started from a paused row with that slot. So a claim that also
      asked for the slot it read, where the code asks only for a free job, would refuse the executions that run a
      finished slot again. */
  lemma StaleClaimExactly(env: Env, c: Care, acts: seq<Action>, s: System, t: nat)
    returns (before: seq<Action>, mid: System, since: seq<Action>, now: Instant)
    requires StrictlyLater(env.next) && RunsUnder(env, c, INIT, acts, s)
    requires t in s.threads && s.threads[t].pc.Created? && s.threads[t].trigger.CRON?
    ensures acts == before + since && RunsUnder(env, c, INIT, before, mid) && RunsUnder(env, c, mid, since, s)
    ensures since != [] && Reads(mid, since[0], t, CRON, s.threads[t].pc.snap, now)
    ensures var snap := s.threads[t].pc.snap;
            !EditedIn(env, mid, since, snap.id) && NotBefore(env, mid, since, snap.id, now) ==>
              && snap.id in s.jobs
              && var last := LastFinish(env, mid, since, snap.id);
                 s.jobs[snap.id].nextRunAt == snap.row.nextRunAt <==>
                 last.None? || (!last.value.enabled && last.value.nextRunAt == snap.row.nextRunAt)
  {
    var snap := s.threads[t].pc.snap;
    before, mid, since, now := ReadSomewhere(env, c, INIT, acts, s, t, CRON, snap);
    if !EditedIn(env, mid, since, snap.id) { SlotMoves(env, c, mid, since, s, snap.id, now); }
  }

  // ---------------------------------------------------------------- the next slot after a finish

  /** Whatever cron expressions mean, finish leaves the next slot of the stored schedule if and only if the row it
      started from was enabled and had the schedule that is stored now. A paused row puts its old slot back. */
  lemma FinishFollowsScheduleExactly(registered: (nat, JobId) -> bool, s: System, t: nat, at: Instant, from: Instant)
    requires Possible(s, Release(t, at, from))
    ensures var snap, row := s.threads[t].pc.snap, s.jobs[s.threads[t].pc.snap.id];
            (forall next :: StrictlyLater(next) ==>
               Apply(Env(next, registered), s, Release(t, at, from)).jobs[snap.id].nextRunAt
               == next(row.cronExpr, row.timezone, from))
            <==> snap.row.enabled && SameSchedule(row, snap.row)
  {
    var snap, row := s.threads[t].pc.snap, s.jobs[s.threads[t].pc.snap.id];
    if !(snap.row.enabled && SameSchedule(row, snap.row)) {
      var next := (c: string, z: string, now: Instant) =>
        if c == row.cronExpr && z == row.timezone then
          if snap.row.nextRunAt == Some(now + 1) then Some(now + 2) else Some(now + 1)
        else Some(now + 3);
      assert StrictlyLater(next);
      assert Apply(Env(next, registered), s, Release(t, at, from)).jobs[snap.id].nextRunAt
             != next(row.cronExpr, row.timezone, from);
    }
  }

  /** An execution whose job was not edited since it was read leaves the next slot of the stored schedule, after its
      finish. */
  lemma UneditedFinishFollowsSchedule(env: Env, c: Care, acts: seq<Action>, s: System, t: nat, at: Instant,
      from: Instant)
    returns (before: seq<Action>, mid: System, since: seq<Action>, now: Instant)
    requires StrictlyLater(env.next) && RunsUnder(env, c, INIT, acts, s) && Possible(s, Release(t, at, from))
    ensures acts == before + since && RunsUnder(env, c, INIT, before, mid) && RunsUnder(env, c, mid, since, s)
    ensures since != [] && Reads(mid, since[0], t, s.threads[t].trigger, s.threads[t].pc.snap, now)
    ensures var j := s.threads[t].pc.snap.id;
            !EditedIn(env, mid, since, j) ==>
              var row' := Apply(env, s, Release(t, at, from)).jobs[j];
              && SameSchedule(s.jobs[j], mid.jobs[j]) && s.jobs[j].enabled == mid.jobs[j].enabled
              && (row'.enabled ==> row'.nextRunAt == env.next(row'.cronExpr, row'.timezone, from)
                                   && (row'.nextRunAt.Some? ==> from < row'.nextRunAt.value))
  {
    var snap := s.threads[t].pc.snap;
    before, mid, since, now := ReadSomewhere(env, c, INIT, acts, s, t, s.threads[t].trigger, snap);
    if !EditedIn(env, mid, since, snap.id) { ScheduleKept(env, c, mid, since, s, snap.id); }
  }

  // ---------------------------------------------------------------- once per tick

  ghost predicate DistinctIds(due: seq<Snapshot>) {
    forall i, k :: 0 <= i < k < |due| ==> due[i].id != due[k].id
  }

  ghost predicate NotWaiting(th: Thread, j: JobId) {
    forall i :: 0 <= i < |th.rest| ==> th.rest[i].id != j
  }

  ghost predicate DistinctDues(s: System) {
    forall t :: t in s.threads ==> DistinctIds(s.threads[t].rest)
  }

  /** A step leaves a thread's due list, shortens it, or is the start of a tick. */
  lemma DueStep(env: Env, s: System, a: Action, t: nat)
    requires Possible(s, a) && t in Apply(env, s, a).threads
    ensures var due := Apply(env, s, a).threads[t].rest;
            if t !in s.threads then DistinctIds(due) && (due != [] ==> a.TickStart? && a.t == t)
            else due == s.threads[t].rest || (s.threads[t].rest != [] && due == s.threads[t].rest[1..])
  {
    hide Due;
  }

  lemma {:induction false} DuesAreDistinct(env: Env, c: Care, s: System, acts: seq<Action>, s': System)
    requires DistinctDues(s) && RunsUnder(env, c, s, acts, s')
    ensures DistinctDues(s')
    decreases |acts|
  {
    if acts != [] {
      var s1 := Apply(env, s, acts[0]);
      forall t | t in s1.threads ensures DistinctIds(s1.threads[t].rest) { DueStep(env, s, acts[0], t); }
      DuesAreDistinct(env, c, s1, acts[1..], s');
    }
  }

  lemma {:induction false} NeverWaitsAgain(env: Env, c: Care, s: System, acts: seq<Action>, s': System,
                                           t: nat, j: JobId)
    requires RunsUnder(env, c, s, acts, s') && (t in s.threads ==> NotWaiting(s.threads[t], j))
    requires forall i :: 0 <= i < |acts| && acts[i].TickStart? ==> acts[i].t != t
    ensures t in s'.threads ==> NotWaiting(s'.threads[t], j)
    decreases |acts|
  {
    if acts != [] {
      var s1 := Apply(env, s, acts[0]);
      if t in s1.threads { DueStep(env, s, acts[0], t); }
      assert forall i :: 0 <= i < |acts[1..]| ==> acts[1..][i] == acts[i + 1];
      NeverWaitsAgain(env, c, s1, acts[1..], s', t, j);
    }
  }

  /** Once a tick has taken a job off its due list, it never has that job on it again. */
  lemma OncePerTick(env: Env, c: Care, before: seq<Action>, s: System, t: nat, since: seq<Action>, s': System)
    requires RunsUnder(env, c, INIT, before, s) && Possible(s, TickNext(t))
    requires RunsUnder(env, c, Apply(env, s, TickNext(t)), since, s') && t in s'.threads
    requires forall i :: 0 <= i < |since| && since[i].TickStart? ==> since[i].t != t
    ensures NotWaiting(s'.threads[t], s.threads[t].rest[0].id)
  {
    DuesAreDistinct(env, c, INIT, before, s);
    var due := s.threads[t].rest;
    assert DistinctIds(due) && forall i :: 0 <= i < |due[1..]| ==> due[1..][i] == due[i + 1];
    NeverWaitsAgain(env, c, Apply(env, s, TickNext(t)), since, s', t, due[0].id);
  }
}
