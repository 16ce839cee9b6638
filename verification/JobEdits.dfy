/**
  Admin edits that overlap other writes of the job: an edit writes back every column from its
  early read, so what changed in between is undone.
*/
module JobEdits {
  import opened Wrappers
  import opened JobRows
  import opened JobProtocol
  import T = JobTheorems
  import S = JobSchedule

  predicate Reschedules(patch: Patch) {
    patch.cronExpr.Some? || patch.timezone.Some? || patch.enabled == Some(true)
  }

  /** The columns that the patch leaves alone are the same in both rows. */
  predicate SameOutsidePatch(row: Job, other: Job, patch: Patch) {
    && (patch.cronExpr.None? ==> other.cronExpr == row.cronExpr)
    && (patch.timezone.None? ==> other.timezone == row.timezone)
    && (patch.enabled.None? ==> other.enabled == row.enabled)
    && (!Reschedules(patch) ==> other.nextRunAt == row.nextRunAt)
  }

  /** The edit that thread t is about to write is valid. */
  predicate ValidEdit(env: Env, s: System, t: nat, at: Instant)
    requires t in s.threads && s.threads[t].pc.Editing? && s.threads[t].pc.read.id in s.jobs
  {
    var pc := s.threads[t].pc;
    Edited(env, s.jobs[pc.read.id], pc.read.row, pc.patch, at).Some?
  }

  /** A valid edit keeps what is stored in the columns its patch leaves alone if and only if the row it read still has
      that in them. */
  lemma EditKeepsExactly(env: Env, s: System, t: nat, at: Instant)
    requires Possible(s, EditWrite(t, at)) && ValidEdit(env, s, t, at)
    ensures var pc := s.threads[t].pc;
            var row, row' := s.jobs[pc.read.id], Apply(env, s, EditWrite(t, at)).jobs[pc.read.id];
            SameOutsidePatch(row, row', pc.patch) <==> SameOutsidePatch(row, pc.read.row, pc.patch)
  {
  }

  // ---------------------------------------------------------------- over runs

  /** Without edits the schedule and the flag stay, and without finishes the slot does. */
  lemma {:induction false} RowKept(env: Env, c: Care, s: System, acts: seq<Action>, s': System, j: JobId)
    requires RunsUnder(env, c, s, acts, s') && j in s.jobs && !S.EditedIn(env, s, acts, j)
    ensures j in s'.jobs
    ensures S.SameSchedule(s'.jobs[j], s.jobs[j]) && s'.jobs[j].enabled == s.jobs[j].enabled
    ensures S.LastFinish(env, s, acts, j).None? ==> s'.jobs[j].nextRunAt == s.jobs[j].nextRunAt
    decreases |acts|
  {
    if acts != [] {
      S.SlotStep(env, s, acts[0], j);
      RowKept(env, c, Apply(env, s, acts[0]), acts[1..], s', j);
    }
  }

  ghost predicate IsEditing(s: System, t: nat, read: Snapshot, patch: Patch) {
    t in s.threads && s.threads[t].pc == Editing(read, patch)
  }

  ghost predicate StartsEdit(s: System, a: Action, t: nat, read: Snapshot, patch: Patch) {
    a.EditStart? && a.t == t && a.patch == patch && a.job == read.id && read.id in s.jobs && s.jobs[read.id] == read.row
  }

  lemma EditingOrStarted(env: Env, s: System, a: Action, t: nat, read: Snapshot, patch: Patch)
    requires Possible(s, a) && IsEditing(Apply(env, s, a), t, read, patch) && !IsEditing(s, t, read, patch)
    ensures StartsEdit(s, a, t, read, patch)
  {
    hide Due, IsDueList, Edited, Released, Upserted;
  }

  /** The run splits at the read of an edit under way. */
  lemma {:induction false} StartedSomewhere(env: Env, c: Care, s: System, acts: seq<Action>, s': System,
                                            t: nat, read: Snapshot, patch: Patch)
    returns (before: seq<Action>, mid: System, since: seq<Action>)
    requires RunsUnder(env, c, s, acts, s') && IsEditing(s', t, read, patch) && !IsEditing(s, t, read, patch)
    ensures acts == before + since && RunsUnder(env, c, s, before, mid) && RunsUnder(env, c, mid, since, s')
    ensures since != [] && StartsEdit(mid, since[0], t, read, patch)
    decreases |acts|
  {
    var s1 := Apply(env, s, acts[0]);
    if IsEditing(s1, t, read, patch) {
      EditingOrStarted(env, s, acts[0], t, read, patch);
      before, mid, since := [], s, acts;
    } else {
      var front;
      front, mid, since := StartedSomewhere(env, c, s1, acts[1..], s', t, read, patch);
      before := [acts[0]] + front;
      assert before[1..] == front;
    }
  }

  /** So in any run of the code a valid edit keeps those columns if no other edit of the job was written since its read,
      and no execution of it finished, unless the edit computes a new slot itself. */
  lemma UndisturbedEditKeeps(env: Env, c: Care, acts: seq<Action>, s: System, t: nat, at: Instant)
    returns (before: seq<Action>, mid: System, since: seq<Action>)
    requires RunsUnder(env, c, INIT, acts, s) && Possible(s, EditWrite(t, at)) && ValidEdit(env, s, t, at)
    ensures acts == before + since && RunsUnder(env, c, INIT, before, mid) && RunsUnder(env, c, mid, since, s)
    ensures since != [] && StartsEdit(mid, since[0], t, s.threads[t].pc.read, s.threads[t].pc.patch)
    ensures var pc := s.threads[t].pc;
            var j := pc.read.id;
            !S.EditedIn(env, mid, since, j) && (S.LastFinish(env, mid, since, j).None? || Reschedules(pc.patch)) ==>
              SameOutsidePatch(s.jobs[j], Apply(env, s, EditWrite(t, at)).jobs[j], pc.patch)
  {
    var pc := s.threads[t].pc;
    before, mid, since := StartedSomewhere(env, c, INIT, acts, s, t, pc.read, pc.patch);
    if !S.EditedIn(env, mid, since, pc.read.id) { RowKept(env, c, mid, since, s, pc.read.id); }
    EditKeepsExactly(env, s, t, at);
  }

  // ---------------------------------------------------------------- edits that undo

  const EMPTY := Patch(None, None, None)

  /** An edit of no column, read while the job runs its slot. */
  lemma EditReadDuringRun(env: Env, key: JobId, cron: string, tz: string, slot: Instant)
    returns (acts: seq<Action>, s: System)
    requires env.registered(0, key) && env.next(cron, tz, 0) == Some(slot)
    ensures Runs(env, INIT, acts, s)
    ensures var row := T.Fresh(env, key, cron, tz, 0);
            && s.jobs == map[key := Claimed(row, 0)] && 0 in s.runs && 0 in s.threads && 2 in s.threads
            && s.threads[0].pc == Live(Snapshot(key, row), 0)
            && s.threads[2].pc == Editing(Snapshot(key, Claimed(row, 0)), EMPTY)
  {
    var p, s0 := T.TwoTicks(env, key, cron, tz, slot);
    var s1 := T.StartRun(env, s0, 0, slot);
    s := s1.(threads := s1.threads[2 := Thread(0, MANUAL, [], Editing(Snapshot(key, s1.jobs[key]), EMPTY))]);
    assert Runs(env, s, [EditStart(2, 0, key, EMPTY)][1..], s);
    assert Runs(env, s1, [EditStart(2, 0, key, EMPTY)], s);
    hide Runs;
    RunsConcat(env, INIT, p, s0, [Create(0, slot), Claim(0)], s1);
    RunsConcat(env, INIT, p + [Create(0, slot), Claim(0)], s1, [EditStart(2, 0, key, EMPTY)], s);
    acts := p + [Create(0, slot), Claim(0)] + [EditStart(2, 0, key, EMPTY)];
  }

  /** Written after the finish, it puts back the slot that was just executed: the job is free and due again. */
  lemma EditPutsBackSlot(env: Env, key: JobId, cron: string, tz: string, slot: Instant)
    returns (acts: seq<Action>, s: System)
    requires StrictlyLater(env.next) && env.registered(0, key)
    requires env.next(cron, tz, 0) == Some(slot) && env.next(cron, tz, slot).Some?
    ensures Runs(env, INIT, acts, s) && 2 in s.threads && s.threads[2].pc.Editing? && key in s.jobs
    ensures Possible(s, EditWrite(2, slot)) && s.jobs[key].runCount == 1 && !Due(s.jobs[key], slot)
    ensures var after := Apply(env, s, EditWrite(2, slot));
            && key in after.jobs && after.jobs[key].runCount == 1 && after.jobs[key].nextRunAt == Some(slot)
            && ClaimWins(after.jobs, key) && Due(after.jobs[key], slot)
  {
    var p, s0 := EditReadDuringRun(env, key, cron, tz, slot);
    s := T.FinishRun(env, s0, 0, Returned, slot);
    RunsConcat(env, INIT, p, s0, [CloseRun(0, Returned, slot), Release(0, slot, slot)], s);
    acts := p + [CloseRun(0, Returned, slot), Release(0, slot, slot)];
  }

  /** Two edits read the same row: the second to be written undoes the first's column. */
  lemma EditsUndoEachOther(env: Env, key: JobId, cron: string, tz: string, edited: string)
    returns (acts: seq<Action>, s: System)
    requires env.next(cron, tz, 0).Some? && env.next(edited, tz, 0).Some?
    ensures Runs(env, INIT, acts, s) && 1 in s.threads && s.threads[1].pc.Editing? && key in s.jobs
    ensures s.threads[1].pc.patch.cronExpr.None? && Possible(s, EditWrite(1, 0)) && s.jobs[key].cronExpr == edited
    ensures var after := Apply(env, s, EditWrite(1, 0)); key in after.jobs && after.jobs[key].cronExpr == cron
  {
    var row := T.Fresh(env, key, cron, tz, 0);
    var first, second := Patch(Some(edited), None, None), Patch(None, None, Some(false));
    var s1 := System(map[key := row], map[], map[], 0, map[]);
    var s2 := s1.(threads := map[1 := Thread(0, MANUAL, [], Editing(Snapshot(key, row), second))]);
    assert Runs(env, s1, [SyncUpsert(key, cron, tz, 0)][1..], s1);
    assert Runs(env, s2, [EditStart(1, 0, key, second)][1..], s2);
    assert Runs(env, INIT, [SyncUpsert(key, cron, tz, 0)], s1) && Runs(env, s1, [EditStart(1, 0, key, second)], s2);
    s := T.EditRun(env, s2, 0, key, first, 0);
    RunsConcat(env, INIT, [SyncUpsert(key, cron, tz, 0)], s1, [EditStart(1, 0, key, second)], s2);
    acts := [SyncUpsert(key, cron, tz, 0)] + [EditStart(1, 0, key, second)];
    RunsConcat(env, INIT, acts, s2, [EditStart(0, 0, key, first), EditWrite(0, 0)], s);
    acts := acts + [EditStart(0, 0, key, first), EditWrite(0, 0)];
  }

  // ---------------------------------------------------------------- what an edit writes

  /** A valid edit applies its patch to the stored row, and an invalid one changes no row; it is invalid exactly when
      the schedule it would leave has no next slot. */
  lemma EditApplies(env: Env, s: System, t: nat, at: Instant)
    requires Possible(s, EditWrite(t, at))
    ensures var pc, s' := s.threads[t].pc, Apply(env, s, EditWrite(t, at));
            && s'.runs == s.runs
            && if BadSchedule(env, pc.read.row, pc.patch, at) then s'.jobs == s.jobs && !ValidEdit(env, s, t, at)
               else && ValidEdit(env, s, t, at) && pc.read.id in s'.jobs
                    && s'.jobs == s.jobs[pc.read.id := s'.jobs[pc.read.id]]
                    && Patched(env, s.jobs[pc.read.id], pc.read.row, pc.patch, s'.jobs[pc.read.id], at)
  {
  }
}
