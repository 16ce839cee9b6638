/**
  What each of sync's two closing statements can break. Clearing the claims endangers mutual
  exclusion only, closing the runs endangers closed run rows only, and each does so exactly
  when an execution is still using what it closes.
*/
module JobSync {
  import opened Wrappers
  import opened JobRows
  import opened JobProtocol
  import T = JobTheorems

  /** Claims are cleared with care; runs are closed at any time. */
  const CLEARING := Care(false, true)

  /** Runs are closed with care; claims are cleared at any time. */
  const CLOSING := Care(true, false)

  lemma {:induction false} UnderConcat(env: Env, c: Care, s: System, acts: seq<Action>, mid: System, more: seq<Action>,
      s': System)
    requires RunsUnder(env, c, s, acts, mid) && RunsUnder(env, c, mid, more, s')
    ensures RunsUnder(env, c, s, acts + more, s')
    decreases |acts|
  {
    if acts == [] {
      assert acts + more == more;
    } else {
      UnderConcat(env, c, Apply(env, s, acts[0]), acts[1..], mid, more, s');
      assert (acts + more)[1..] == acts[1..] + more;
    }
  }

  /** Two executions never own one run row. */
  ghost predicate OwnRows(s: System) {
    && (forall t :: t in s.threads && Owns(s.threads[t].pc) ==> s.threads[t].pc.run < s.nextRun)
    && (forall t, u :: t in s.threads && u in s.threads && t != u && Owns(s.threads[t].pc) && Owns(s.threads[u].pc) ==>
          s.threads[t].pc.run != s.threads[u].pc.run)
  }

  /** A step creates at most one owner, of a fresh run; nobody else changes the run it owns. */
  lemma OwnerStep(env: Env, s: System, a: Action, t: nat)
    requires OwnRows(s) && Possible(s, a) && t in Apply(env, s, a).threads && Owns(Apply(env, s, a).threads[t].pc)
    ensures var r := Apply(env, s, a).threads[t].pc.run;
            if a.Create? && a.t == t then r == s.nextRun
            else t in s.threads && Owns(s.threads[t].pc) && s.threads[t].pc.run == r
    ensures s.nextRun <= Apply(env, s, a).nextRun && (a.Create? ==> Apply(env, s, a).nextRun == s.nextRun + 1)
  {
    hide Due, IsDueList, Upserted, Edited, Released;
  }

  lemma OwnRowsStep(env: Env, s: System, a: Action)
    requires OwnRows(s) && Possible(s, a)
    ensures OwnRows(Apply(env, s, a))
  {
    var s' := Apply(env, s, a);
    hide Apply, Possible;
    forall t | t in s'.threads && Owns(s'.threads[t].pc) ensures s'.threads[t].pc.run < s'.nextRun {
      OwnerStep(env, s, a, t);
    }
    forall t, u | t in s'.threads && u in s'.threads && t != u && Owns(s'.threads[t].pc) && Owns(s'.threads[u].pc)
      ensures s'.threads[t].pc.run != s'.threads[u].pc.run
    {
      OwnerStep(env, s, a, t);
      OwnerStep(env, s, a, u);
    }
  }

  // ---------------------------------------------------------------- clearing the claims

  predicate BothHold(pc: Pc, other: Pc) {
    Holds(pc) && Holds(other) && pc.snap.id == other.snap.id
  }

  /** At most one execution holds a job. */
  ghost predicate Exclusive(s: System) {
    forall t, u :: t in s.threads && u in s.threads && BothHold(s.threads[t].pc, s.threads[u].pc) ==> t == u
  }

  /** Who holds a job has its claim, and a handler for it. */
  ghost predicate ClaimHeld(env: Env, s: System, t: nat)
    requires t in s.threads
  {
    var th := s.threads[t];
    && (Owns(th.pc) ==> env.registered(th.proc, th.pc.snap.id))
    && (Holds(th.pc) ==> th.pc.snap.id in s.jobs && s.jobs[th.pc.snap.id].runningRunId == Some(th.pc.run))
  }

  ghost predicate ClaimsHeld(env: Env, s: System) {
    OwnRows(s) && forall t :: t in s.threads ==> ClaimHeld(env, s, t)
  }

  lemma HeldIsExclusive(env: Env, s: System)
    requires ClaimsHeld(env, s)
    ensures Exclusive(s)
  {
    forall t, u | t in s.threads && u in s.threads && BothHold(s.threads[t].pc, s.threads[u].pc) ensures t == u {
      assert ClaimHeld(env, s, t) && ClaimHeld(env, s, u);
    }
  }

  ghost predicate JustWon(s: System, s': System, a: Action, u: nat) {
    && a.Claim? && a.t == u && u in s.threads && s.threads[u].pc.Created?
    && var pc := s.threads[u].pc;
       ClaimWins(s.jobs, pc.snap.id) && s'.jobs == s.jobs[pc.snap.id := Claimed(s.jobs[pc.snap.id], pc.run)]
  }

  /** Who holds after a step held before it, or has just won the claim of a free job. */
  lemma HolderStep(env: Env, s: System, a: Action, u: nat)
    requires Possible(s, a) && u in Apply(env, s, a).threads && Holds(Apply(env, s, a).threads[u].pc)
    ensures var pc := Apply(env, s, a).threads[u].pc;
            && u in s.threads
            && (Holds(s.threads[u].pc) || JustWon(s, Apply(env, s, a), a, u))
            && Owns(s.threads[u].pc) && s.threads[u].pc.snap == pc.snap && s.threads[u].pc.run == pc.run
            && !(a.Release? && a.t == u)
  {
    hide Due, IsDueList, Upserted, Edited, Released, Closed;
  }

  /** Owning a run says that the thread's process has a handler for the job. */
  lemma RegisteredStep(env: Env, s: System, a: Action, u: nat)
    requires ClaimsHeld(env, s) && Possible(s, a) && u in Apply(env, s, a).threads
    requires Owns(Apply(env, s, a).threads[u].pc)
    ensures env.registered(Apply(env, s, a).threads[u].proc, Apply(env, s, a).threads[u].pc.snap.id)
  {
    if u in s.threads { assert ClaimHeld(env, s, u); }
    hide Due, IsDueList, Upserted, Edited, Released, Closed, OwnRows, ClaimHeld;
  }

  lemma HeldStep(env: Env, s: System, a: Action, u: nat)
    requires ClaimsHeld(env, s) && Allowed(CLEARING, s, a) && u in Apply(env, s, a).threads
    ensures ClaimHeld(env, Apply(env, s, a), u)
  {
    var s' := Apply(env, s, a);
    if Owns(s'.threads[u].pc) { RegisteredStep(env, s, a, u); }
    if Holds(s'.threads[u].pc) {
      HolderStep(env, s, a, u);
      var j := s'.threads[u].pc.snap.id;
      assert ClaimHeld(env, s, u);
      if Holds(s.threads[u].pc) {
        ClaimColumnStep(env, s, a, j);
        if a.Release? { assert ClaimHeld(env, s, a.t); }
      }
      hide Apply;
    }
  }

  lemma {:induction false} HeldAlways(env: Env, s: System, acts: seq<Action>, s': System)
    requires ClaimsHeld(env, s) && RunsUnder(env, CLEARING, s, acts, s')
    ensures ClaimsHeld(env, s')
    decreases |acts|
  {
    if acts != [] {
      var s1 := Apply(env, s, acts[0]);
      OwnRowsStep(env, s, acts[0]);
      forall u | u in s1.threads ensures ClaimHeld(env, s1, u) { HeldStep(env, s, acts[0], u); }
      HeldAlways(env, s1, acts[1..], s');
    }
  }

  /** Mutual exclusion needs no care in closing runs. */
  lemma ExclusionUnderCarefulClearing(env: Env, acts: seq<Action>, s: System)
    requires RunsUnder(env, CLEARING, INIT, acts, s)
    ensures Exclusive(s)
  {
    HeldAlways(env, INIT, acts, s);
    HeldIsExclusive(env, s);
  }

  lemma {:induction false} FreshThread(ids: set<nat>) returns (bound: nat)
    ensures forall t :: t in ids ==> t < bound
    decreases |ids|
  {
    if ids == {} {
      bound := 0;
    } else {
      var t :| t in ids;
      var rest := FreshThread(ids - {t});
      bound := if t < rest then rest else t + 1;
      forall x | x in ids ensures x < bound {
        assert x == t || x in ids - {t};
      }
    }
  }

  /** A free job with a handler somewhere can be started by a manual request. */
  lemma StartFree(env: Env, s: System, j: JobId, proc: nat) returns (more: seq<Action>, s': System, u: nat)
    requires j in s.jobs && s.jobs[j].runningRunId.None? && env.registered(proc, j)
    ensures Runs(env, s, more, s') && u !in s.threads && s'.threads.Keys == s.threads.Keys + {u}
    ensures forall t :: t in s.threads ==> s'.threads[t] == s.threads[t]
    ensures s'.threads[u].pc.Live? && s'.threads[u].pc.snap.id == j
  {
    u := FreshThread(s.threads.Keys);
    var a1, a2 := SyncUpsert(j, "", "", 0), RunNow(u, proc, j);
    var s1 := Apply(env, s, a1);
    var s2 := Apply(env, s1, a2);
    T.RunsOfTwo(env, s, a1, s1, a2, s2);
    s' := T.StartRun(env, s2, u, 0);
    RunsConcat(env, s, [a1, a2], s2, [Create(u, 0), Claim(u)], s');
    more := [a1, a2] + [Create(u, 0), Claim(u)];
  }

  lemma ClearedStaysExclusive(env: Env, s: System, more: seq<Action>, s': System)
    requires ClaimsHeld(env, s) && NoHolder(s) && RunsUnder(env, CLEARING, ClearClaimsStep(s), more, s')
    ensures Exclusive(s')
  {
    var cleared := ClearClaimsStep(s);
    forall t | t in s.threads ensures ClaimHeld(env, cleared, t) { assert ClaimHeld(env, s, t); }
    HeldAlways(env, cleared, more, s');
    HeldIsExclusive(env, s');
  }

  lemma ClearedHolderIsJoined(env: Env, s: System, t: nat) returns (more: seq<Action>, s': System)
    requires ClaimsHeld(env, s) && t in s.threads && Holds(s.threads[t].pc)
    ensures RunsUnder(env, CLEARING, ClearClaimsStep(s), more, s') && !Exclusive(s')
  {
    var cleared, u := ClearClaimsStep(s), 0;
    assert ClaimHeld(env, s, t);
    more, s', u := StartFree(env, cleared, s.threads[t].pc.snap.id, s.threads[t].proc);
    hide RunsUnder, Runs, ClaimsHeld;
    RunsAreCareful(env, CLEARING, cleared, more, s');
    assert BothHold(s'.threads[t].pc, s'.threads[u].pc);
  }

  /** Every continuation of s keeps mutual exclusion. */
  ghost predicate KeepsExclusion(env: Env, s: System) {
    forall more, s' :: RunsUnder(env, CLEARING, s, more, s') ==> Exclusive(s')
  }

  lemma NotKeptExclusive(env: Env, s: System, more: seq<Action>, s': System)
    requires RunsUnder(env, CLEARING, s, more, s') && !Exclusive(s')
    ensures !KeepsExclusion(env, s)
  {
  }

  /** After clearing the claims every continuation keeps mutual exclusion if and only if nobody held one. */
  lemma ClearingKeepsExclusionExactly(env: Env, acts: seq<Action>, s: System)
    requires RunsUnder(env, CLEARING, INIT, acts, s)
    ensures KeepsExclusion(env, ClearClaimsStep(s)) <==> NoHolder(s)
  {
    HeldAlways(env, INIT, acts, s);
    hide RunsUnder, Exclusive, ClaimsHeld, ClearClaimsStep;
    if NoHolder(s) {
      forall more, s' | RunsUnder(env, CLEARING, ClearClaimsStep(s), more, s') ensures Exclusive(s') {
        ClearedStaysExclusive(env, s, more, s');
      }
    } else {
      hide KeepsExclusion;
      var t :| t in s.threads && Holds(s.threads[t].pc);
      var more, s' := ClearedHolderIsJoined(env, s, t);
      NotKeptExclusive(env, ClearClaimsStep(s), more, s');
    }
  }

  // ---------------------------------------------------------------- closing the runs

  /** Every run closed in s is the same in s'. */
  ghost predicate ClosedKept(s: System, s': System) {
    forall r :: r in s.runs && !s.runs[r].status.RUNNING? ==> r in s'.runs && s'.runs[r] == s.runs[r]
  }

  /** An execution that has not closed its run has it RUNNING. */
  ghost predicate OpenRows(s: System) {
    && OwnRows(s)
    && (forall r :: r in s.runs ==> r < s.nextRun)
    && (forall t :: t in s.threads && IsOpen(s.threads[t].pc) ==>
          s.threads[t].pc.run in s.runs && s.runs[s.threads[t].pc.run].status.RUNNING?)
  }

  lemma RunsBelowStep(env: Env, s: System, a: Action, r: RunId)
    requires Possible(s, a) && r in Apply(env, s, a).runs
    ensures s.nextRun <= Apply(env, s, a).nextRun && (r in s.runs || r < Apply(env, s, a).nextRun)
  {
    hide Due, IsDueList, Upserted, Edited, Released;
  }

  /** Whose run is open after a step had it open before it and did not close it, or has just created it. */
  lemma OpenerStep(env: Env, s: System, a: Action, t: nat)
    requires Possible(s, a) && t in Apply(env, s, a).threads && IsOpen(Apply(env, s, a).threads[t].pc)
    ensures var s', r := Apply(env, s, a), Apply(env, s, a).threads[t].pc.run;
            if a.Create? && a.t == t then r in s'.runs && s'.runs[r].status.RUNNING?
            else && t in s.threads && IsOpen(s.threads[t].pc) && s.threads[t].pc.run == r
                 && !((a.Discard? || a.CloseRun?) && a.t == t)
  {
    hide Due, IsDueList, Upserted, Edited, Released;
  }

  lemma RunRowsStep(env: Env, s: System, a: Action)
    requires OpenRows(s) && Allowed(CLOSING, s, a)
    ensures ClosedKept(s, Apply(env, s, a)) && forall r :: r in Apply(env, s, a).runs ==> r < Apply(env, s, a).nextRun
  {
    var s' := Apply(env, s, a);
    hide Apply, OwnRows;
    forall r | r in s'.runs ensures r < s'.nextRun { RunsBelowStep(env, s, a, r); }
    forall r | r in s.runs && !s.runs[r].status.RUNNING? ensures r in s'.runs && s'.runs[r] == s.runs[r] {
      RunRowStep(env, s, a, r);
    }
  }

  lemma OpenRowStep(env: Env, s: System, a: Action, t: nat)
    requires OpenRows(s) && Allowed(CLOSING, s, a) && t in Apply(env, s, a).threads
    requires IsOpen(Apply(env, s, a).threads[t].pc)
    ensures var s', r := Apply(env, s, a), Apply(env, s, a).threads[t].pc.run;
            r in s'.runs && s'.runs[r].status.RUNNING?
  {
    OpenerStep(env, s, a, t);
    hide Apply;
    if !(a.Create? && a.t == t) { RunRowStep(env, s, a, s.threads[t].pc.run); }
  }

  lemma OpenRowsStep(env: Env, s: System, a: Action)
    requires OpenRows(s) && Allowed(CLOSING, s, a)
    ensures OpenRows(Apply(env, s, a)) && ClosedKept(s, Apply(env, s, a))
  {
    var s' := Apply(env, s, a);
    OwnRowsStep(env, s, a);
    RunRowsStep(env, s, a);
    hide Apply, OwnRows, Allowed;
    forall t | t in s'.threads && IsOpen(s'.threads[t].pc)
      ensures s'.threads[t].pc.run in s'.runs && s'.runs[s'.threads[t].pc.run].status.RUNNING?
    {
      OpenRowStep(env, s, a, t);
    }
  }

  lemma {:induction false} OpenRowsAlways(env: Env, s: System, acts: seq<Action>, s': System)
    requires OpenRows(s) && RunsUnder(env, CLOSING, s, acts, s')
    ensures OpenRows(s') && ClosedKept(s, s')
    decreases |acts|
  {
    if acts != [] {
      OpenRowsStep(env, s, acts[0]);
      OpenRowsAlways(env, Apply(env, s, acts[0]), acts[1..], s');
    }
  }

  lemma OpenRowsReached(env: Env, acts: seq<Action>, s: System)
    requires RunsUnder(env, CLOSING, INIT, acts, s)
    ensures OpenRows(s)
  {
    OpenRowsAlways(env, INIT, acts, s);
  }

  /** Closed runs stay as they are, with no care in clearing claims. */
  lemma ClosedUnderCarefulClosing(env: Env, acts: seq<Action>, s: System, more: seq<Action>, s': System)
    requires RunsUnder(env, CLOSING, INIT, acts, s) && RunsUnder(env, CLOSING, s, more, s')
    ensures ClosedKept(s, s')
  {
    OpenRowsReached(env, acts, s);
    OpenRowsAlways(env, s, more, s');
  }

  lemma UnderStep(env: Env, c: Care, s: System, a: Action)
    requires Allowed(c, s, a)
    ensures RunsUnder(env, c, s, [a], Apply(env, s, a))
  {
    assert RunsUnder(env, c, Apply(env, s, a), [a][1..], Apply(env, s, a));
  }

  /** An execution whose run row was closed under it goes on to rewrite or delete the row. */
  lemma OpenThreadRewrites(env: Env, s: System, t: nat) returns (more: seq<Action>, s': System)
    requires t in s.threads && IsOpen(s.threads[t].pc)
    requires s.threads[t].pc.run in s.runs && s.runs[s.threads[t].pc.run].status.ERROR?
    ensures RunsUnder(env, CLOSING, s, more, s') && !ClosedKept(s, s')
  {
    var pc := s.threads[t].pc;
    if pc.Created? {
      var s1 := Apply(env, s, Claim(t));
      UnderStep(env, CLOSING, s, Claim(t));
      var rest;
      rest, s' := ClaimedThreadRewrites(env, s1, t);
      UnderConcat(env, CLOSING, s, [Claim(t)], s1, rest, s');
      more := [Claim(t)] + rest;
      assert s1.runs == s.runs;
    } else {
      more, s' := ClaimedThreadRewrites(env, s, t);
    }
  }

  lemma ClaimedThreadRewrites(env: Env, s: System, t: nat) returns (more: seq<Action>, s': System)
    requires t in s.threads && IsOpen(s.threads[t].pc) && !s.threads[t].pc.Created?
    requires s.threads[t].pc.run in s.runs && s.runs[s.threads[t].pc.run].status.ERROR?
    ensures RunsUnder(env, CLOSING, s, more, s') && !ClosedKept(s, s')
  {
    var r := s.threads[t].pc.run;
    var a := if s.threads[t].pc.Lost? then Discard(t) else CloseRun(t, Returned, 0);
    UnderStep(env, CLOSING, s, a);
    more, s' := [a], Apply(env, s, a);
    assert r !in s'.runs || s'.runs[r] != s.runs[r];
  }

  lemma ClosingIsSafe(env: Env, s: System, at: Instant)
    requires OpenRows(s) && NoOpenThread(s)
    ensures OpenRows(CloseRunsStep(s, at))
  {
  }

  lemma ClosedUnder(s: System, at: Instant, t: nat)
    requires OpenRows(s) && t in s.threads && IsOpen(s.threads[t].pc)
    ensures var closed, r := CloseRunsStep(s, at), s.threads[t].pc.run;
            closed.threads == s.threads && r in closed.runs && closed.runs[r].status.ERROR?
  {
  }

  /** No continuation of `closed` rewrites or deletes a run closed in it. */
  ghost predicate KeepsClosed(env: Env, closed: System) {
    forall more, s' :: RunsUnder(env, CLOSING, closed, more, s') ==> ClosedKept(closed, s')
  }

  lemma NotKeptClosed(env: Env, closed: System, more: seq<Action>, s': System)
    requires RunsUnder(env, CLOSING, closed, more, s') && !ClosedKept(closed, s')
    ensures !KeepsClosed(env, closed)
  {
  }

  /** After closing the runs every continuation keeps the closed rows if and only if nobody had one open. */
  lemma ClosingKeepsRowsExactly(env: Env, acts: seq<Action>, s: System, at: Instant)
    requires RunsUnder(env, CLOSING, INIT, acts, s)
    ensures KeepsClosed(env, CloseRunsStep(s, at)) <==> NoOpenThread(s)
  {
    hide RunsUnder, ClosedKept, OpenRows, CloseRunsStep;
    var closed := CloseRunsStep(s, at);
    OpenRowsReached(env, acts, s);
    if NoOpenThread(s) {
      ClosingIsSafe(env, s, at);
      forall more, s' | RunsUnder(env, CLOSING, closed, more, s') ensures ClosedKept(closed, s') {
        OpenRowsAlways(env, closed, more, s');
      }
    } else {
      hide KeepsClosed;
      var t :| t in s.threads && IsOpen(s.threads[t].pc);
      ClosedUnder(s, at, t);
      var more, s' := OpenThreadRewrites(env, closed, t);
      NotKeptClosed(env, closed, more, s');
    }
  }
}
