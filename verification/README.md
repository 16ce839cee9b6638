# Verified model of the platform's stateful core

A Dafny model of the parts of the platform where state, interleaving or arithmetic make the code hard to be sure of,
with proofs of what they guarantee, and of exactly when they do not.

| files | what they model |
|---|---|
| `JobRows`, `JobProtocol`, `JobTheorems`, `JobSync`, `JobSchedule`, `JobEdits`, `JobsService` | the job scheduler: rows shared by any number of API instances, a step at every `await`, crashes, bootstrap `sync`, manual runs and admin edits; and one process of it as a class, tied to the protocol |
| `TtlCache`, `TwoRows`, `CacheServices` | the feature-flag and parameter caches: a state machine over processes, database round trips and writes; and the two services as classes |
| `Csv` | the CSV parser as a character loop, the printer, and their round trip |
| `Throttle` | the sliding-window limiter |
| `Merge` | the merge of translation catalogues |
| `Fees` | the all-in fee split in whole pesos |
| `Civil`, `ClTime`, `SegmentSnapshots` | the proleptic Gregorian calendar, Chilean day, week and month starts over an offset function, and the weekly snapshot built on them |
| `Calendar` | the month grid of the web calendar in a zone whose offset may change |
| `Birthdays`, `Levels`, `GenderAverages`, `Payments` | academy aggregates: upcoming birthdays, enrolment levels and their counts, attendance averages by gender, attribution of payments |
| `ProducerScope` | which events a producer's queries reach |

Code that updates state is a class or a method with loops, proved against a function or a predicate; the lemmas beside it
say what that function promises. Database tables are maps, and one database statement is one atomic step. Clocks,
handlers, cron parsing, time zones and collation are parameters of which only what the callers rely on is assumed.
`dafny verify dfyconfig.toml` checks the whole project.

Where the code does less than its comments or its callers expect, the model follows the code, and there is a lemma with a
concrete run or input and, beside it, a theorem on when the expectation holds:

| what fails | concrete run or input | when it holds |
|---|---|---|
| `sync` clears every claim, live ones included (jobs.service.ts:112-115), and a second handler starts | `JobTheorems.SyncDuringRunBreaksExclusion` | if and only if nobody holds a claim: `JobSync.ClearingKeepsExclusionExactly` |
| `sync` closes every RUNNING row (104-111), and a live execution rewrites or deletes the closed row | `JobSync.OpenThreadRewrites` | if and only if nobody has a row open: `JobSync.ClosingKeepsRowsExactly` |
| the claim does not look at `nextRunAt` again (235-238), and a slot runs twice | `JobTheorems.StaleDueListRunsSlotTwice` | between edits, with a clock that does not go back behind the due list's: the slot is the one read if and only if no execution finished since, or the last to finish put back the same slot of a paused row: `JobSchedule.StaleClaimExactly` |
| `finish` reschedules from the row it started with (267-269) and can undo an edit of the schedule, or the resuming of a paused job, which is then due at once | `JobTheorems.FinishOverwritesEdit`, `JobTheorems.FinishUndoesResume` | if and only if the row it started from was enabled and had the schedule stored now: `JobSchedule.FinishFollowsScheduleExactly` |
| `update` writes back every column from its early read (139-161), and undoes a finish or another edit | `JobEdits.EditPutsBackSlot`, `JobEdits.EditsUndoEachOther` | if and only if the row still has what was read in the columns the patch leaves alone: `JobEdits.EditKeepsExactly`, over runs `JobEdits.UndisturbedEditKeeps` |
| a read in flight across a write re-caches the old value (feature-flags.service.ts:99-101) | `TtlCache.ReadAcrossWrite` | a finished write settles its process if and only if nothing in flight disagrees: `TtlCache.FinishedWriteSettles`, `TtlCache.ReadYourWrites`; otherwise a stale read follows: `TtlCache.UnsettledCanReturnStale` |
| the producer defaults are a pair never stored together (params.service.ts:70-78) | `TtlCache.TornRead` | unless a change of the row observed first precedes one of the other (`TtlCache.SecondRowFirst` is the harmless order), and only then as long as no row comes back to a value it left: `TtlCache.TornExactly` |
| blank rows do not survive printing and parsing | `Csv.BlankRowIsLost` | if and only if no row is blank: `Csv.RoundTripExact` |
| the limiter forgets hits when the clock is set back | `Throttle.ClockSetBackForgets` | if and only if no dropped hit is back in the window: `Throttle.RefusalExactWhateverTheClock` |
| managed fee parts exceed the amount | `Fees.PartsExceedAmount` | if and only if the gateway costs no more than the deduction: `Fees.ManagedConserves` |
| the merge does not associate | `Merge.LeafBetweenDictionaries` | exactly under `Merge.MergeAssociativeExactly` |
| a clock change costs the month grid its last Sunday | `Calendar.AprilInChile` | exactly when the change spares the grid: `Calendar.GridRightExactly` |
| a week start lies in the future, or at 23:00 of Sunday | `ClTime.SetBackOnMonday`, `ClTime.SetForwardOnMonday` | `ClTime.WeekNeverAheadExactly`, `ClTime.WeekStartShowsMonday`, `ClTime.WeekStartPartitionsTime`, each if and only if |
| two academies count one payment | `Payments.UnderscoreCountsTwice` | if and only if no id followed by "_" begins another's: `Payments.MembershipCountedOnceExactly`, `Payments.PrivateCountedOnceExactly` |
| a new student is missing from the level counts | `Levels.BaseLevelOutsideLine` | if and only if every level is in the academy's line: `Levels.CountsAddUp` |
| two overlapping setLevels calls leave two levels of one type | `Levels.TwoLevelsAtOnce` | if and only if they name no two levels of one type: `Levels.OverlappingSetLevelsExactly` |
| a counted membership is not found by the detail view | `Payments.UnderscoreCountsTwice` | if and only if each plan id, up to its first underscore, is a plan of the same academy: `Payments.CountedIsAcceptedExactly` |
| a series hides its other events | `ProducerScope.ShadowedSeries` | if and only if its id is no own event's: `ProducerScope.OptionsCoverExactly` |

## Model

| member | source | states |
|---|---|---|
| JobTheorems.MutualExclusion | apps/api/src/jobs/jobs.service.ts:232-297 | In every state reachable while sync meets nothing in use, at most one execution holds a job, runningRunId names exactly its run, and that run is RUNNING exactly while the handler is live |
| JobTheorems.ClaimHasHolder | apps/api/src/jobs/jobs.service.ts:235-271 | Conversely a set runningRunId belongs to the one execution that holds the job, or to an uncounted run without an owner; the latter only after a crash |
| JobTheorems.RunningRowsHaveOwners | apps/api/src/jobs/jobs.service.ts:222-247 | Every RUNNING row belongs to an execution still at work or is a stray of a crash or of a missing handler; without those there are no strays, so lost claims leave no run |
| JobTheorems.ClosedForever | apps/api/src/jobs/jobs.service.ts:104-111 | A run once OK or ERROR is never rewritten or deleted, over any continuation |
| JobTheorems.Ledger | apps/api/src/jobs/jobs.service.ts:248-293 | runCount is the closed runs less those sync closed, less those a crash caught between finish's writes, less the one between its writes now; equal to the closed runs of an idle job when nothing crashed |
| JobTheorems.FinishFindsItsRows | apps/api/src/jobs/jobs.service.ts:251-291 | Both updates of finish always find their row |
| JobTheorems.WinRun | apps/api/src/jobs/jobs.service.ts:222-296 | The protocol run of an execution that finds the job free, with the rows it leaves |
| JobTheorems.LoseRun | apps/api/src/jobs/jobs.service.ts:239-247 | The protocol run of an execution that loses the claim: the rows are as before |
| JobTheorems.RaceToRunNow | apps/api/src/jobs/jobs.service.ts:174-183 | A run in which two manual requests both pass the check before either claims |
| JobTheorems.SyncDuringRunBreaksExclusion | apps/api/src/jobs/jobs.service.ts:112-115 | A run in which clearing claims under a live execution lets a second handler of the job start |
| JobTheorems.TwoTicks | apps/api/src/jobs/jobs.service.ts:193-199 | A run in which two instances hold the same due job |
| JobTheorems.StaleDueListRunsSlotTwice | apps/api/src/jobs/jobs.service.ts:235-238 | A run in which a slot that is already done and rescheduled starts again |
| JobTheorems.FinishOverwritesEdit | apps/api/src/jobs/jobs.service.ts:267-269 | A run in which nextRunAt ends up from the cron an admin has replaced |
| JobTheorems.FinishUndoesResume | apps/api/src/jobs/jobs.service.ts:149-160 | A run in which a job paused, started by hand and resumed meanwhile gets its old slot back at the finish and is due at once |
| JobTheorems.FinishWrites | apps/api/src/jobs/jobs.service.ts:248-293 | In the protocol finish records the outcome in exactly its two rows, in two steps |
| JobTheorems.CrashLeavesClaim | apps/api/src/jobs/jobs.service.ts:102-103 | A run in which a crash leaves a RUNNING run and a claim behind, held by nobody |
| JobTheorems.CrashExactly | apps/api/src/jobs/jobs.service.ts:102-103 | A crash is always possible and loses the executions of its process, and nothing else |
| JobProtocol.InvRuns | apps/api/src/jobs/jobs.service.ts:66-297 | Every run in which the two closing statements of sync meet nothing in use keeps the invariant that ties rows, claims, counters and executions together |
| JobProtocol.InvStep | apps/api/src/jobs/jobs.service.ts:66-297 | Each single step of such a run keeps it: tick, run-now, create, claim, discard, the two writes of finish, crash, edit, the four statements of sync |
| JobProtocol.LocalStep | apps/api/src/jobs/jobs.service.ts:212-297 | A step that touches only its own run and job rows keeps the invariant of everything else |
| JobProtocol.CloseRunsExact | apps/api/src/jobs/jobs.service.ts:104-111 | Closing the RUNNING rows keeps the invariant if and only if no execution has one open |
| JobProtocol.ClearClaimsExact | apps/api/src/jobs/jobs.service.ts:112-115 | Clearing the claims keeps it if and only if no execution holds one |
| JobSync.ClearingKeepsExclusionExactly | apps/api/src/jobs/jobs.service.ts:112-115 | After the claims are cleared, every continuation keeps at most one holder per job if and only if nobody held a job when they were |
| JobSync.ClosingKeepsRowsExactly | apps/api/src/jobs/jobs.service.ts:104-111 | After the runs are closed, no continuation rewrites or deletes a closed run if and only if nobody had one open when they were |
| JobSync.ExclusionUnderCarefulClearing | apps/api/src/jobs/jobs.service.ts:104-111 | Closing runs at any time does not endanger mutual exclusion |
| JobSync.ClosedUnderCarefulClosing | apps/api/src/jobs/jobs.service.ts:112-115 | Clearing claims at any time does not endanger closed runs |
| JobSync.OpenThreadRewrites | apps/api/src/jobs/jobs.service.ts:239-258 | An execution whose run row was closed under it goes on to rewrite or delete the row |
| JobSchedule.StaleClaimExactly | apps/api/src/jobs/jobs.service.ts:193-238 | In any run of the code, when a tick's execution is about to claim, the job unedited since its tick read it and every finish since then no earlier on the clock: the job's slot is still the one read if and only if no execution of it finished since, or the last that did started from a paused row with that slot |
| JobSchedule.SlotMoves | apps/api/src/jobs/jobs.service.ts:259-290 | An unedited job's slot stays until an execution finishes; it is then later than the due list's clock, or the old slot of the paused row the execution started from |
| JobSchedule.FinishFollowsScheduleExactly | apps/api/src/jobs/jobs.service.ts:259-290 | Whatever cron means, finish leaves the next slot of the stored schedule if and only if the row it started from was enabled and had the schedule stored now |
| JobSchedule.UneditedFinishFollowsSchedule | apps/api/src/jobs/jobs.service.ts:248-291 | An execution of an unedited job finishes under the schedule and enabled flag it read, and leaves the next slot of the stored schedule, after its finish |
| JobSchedule.ScheduleKept | apps/api/src/jobs/jobs.service.ts:153-161 | Schedule and enabled flag change only in an edit |
| JobSchedule.OncePerTick | apps/api/src/jobs/jobs.service.ts:197-205 | Once a tick has taken a job off its due list it never has it on it again |
| JobEdits.EditKeepsExactly | apps/api/src/jobs/jobs.service.ts:139-161 | A valid edit keeps what is stored in the columns its patch leaves alone if and only if the row it read still has that in them |
| JobEdits.EditApplies | apps/api/src/jobs/jobs.service.ts:141-161 | An edit applies its patch to its job's row alone, takes the next slot of the patched schedule, and is refused exactly when there is none |
| JobEdits.UndisturbedEditKeeps | apps/api/src/jobs/jobs.service.ts:139-161 | In any run of the code it does, if since its read no other edit of the job was written, and no execution of it finished unless the edit computes a new slot |
| JobEdits.EditPutsBackSlot | apps/api/src/jobs/jobs.service.ts:149-161 | A run in which an edit of no column, read during an execution and written after it, makes the executed slot due again |
| JobEdits.EditsUndoEachOther | apps/api/src/jobs/jobs.service.ts:153-161 | A run in which the second of two overlapping edits writes back the cron the first replaced |
| JobsService.JobsService.Sync | apps/api/src/jobs/jobs.service.ts:66-116 | Changes exactly the rows: every registration upserted, orphans marked, RUNNING runs closed, claims cleared |
| JobsService.JobsService.Update | apps/api/src/jobs/jobs.service.ts:134-171 | Not found, or bad cron exactly when the patched schedule has no next slot, with nothing changed; else the patched columns hold the patch, a patched schedule or switching on takes the next slot of the new schedule, and nothing else changes |
| JobsService.JobsService.BeginRun | apps/api/src/jobs/jobs.service.ts:221-247 | Creates a RUNNING run under a fresh id and claims a free job with it; without a handler only the run stays, and a lost race leaves all rows as before |
| JobsService.JobsService.FinishRun | apps/api/src/jobs/jobs.service.ts:248-293 | Records what the handler did in both rows (OK, or ERROR with its message, at the time it ended), releases the claim, adds one to the counter, takes the next slot of the schedule the run started from, and touches no other row |
| JobsService.JobsService.FindDue | apps/api/src/jobs/jobs.service.ts:194-196 | Every due job exactly once and no other |
| JobsService.JobsService.Tick | apps/api/src/jobs/jobs.service.ts:193-206 | Runs some due list of the moment through execute, in its order |
| JobsService.JobsService.RunNow | apps/api/src/jobs/jobs.service.ts:174-190 | Not found, conflict (exactly when orphaned or claimed), or the new run begun |
| JobsService.TickCatchesUp | apps/api/src/jobs/jobs.service.ts:193-293 | However many slots were missed, a tick runs each due, free job with a handler once (one closed run, counted, released, not due again at its finish), leaves one stray RUNNING run of a job without a handler, and leaves claimed jobs and jobs that are not due untouched |
| JobsService.ExecuteRunsOnce | apps/api/src/jobs/jobs.service.ts:212-297 | An execution of a free, enabled job leaves one new run that says, as the job does, what its handler did and when; the job is counted, released and not due until after its finish |
| JobsService.TickHandlesEach | apps/api/src/jobs/jobs.service.ts:197-205 | The same for a position of any due list |
| JobsService.TickLeavesOthers | apps/api/src/jobs/jobs.service.ts:197-205 | A job outside the due list keeps its row and gets no run |
| JobsService.SyncRecovers | apps/api/src/jobs/jobs.service.ts:98-115 | After sync every job is claimable, orphaned says exactly which have no handler, admin edits, next slot and counter are kept, no run is RUNNING and closed runs are as they were |
| JobsService.SyncWrites | apps/api/src/jobs/jobs.service.ts:69-115 | RUNNING runs become ERROR with the restart message, claimed jobs show ERROR, and a key registered for the first time gets a free, enabled row with its default schedule, America/Santiago unless it names a time zone |
| JobsService.TickSkipsClaimed | apps/api/src/jobs/jobs.service.ts:197-198 | A tick whose due jobs are all claimed does nothing, not even create a run |
| JobsService.UpsertAllKeeps | apps/api/src/jobs/jobs.service.ts:69-97 | Registering keeps each existing row but for orphaned, and new rows start free |
| JobsService.ExecuteFollowsProtocol | apps/api/src/jobs/jobs.service.ts:212-297 | An execution of the class, scheduled or manual, is a run of the protocol with the same rows, which closes its run exactly when it wins the claim, with the handler's outcome |
| JobsService.RunNowFollowsProtocol | apps/api/src/jobs/jobs.service.ts:174-190 | So is a manual request that is let through |
| JobsService.UpdateFollowsProtocol | apps/api/src/jobs/jobs.service.ts:134-171 | So is an admin edit |
| JobsService.SyncFollowsProtocol | apps/api/src/jobs/jobs.service.ts:66-116 | So is sync, whatever executions it meets |
| JobsService.TickFollowsProtocol | apps/api/src/jobs/jobs.service.ts:193-206 | So is a whole tick, whatever its due list |
| TtlCache.HitIsBoundedStale | apps/api/src/features/feature-flags.service.ts:71-82 | Over all interleavings, a cached value returned at t was stored, row by row, at some instant in (t - 30 s - d, t] |
| TtlCache.BoundIsReached | apps/api/src/features/feature-flags.service.ts:71-82 | For every round trip d a run in which a value is returned at the very end of that bound, 29,999 ms after it was cached, and no longer a millisecond later |
| TtlCache.StampedAtEnd | apps/api/src/features/feature-flags.service.ts:75-101 | Entries carry the time at which their read or write ended, and what it observed or wrote; a parameter's write leaves none |
| TtlCache.CrashForgets | apps/api/src/features/feature-flags.service.ts:71-82 | A crash loses the cache and the operations of its process, and nothing else |
| TtlCache.AbortLeavesCache | apps/api/src/features/feature-flags.service.ts:75-80 | A failing database call leaves cache and rows alone |
| TtlCache.MissIsBoundedStale | apps/api/src/params/params.service.ts:38-44 | A queried value returned at t was stored at some instant in [t - d, t] |
| TtlCache.InvAlways | apps/api/src/features/feature-flags.service.ts:71-112 | Every cache entry and every read in flight carries such a witness, in every reachable state of any number of processes |
| TtlCache.TornRead | apps/api/src/params/params.service.ts:70-90 | A two-table read can return a pair that was never stored |
| TtlCache.TornExactly | apps/api/src/params/params.service.ts:70-90 | The pair read was stored between its two observations if no change of the row observed first precedes one of the other; and only then, while no row comes back to a value it left |
| TtlCache.TornOnlyIfBothWritten | apps/api/src/params/params.service.ts:70-90 | While one of the rows stays, the pair is the one stored at the other's observation |
| TtlCache.SecondRowFirst | apps/api/src/params/params.service.ts:70-90 | A read across writes of both rows, in the harmless order |
| TwoRows.MeetExactly | apps/api/src/params/params.service.ts:70-90 | The core of it, on the two rows' sequences of values |
| TtlCache.SettledReadsCurrent | apps/api/src/features/feature-flags.service.ts:99-101 | From a state in which a process has nothing stale cached or in flight, every read of that process returns the rows as long as they stay |
| TtlCache.UnsettledCanReturnStale | apps/api/src/features/feature-flags.service.ts:75-81 | Conversely from any other state some continuation returns a stale value |
| TtlCache.FinishedWriteSettles | apps/api/src/params/params.service.ts:105-113 | A finished write whose value is still stored settles its process if and only if no other operation of it in flight disagrees with the rows |
| TtlCache.ReadYourWrites | apps/api/src/features/feature-flags.service.ts:95-101 | Over any behaviour, while nobody else writes the row, every hit or completed read of the process after the write's end returns it, unless an operation older than the write was still in flight at its end with another value |
| TtlCache.ReadAcrossWrite | apps/api/src/features/feature-flags.service.ts:71-101 | For both services, a run in which the cache holds the old value after the write is over |
| TtlCache.ReadCompletes | apps/api/src/params/params.service.ts:70-90 | A read in flight can finish with what it has seen so far |
| CacheServices.FeatureFlagsService.IsEnabled | apps/api/src/features/feature-flags.service.ts:71-82 | From any cache: a fresh entry, else the stored flag, false for a missing one, which is then cached; the stored flag itself while no entry is stale |
| CacheServices.FeatureFlagsService.SetEnabled | apps/api/src/features/feature-flags.service.ts:88-112 | From any cache: fails exactly for a missing key, changing nothing; otherwise row and cache both hold the value; makes no entry stale |
| CacheServices.ParamsService.Get | apps/api/src/params/params.service.ts:34-45 | From any cache: a fresh entry, else the stored parameter or none, which is then cached |
| CacheServices.ParamsService.Set | apps/api/src/params/params.service.ts:105-113 | Stores the value and drops the cached one; makes no entry stale |
| CacheServices.ParamsService.GetProducerParams | apps/api/src/params/params.service.ts:63-92 | From any cache: an entry younger than 30 s, else Some exactly when either table has the id, with its params row and the person's tier; none, and nothing cached, for no id |
| CacheServices.ParamsService.InvalidateProducer | apps/api/src/params/params.service.ts:94-96 | Drops the entry; coherent again if the rows of this producer alone were written elsewhere |
| CacheServices.LookupFollowsProtocol | apps/api/src/params/params.service.ts:34-45 | What the lookups do to a key is a hit, or a begin, the observations and a finish of the state machine, with the same answer and cache |
| CacheServices.WriteFollowsProtocol | apps/api/src/features/feature-flags.service.ts:95-101 | What the writes do to a key is a begin, a commit and a finish of the state machine, with the same rows and cache |
| CacheServices.LookupIsBoundedStale | apps/api/src/features/feature-flags.service.ts:71-82 | So in any behaviour of any processes what a lookup returns was stored row by row in the last 30 s and one round trip |
| CacheServices.IsEnabledIsBoundedStale | apps/api/src/features/feature-flags.service.ts:71-82 | What isEnabled returns was the stored flag in that time |
| CacheServices.GetIsBoundedStale | apps/api/src/params/params.service.ts:34-45 | What get returns was the stored parameter in that time |
| CacheServices.GetProducerParamsIsBoundedStale | apps/api/src/params/params.service.ts:63-92 | The params and the tier that getProducerParams returns are those of a row and a person each stored in that time |
| CacheServices.IsEnabledFollowsProtocol | apps/api/src/features/feature-flags.service.ts:71-82 | isEnabled's answer and cache are those of a hit or a read of the state machine |
| CacheServices.SetEnabledFollowsProtocol | apps/api/src/features/feature-flags.service.ts:95-101 | setEnabled's row and cache are those of a write of the state machine |
| CacheServices.GetFollowsProtocol | apps/api/src/params/params.service.ts:34-45 | get's answer and cache are those of a hit or a read |
| CacheServices.SetFollowsProtocol | apps/api/src/params/params.service.ts:105-113 | set's row and cache are those of a write |
| CacheServices.GetProducerParamsFollowsProtocol | apps/api/src/params/params.service.ts:63-92 | getProducerParams' answer and cache are those of a hit or a read of two rows |
| Csv.ParseCsv | apps/api/src/common/csv.ts:10-75 | The loop computes the recursive reading that the laws of this table speak of, and never returns a blank row |
| Csv.ParseExactly | apps/api/src/common/csv.ts:10-75 | Any file of bare, quoted or unclosed cells, its lines ended by LF, CR or both and the last by nothing, with or without a byte order mark, is read as its rows less the blank ones |
| Csv.BomMakesNoDifference | apps/api/src/common/csv.ts:11 | A byte order mark makes no difference, and nothing else is taken off the text |
| Csv.CellTextExactly | apps/api/src/query/producer-export.ts:24-27 | A cell is printed as it is unless it has a quote, comma or line break, and then between quotes with its own doubled |
| Csv.LineExactly | apps/api/src/query/producer-export.ts:31 | A line is its printed cells with commas between them |
| Csv.ToCsvExactly | apps/api/src/query/producer-export.ts:30-33 | A table is a byte order mark, the header's line and each row's, ended by CR and LF; null and undefined are empty cells |
| Csv.ScanCell | apps/api/src/query/producer-export.ts:24-27 | A printed cell before a separator is read back whole, quoted or not |
| Csv.ScanLine | apps/api/src/query/producer-export.ts:31 | A printed line is read back as its row |
| Csv.PrintParse | apps/api/src/query/producer-export.ts:30-33 | Parsing any printed table gives its rows but the blank ones |
| Csv.RoundTripExact | apps/api/src/common/csv.ts:10-75 | parse(print(table)) is the table if and only if no row is blank |
| Csv.RoundTripWithoutBom | apps/api/src/common/csv.ts:10-75 | The same of what toCsv prints less its byte order mark |
| Csv.BlankRowIsLost | apps/api/src/common/csv.ts:23-29 | A header over one empty cell comes back without its row |
| Csv.ParsePrintParse | apps/api/src/common/csv.ts:10-75 | Printing and re-parsing any non-empty parse result returns it unchanged |
| Csv.CsvRowsToObjects | apps/api/src/common/csv.ts:83-101 | None exactly when a required column is missing; otherwise one object per row |
| Csv.HeaderExactly | apps/api/src/common/csv.ts:87-89 | The header names are the first row's cells, each normalised |
| Csv.CellsToObject | apps/api/src/common/csv.ts:93-99 | One key per header name, with the last column of that name |
| Throttle.Limiter.Hit | apps/api/src/leads/leads.controller.ts:43-51 | Accepts exactly when fewer than max hits of the key were accepted in the last window of the full history, though only a pruned list is kept |
| Throttle.RecentExactly | apps/api/src/leads/leads.controller.ts:44-45 | The list kept is the accepted hits less than an hour old, in their order, each as often as it was accepted |
| Throttle.RefusalIsExact | apps/api/src/leads/leads.controller.ts:43-51 | The same over any history of calls with a clock that does not go back |
| Throttle.NoWindowExceedsMax | apps/api/src/leads/leads.controller.ts:38-51 | No interval of one window holds more than max accepted hits of a key |
| Throttle.ImplementationAgrees | apps/api/src/leads/leads.controller.ts:45-50 | The pruned lists and the full history show the same window from now on |
| Throttle.SavedAgrees | apps/api/src/leads/leads.controller.ts:49-50 | Saving the pruned list loses nothing a later call asks for |
| Throttle.RecentOfRecent | apps/api/src/leads/leads.controller.ts:45 | Pruning twice is pruning once at the later time |
| Throttle.ClockSetBackForgets | apps/api/src/leads/leads.controller.ts:44-45 | With a clock set back a call can be accepted though its window is full |
| Throttle.RefusalExactWhateverTheClock | apps/api/src/leads/leads.controller.ts:43-51 | For any clock, refusal at t is exact for every limit if and only if no hit dropped by an earlier saving is within a window of t |
| Throttle.NothingElseIsLost | apps/api/src/leads/leads.controller.ts:45-50 | For any clock, saved and dropped hits together account for every accepted one |
| Merge.MergeDict | apps/web/src/i18n/merge.ts:5-20 | The loop computes the merge function, in any order of the overlay's keys |
| Merge.PathLaw | apps/web/src/i18n/merge.ts:5-20 | The value at every path of a merge: overlay leaves win, paths the overlay lacks keep the base, dictionaries combine |
| Merge.FallbackNeverLosesKeys | apps/web/src/i18n/messages.ts:8-16 | A key of the fallback catalogue survives unless the overlay has a leaf on its path |
| Merge.AbsorbedExactly | apps/web/src/i18n/merge.ts:5-20 | Merging x under y gives y if and only if y overrides every key of x |
| Merge.MergeIdempotent | apps/web/src/i18n/merge.ts:5-20 | A catalogue merged with itself is itself |
| Merge.MergeAssociativeExactly | apps/web/src/i18n/merge.ts:5-20 | The merge of three associates if and only if wherever only the middle one has a leaf between dictionaries the last overrides the first |
| Merge.LeafBetweenDictionaries | apps/web/src/i18n/merge.ts:9-17 | Three catalogues whose two merges differ |
| Merge.OverlayTwice | apps/web/src/i18n/messages.ts:8-16 | An overlay applied twice is the overlay applied once |
| Fees.ManagedConserves | apps/api/src/common/fee-breakdown.ts:27-63 | Producer, platform, VAT and gateway add up to the amount if and only if the gateway does not exceed the deduction, always when all-in is at least card; otherwise the excess is exactly the difference |
| Fees.PartsExceedAmount | apps/api/src/common/fee-breakdown.ts:38-63 | Parts of 100 pesos that add up to 102 |
| Fees.OwnMethodConserves | apps/api/src/common/fee-breakdown.ts:92-119 | For own methods the parts always add up |
| Fees.PartsNonNegative | apps/api/src/common/fee-breakdown.ts:27-119 | With rates from 0 to 100 percent no part of any breakdown is negative |
| Fees.VatBound | apps/api/src/common/fee-breakdown.ts:27-35 | In the decomposition VAT is within (1 + iva) / 2 of iva times the net fee |
| Fees.ManagedFields | apps/api/src/common/fee-breakdown.ts:38-63 | In the breakdown of a managed order: that bound on its VAT and net fee, gateway and deduction the rounded shares at card and all-in rate, the producer the rest; all zero and FREE without an amount |
| Fees.OwnMethodFields | apps/api/src/common/fee-breakdown.ts:92-119 | In that of own methods: that bound, the rate all-in less card but never negative, the deduction its rounded share, no gateway |
| Fees.AcademyFields | apps/api/src/common/fee-breakdown.ts:76-89 | In that of an academy: no fee, all to the academy, the rounded card share as gateway cost |
| Fees.ManagedAndOwnAgree | apps/api/src/common/fee-breakdown.ts:38-119 | The platform's gross share of a managed order and of the same sale by own methods differ by at most a peso |
| Fees.DeductionsDrift | apps/api/src/common/fee-breakdown.ts:27-35 | Deductions over n orders are within n / 2 pesos of the rate on the total |
| Civil.DateOf | apps/api/src/common/cl-time.ts:53-61 | The date read back from a UTC day is valid and has that day number |
| Civil.DateOfDayNumber | apps/api/src/common/cl-time.ts:53-61 | Reading a date back from its day number gives the date |
| Civil.GregorianExactly | apps/api/src/common/cl-time.ts:53-61 | Leap years, lengths of the months, consecutive days, and 1 January 1970, a Thursday, as day 0 |
| ClTime.StartIsExact | apps/api/src/common/cl-time.ts:24-30 | The computed midnight splits the instants by calendar day if and only if the offset in the hour of midnight is the probe's |
| ClTime.StartsInMilliseconds | apps/api/src/common/cl-time.ts:4-62 | Day and week starts read the offset at 08:00 UTC of their day, month starts at 04:00 UTC, in milliseconds |
| ClTime.WeekStartShowsMonday | apps/api/src/common/cl-time.ts:43-62 | The Chilean clock shows Monday 00:00 of that week at the week start if and only if the offset at 03:00 UTC (probe in UTC-3) or 04:00 UTC (probe in UTC-4) of that Monday is the one at 08:00 UTC |
| ClTime.WeekStartNotAfterNow | apps/api/src/common/cl-time.ts:43-62 | A week start is after the instant it was asked for exactly before 04:00 UTC of a Monday that begins in UTC-3 and is in UTC-4 at 08:00 UTC |
| ClTime.WeekNeverAheadExactly | apps/api/src/common/cl-time.ts:43-62 | For a whole week it never is, if and only if the probe finds UTC-3 or the hour of midnight has the probe's offset |
| ClTime.SameWeekExactly | apps/api/src/common/cl-time.ts:43-62 | Two instants have one week start if and only if the Chilean clock shows days of one week |
| ClTime.StartsDelimitExactly | apps/api/src/common/cl-time.ts:24-30 | Two day starts delimit the instants showing the days between them if and only if both midnights are settled |
| ClTime.WeekStartPartitionsTime | apps/api/src/common/cl-time.ts:43-62 | The instants that get a week's start are exactly those from it up to the next one, if and only if both midnights are settled |
| ClTime.MonthStartPartitionsTime | apps/api/src/common/cl-time.ts:4-19 | The same for months |
| ClTime.SetBackOnMonday | apps/api/src/common/cl-time.ts:24-30 | Clocks set back over Monday's first hour: for an hour the week start lies in the future |
| ClTime.SetForwardOnMonday | apps/api/src/common/cl-time.ts:24-30 | Clocks set forward over Monday's midnight: the week starts at 23:00 of Sunday |
| SegmentSnapshots.SegmentSnapshotsService.Distribution | apps/api/src/academies/infrastructure/academy-segment-snapshots.service.ts:22-28 | Counts per academy and segment, for exactly the academies with a score |
| SegmentSnapshots.SegmentSnapshotsService.RunDaily | apps/api/src/academies/infrastructure/academy-segment-snapshots.service.ts:16-37 | Writes one row of the week per academy with a score, leaves every other row, and returns the number of those academies |
| SegmentSnapshots.OneRowPerWeek | apps/api/src/academies/infrastructure/academy-segment-snapshots.service.ts:5-11 | After any number of runs an academy has one row for a Chilean week, that of the week's last run with a score of it, whatever the clock changes; without such a run its row is untouched |
| SegmentSnapshots.SameRowExactly | apps/api/src/academies/infrastructure/academy-segment-snapshots.service.ts:16-17 | Two runs write one row if and only if the Chilean clock shows one week at both |
| Calendar.MonthCells | apps/web/src/lib/calendar.ts:88-105 | One cell per 24-hour step from the grid's start to its end, with the number, key and items of the step's local day and whether its month is the grid's |
| Calendar.GridShape | apps/web/src/lib/calendar.ts:72-83 | The weeks of the month cover it with 28 to 42 days, a multiple of 7 |
| Calendar.GridRightExactly | apps/web/src/lib/calendar.ts:66-105 | The cells are the consecutive days of those weeks if and only if the zone's change spares the grid; otherwise its last Sunday has no cell |
| Calendar.AprilInChile | apps/web/src/lib/calendar.ts:72-105 | The Chilean change of April 2026 leaves Sunday 3 May without a cell |
| Calendar.EachDayOnce | apps/web/src/lib/calendar.ts:88-105 | Then each day of the month has exactly one cell, inMonth, with its number, and all items of its key |
| Calendar.InMonthCells | apps/web/src/lib/calendar.ts:101 | Then inMonth marks exactly the days of the month |
| Calendar.InMonthExactly | apps/web/src/lib/calendar.ts:101 | The month-number test is right for every day of those weeks |
| Calendar.DayKeyInjective | apps/web/src/lib/calendar.ts:41-42 | Different days have different keys |
| Calendar.DayKeyReads | apps/web/src/lib/calendar.ts:41-42 | A key reads as year, month and day, "YYYY-MM-DD" for years of four digits |
| Calendar.StepsInMilliseconds | apps/web/src/lib/calendar.ts:94 | Cells step by 86,400,000 ms of absolute time, local days have as many of the local clock |
| Birthdays.ComputeUpcomingBirthdays | apps/api/src/academies/domain/academy.service.ts:285-311 | The entries of the persons shown, by distance and then by name |
| Birthdays.NextBirthdayIsLeast | apps/api/src/academies/domain/academy.service.ts:295-299 | The date is the least anniversary on or after today, at most 365 days away |
| Birthdays.AnniversaryIsBirthday | apps/api/src/academies/domain/academy.service.ts:295-298 | An anniversary is the day and month of birth, but 1 March for 29 February in a common year |
| Birthdays.ShownExactly | apps/api/src/academies/domain/academy.service.ts:297-300 | A person is shown if and only if some anniversary of theirs falls in the window |
| Birthdays.EachInWindowOnce | apps/api/src/academies/domain/academy.service.ts:293-307 | Each person with a birthday in the window has exactly one entry, with their id, name, date and distance, and nobody else has any |
| Birthdays.EntriesInWindow | apps/api/src/academies/domain/academy.service.ts:299-306 | daysUntil is between 0 and the window and is the distance to the date |
| Birthdays.LeapDayRolls | apps/api/src/academies/domain/academy.service.ts:278-284 | 29 February falls on 1 March exactly in common years |
| Levels.AcademyTables.CreateEnrollment | apps/api/src/academies/infrastructure/academies.controller.ts:1867-1896 | Adds one row per class type at a lowest level of the catalogue, keeping one level per type |
| Levels.AcademyTables.SetLevels | apps/api/src/academies/infrastructure/academies.controller.ts:3475-3529 | For one call at a time: each error exactly in its case and order, with nothing changed; otherwise exactly this enrolment's rows are replaced, keeping one level per type |
| Levels.SerialSetLevels | apps/api/src/academies/infrastructure/academies.controller.ts:3523-3528 | Of two calls in sequence the second leaves one level per type and nothing of the first |
| Levels.OverlappingSetLevelsExactly | apps/api/src/academies/infrastructure/academies.controller.ts:3523-3528 | If both delete before either creates, one level per type is left if and only if the calls name no two levels of one type |
| Levels.TwoLevelsAtOnce | apps/api/src/academies/infrastructure/academies.controller.ts:3523-3528 | Two calls that leave a student with two levels of a type |
| Levels.CountLevels | apps/api/src/academies/infrastructure/academies.controller.ts:2612-2620 | One pass gives the count of every (type, level) and the enrolments of every type |
| Levels.CountsAddUp | apps/api/src/academies/infrastructure/academies.controller.ts:2610-2638 | Unassigned counts the active enrolments with no level of the type; with the counts shown it never exceeds the active enrolments, and makes them up if and only if every assigned level is in the academy's line |
| Levels.NewEnrollmentCounts | apps/api/src/academies/infrastructure/academies.controller.ts:1867-1896 | A new active enrolment adds one to the counts shown if its base level is in the academy's line, else nothing, and is never unassigned |
| Levels.BaseLevelOutsideLine | apps/api/src/academies/infrastructure/academies.controller.ts:1870-1876 | A catalogue whose lowest level is another academy's: whatever base level is chosen, the new student is in neither number |
| GenderAverages.SlotAverages | apps/api/src/academies/infrastructure/academies.controller.ts:2660-2756 | The corrected rounded means of the latest eight classes, none without classes |
| GenderAverages.AveragesExactly | apps/api/src/academies/infrastructure/academies.controller.ts:2660-2756 | The rounded mean attendance of the latest eight classes, of which the side with the smaller rounded mean of declared attendees shows just that, the other the rest |
| GenderAverages.CorrectionKeepsTheSmaller | apps/api/src/academies/infrastructure/academies.controller.ts:2738-2756 | Male plus female is the attendance, both non-negative, the smaller side as rounded; each moves by at most 1 when every attendee declared M or F |
| GenderAverages.MeansOfParts | apps/api/src/academies/infrastructure/academies.controller.ts:2731-2741 | Separately rounded means of two parts miss the rounded whole by at most 1, and never exceed it singly |
| GenderAverages.UndeclaredGoToTheLarger | apps/api/src/academies/infrastructure/academies.controller.ts:2748-2755 | The larger side moves by exactly attendance less both rounded sides, which is the rounded mean number of undeclared attendees give or take one |
| GenderAverages.UndeclaredShowAsMen | apps/api/src/academies/infrastructure/academies.controller.ts:2748-2755 | One man and three undeclared attendees show as four men |
| Payments.CountedIsAccepted | apps/api/src/academies/infrastructure/academies.controller.ts:1541-1551 | A gateway payment the KPI counts is one the detail view accepts if plan ids decode to plans of their academy (a private lesson in any case), and never a claim's |
| Payments.CountedExactly | apps/api/src/academies/infrastructure/academies.controller.ts:1541-1551 | The KPI counts paid payments only: memberships that begin with a plan of the academy, private lessons that begin with the academy, and nothing else |
| Payments.AcceptedExactly | apps/api/src/academies/infrastructure/academies.controller.ts:1680-1701 | The detail view opens a platform invoice, membership or workshop by the id between the first two underscores, looked up in the table of its own kind |
| Payments.AcceptedOthersExactly | apps/api/src/academies/infrastructure/academies.controller.ts:1702-1713 | A private lesson opens for the academy it names, a claim for the academy that has it, any other reference for none |
| Payments.CountedIsAcceptedExactly | apps/api/src/academies/infrastructure/academies.controller.ts:1694-1700 | Every counted membership is accepted if and only if each plan id, up to its first underscore, is a plan of the same academy |
| Payments.PlainIdsAccepted | apps/api/src/academies/infrastructure/academies.controller.ts:1541-1551 | With plan ids without underscores every counted payment is accepted and no claim's |
| Payments.CountedOnce | apps/api/src/academies/infrastructure/academies.controller.ts:1541-1551 | With ids without underscores a payment counts for one academy only |
| Payments.MembershipCountedOnceExactly | apps/api/src/academies/infrastructure/academies.controller.ts:1543-1546 | Every membership payment counts for at most one academy if and only if no plan id followed by "_" begins another academy's |
| Payments.PrivateCountedOnceExactly | apps/api/src/academies/infrastructure/academies.controller.ts:1547 | Some private lesson counts for two academies if and only if one id followed by "_" begins the other |
| Payments.MembershipCountedExactly | apps/api/src/academies/infrastructure/academies.controller.ts:1694-1700 | If plan ids so decode, a paid membership counts if and only if the detail view accepts it and its reference goes on after the plan id |
| Payments.PrefixMeansSecond | apps/api/src/academies/infrastructure/academies.controller.ts:1694-1696 | Matching the prefix of an id and decoding that id from the reference agree |
| Payments.UnderscoreCountsTwice | apps/api/src/academies/infrastructure/academies.controller.ts:1541-1547 | With an underscore in a plan id two academies count one payment, and one of them cannot open it |
| Payments.Totals | apps/api/src/academies/infrastructure/academies.controller.ts:1590-1633 | Each label holds its own takings, every label used has an entry, and together they are billedMonth |
| Payments.SumsExactly | apps/api/src/academies/infrastructure/academies.controller.ts:1613-1633 | Each charge enters the total, and its own method's, once and in full |
| ProducerScope.ScopeNeverWidens | apps/api/src/query/query.service.ts:557-571 | No scope reaches an event that no scope would not |
| ProducerScope.ScopeExactly | apps/api/src/query/query.service.ts:536-613 | What a producer reaches with a scope and without one, from the tables |
| ProducerScope.ReachedExactly | apps/api/src/query/query.service.ts:580-613 | An event is reached by a list of scopes if and only if its own id or its own series' unshadowed id is in it |
| ProducerScope.OptionsCoverExactly | apps/api/src/query/query.service.ts:618-647 | The options offered reach the full set if and only if every event is covered; below the cap, if and only if no series of another producer's event shares its id with an own event |
| ProducerScope.OfferedExactly | apps/api/src/query/query.service.ts:618-647 | The options are the first 300 series and the first 300 events |
| ProducerScope.ShadowedSeries | apps/api/src/query/query.service.ts:585-597 | A series with the id of an own event hides its event of another producer |
| ProducerScope.CapLoses | apps/api/src/query/query.service.ts:628 | An event without a series is lost exactly past the cap |

## Left out

- JobProtocol.InvRuns: over runs in which `sync` closes runs and clears claims only while no execution uses them, which the code does not check; JobSync says exactly what each statement breaks otherwise, and JobSchedule and the caches need no such care.
- JobProtocol.InvStep: the same condition on those two steps.
- JobTheorems.StaleDueListRunsSlotTwice: one run; the condition for all runs is JobSchedule.StaleClaimExactly, which speaks of jobs not edited since the due list was read and of finishes no earlier on the clock than the due list.
- JobTheorems.FinishOverwritesEdit: one run; the condition for all is JobSchedule.FinishFollowsScheduleExactly.
- TtlCache.TornExactly: the "only then" speaks of rows that do not come back to a value they left; a pair that crossed may otherwise equal a stored one by chance.
- Database failures inside `finish`: each of its writes succeeds or the process crashes; a failure that sends the code into its `catch` after the OK write is not modelled.
- `sync` is four kinds of statements the protocol takes in any order and any number, which includes the code's order; its find-then-create per key is one upsert.
- JobRun.meta, actorId, audit rows, labels, descriptions, defaultCron and process restarts with a new handler registry; a run of a job without a handler is left RUNNING, as in the code.
- JobsService.JobsService.RunNow: the background part of the execution is the separate method FinishRun; what happens in between is the protocol's business.
- CacheServices.ParamsService.GetProducerParams: the columns of ProducerParams are one value, and a method runs without interruption; what happens between its awaits is the state machine's business.
- Fees.ManagedConserves: rates are exact rationals, not IEEE doubles; amounts are whole pesos; iva of -100 percent is excluded. resolvePlatformFeeRate is one line.
- Csv.CsvRowsToObjects: trim, lower-casing and NFC are parameters, and String(v) of a cell is given; a header called `__proto__` is an ordinary key here.
- Merge.MergeDict: the keys `__proto__` and names inherited from Object.prototype are ordinary keys; the other catalogue value kinds are text, null and arrays.
- ClTime.WeekStartPartitionsTime: assumes Chile's two offsets, UTC-3 and UTC-4, and a process in UTC; the wall clock is not truncated to seconds, and years 0 to 99, which Date.UTC reads as 1900 to 1999, are read as written.
- Calendar.GridRightExactly: the zone changes its offset at most once, by less than half a day; grids that see two changes do not occur in a six-week span of a zone in use.
- Birthdays.ComputeUpcomingBirthdays: today is a UTC midnight; the library sort is an insertion sort over a total preorder on names.
- Levels.CountLevels: keys are pairs instead of the text "type:level".
- Levels.AcademyTables.SetLevels: one call runs to its end before the next; overlapping transactions are the three lemmas beside it. Two that create the same row would fail on its key, which is not modelled.
- GenderAverages.SlotAverages: one slot's classes, already grouped and in the query's order; capacity and next-class figures are left out.
- Payments.CountedIsAccepted: the database client's startsWith in the KPI's filter is taken as literal prefix matching; as a LIKE pattern without escaping, "_" would match any character.
- Payments.Totals: the list of rows is given; average ticket, top three methods and the previous month repeat it.
- ProducerScope.OptionsCoverExactly: the producer's lens only; the ADMIN and ACADEMY_OWNER branches and academyScoped are plain membership tests.
- groupCourseSurveys, computeDashboard, computeActiveStudentsKpis, effectiveCapacity, enrolment transitions and the can* predicates: short formulas or tables.
- Cron parsing, ICU time zones, HTTP guards, DTOs, e-mail, sockets, PDF, storage, settlement, bookings and the user interface.
- Text is a sequence of code units or characters, without normalisation or collation.
