/** The weekly snapshot of academy-segment-snapshots.service.ts: one row per academy and week, the last run wins. */
module SegmentSnapshots {
  import opened Wrappers
  import opened Civil
  import opened ClTime

  datatype Score = Score(actorId: string, segment: Option<string>)

  /** Primary key of a snapshot row: academy and week start. */
  type Key = (string, int)

  function SegmentName(s: Score): string {
    s.segment.GetOr("NONE")
  }

  function Count(scores: seq<Score>, academy: string, segment: string): nat {
    if scores == [] then 0
    else
      var last := scores[|scores| - 1];
      var counted := last.actorId == academy
                     && (last.segment == Some(segment) || (last.segment == None && segment == "NONE"));
      Count(scores[..|scores| - 1], academy, segment) + (if counted then 1 else 0)
  }

  /** The counters of one academy: one per segment it has a score in. */
  ghost predicate IsDistribution(d: map<string, nat>, scores: seq<Score>, academy: string) {
    forall g :: if g in d then d[g] == Count(scores, academy, g) > 0 else Count(scores, academy, g) == 0
  }

  ghost predicate HasScore(scores: seq<Score>, academy: string) {
    exists i :: 0 <= i < |scores| && scores[i].actorId == academy
  }

  function Academies(scores: seq<Score>): set<string> {
    set i | 0 <= i < |scores| :: scores[i].actorId
  }

  /** One row of `week` written for each academy with a score; every other row as it was. */
  ghost predicate Upserted(before: map<Key, map<string, nat>>, after: map<Key, map<string, nat>>, week: int,
      scores: seq<Score>) {
    && (forall a, w :: (a, w) in after <==> (a, w) in before || (w == week && HasScore(scores, a)))
    && (forall a :: HasScore(scores, a) ==> IsDistribution(after[(a, week)], scores, a))
    && (forall a, w :: (a, w) in before && !(w == week && HasScore(scores, a)) ==> after[(a, w)] == before[(a, w)])
  }

  function CountersOf(dist: map<string, map<string, nat>>, academy: string): map<string, nat> {
    if academy in dist then dist[academy] else map[]
  }

  /** The counters of every academy, and no academy without a score. */
  ghost predicate Distributes(dist: map<string, map<string, nat>>, scores: seq<Score>) {
    forall a :: (a in dist <==> HasScore(scores, a)) && IsDistribution(CountersOf(dist, a), scores, a)
  }

  lemma CountMore(scores: seq<Score>, s: Score, a: string, g: string)
    ensures Count(scores + [s], a, g) ==
            Count(scores, a, g) + (if s.actorId == a && SegmentName(s) == g then 1 else 0)
  {
    assert (scores + [s])[..|scores|] == scores;
  }

  lemma CountersStep(d: map<string, nat>, scores: seq<Score>, s: Score, a: string)
    requires IsDistribution(d, scores, a)
    ensures var k := SegmentName(s);
            IsDistribution(if a == s.actorId then d[k := (if k in d then d[k] else 0) + 1] else d, scores + [s], a)
  {
    hide SegmentName, Count;
    var k := SegmentName(s);
    var after := if a == s.actorId then d[k := (if k in d then d[k] else 0) + 1] else d;
    forall g ensures if g in after then after[g] == Count(scores + [s], a, g) > 0 else Count(scores + [s], a, g) == 0 {
      CountMore(scores, s, a, g);
    }
  }

  lemma DistributesStep(dist: map<string, map<string, nat>>, scores: seq<Score>, s: Score)
    requires Distributes(dist, scores)
    ensures var d, k := CountersOf(dist, s.actorId), SegmentName(s);
            Distributes(dist[s.actorId := d[k := (if k in d then d[k] else 0) + 1]], scores + [s])
  {
    var d, k, more := CountersOf(dist, s.actorId), SegmentName(s), scores + [s];
    var after := dist[s.actorId := d[k := (if k in d then d[k] else 0) + 1]];
    hide IsDistribution, HasScore, SegmentName;
    forall a ensures (a in after <==> HasScore(more, a)) && IsDistribution(CountersOf(after, a), more, a) {
      assert more[..|scores|] == scores && more[..|more|] == more;
      HasScoreGrows(more, |scores|, a);
      CountersStep(CountersOf(dist, a), scores, s, a);
    }
  }

  lemma DistributesAll(dist: map<string, map<string, nat>>, scores: seq<Score>)
    requires Distributes(dist, scores)
    ensures forall a :: a in dist <==> HasScore(scores, a)
    ensures forall a :: a in dist ==> IsDistribution(dist[a], scores, a)
    ensures dist.Keys == Academies(scores)
  {
    hide IsDistribution;
    forall a ensures a in dist <==> a in Academies(scores) {
      assert a in dist <==> HasScore(scores, a);
    }
  }

  /** The rows of `week` written so far, for the academies in `done`. */
  ghost predicate Written(before: map<Key, map<string, nat>>, after: map<Key, map<string, nat>>, week: int,
                          dist: map<string, map<string, nat>>, done: set<string>)
    requires done <= dist.Keys
  {
    && (forall a, w :: (a, w) in after <==> (a, w) in before || (w == week && a in done))
    && (forall a :: a in done ==> after[(a, week)] == dist[a])
    && (forall a, w :: (a, w) in before && !(w == week && a in done) ==> after[(a, w)] == before[(a, w)])
  }

  lemma NothingWritten(rows: map<Key, map<string, nat>>, week: int, dist: map<string, map<string, nat>>)
    ensures Written(rows, rows, week, dist, dist.Keys - dist.Keys)
  {
  }

  lemma WrittenStep(before: map<Key, map<string, nat>>, after: map<Key, map<string, nat>>, week: int,
                    dist: map<string, map<string, nat>>, done: set<string>, a: string)
    requires done <= dist.Keys && a in dist && Written(before, after, week, dist, done)
    ensures Written(before, after[(a, week) := dist[a]], week, dist, done + {a})
  {
  }

  lemma WrittenIsUpserted(before: map<Key, map<string, nat>>, after: map<Key, map<string, nat>>, week: int,
                          dist: map<string, map<string, nat>>, scores: seq<Score>)
    requires Written(before, after, week, dist, dist.Keys)
    requires forall a :: a in dist <==> HasScore(scores, a)
    requires forall a :: a in dist ==> IsDistribution(dist[a], scores, a)
    ensures Upserted(before, after, week, scores)
  {
    hide HasScore, IsDistribution;
  }

  class SegmentSnapshotsService {
    var rows: map<Key, map<string, nat>>

    constructor ()
      ensures rows == map[]
    {
      rows := map[];
    }

    method Distribution(scores: seq<Score>) returns (dist: map<string, map<string, nat>>)
      ensures forall a :: a in dist <==> HasScore(scores, a)
      ensures forall a :: a in dist ==> IsDistribution(dist[a], scores, a)
      ensures dist.Keys == Academies(scores)
    {
      dist := map[];
      for i := 0 to |scores|
        invariant Distributes(dist, scores[..i])
      {
        assert scores[..i + 1] == scores[..i] + [scores[i]];
        DistributesStep(dist, scores[..i], scores[i]);
        var s := scores[i];
        var d := CountersOf(dist, s.actorId);
        var k := SegmentName(s);
        d := d[k := (if k in d then d[k] else 0) + 1];
        dist := dist[s.actorId := d];
        hide Distributes;
      }
      assert scores[..|scores|] == scores;
      DistributesAll(dist, scores);
    }

    method RunDaily(off: Offset, now: int, scores: seq<Score>) returns (academies: nat)
      modifies this
      ensures Upserted(old(rows), rows, ClWeekStart(off, now), scores)
      ensures academies == |Academies(scores)|
    {
      hide ClWeekStart;
      var week := ClWeekStart(off, now);
      var dist := Distribution(scores);
      academies := |dist|;
      assert academies == |dist.Keys|;
      var left := dist.Keys;
      hide Written, IsDistribution, HasScore, Upserted, Academies;
      NothingWritten(rows, week, dist);
      while left != {}
        invariant left <= dist.Keys
        invariant Written(old(rows), rows, week, dist, dist.Keys - left)
        decreases left
      {
        var a :| a in left;
        WrittenStep(old(rows), rows, week, dist, dist.Keys - left, a);
        assert dist.Keys - (left - {a}) == dist.Keys - left + {a};
        rows := rows[(a, week) := dist[a]];
        left := left - {a};
      }
      assert dist.Keys - left == dist.Keys;
      WrittenIsUpserted(old(rows), rows, week, dist, scores);
    }
  }

  // ---------------------------------------------------------------- many runs

  /** One run of the job: when, and what the scores were. */
  datatype Daily = Daily(now: int, scores: seq<Score>)

  /** Monday of the week the clock in Chile shows at a run. */
  function WeekOf(off: Offset, d: Daily): int {
    Monday(WallDay(off, d.now))
  }

  function RowKey(off: Offset, academy: string, monday: int): Key {
    (academy, Start(off, monday, 8 * HOUR))
  }

  /** The tables before, between and after the runs. */
  ghost predicate RunsOf(off: Offset, runs: seq<Daily>, tables: seq<map<Key, map<string, nat>>>) {
    && |tables| == |runs| + 1
    && forall i: nat :: i < |runs| ==> RunAt(off, runs, tables, i)
  }

  ghost predicate RunAt(off: Offset, runs: seq<Daily>, tables: seq<map<Key, map<string, nat>>>, i: nat)
    requires i < |runs| && |tables| == |runs| + 1
  {
    Upserted(tables[i], tables[i + 1], ClWeekStart(off, runs[i].now), runs[i].scores)
  }

  /** Run i is the last in the week of `monday` with a score of the academy. */
  ghost predicate LastRun(off: Offset, runs: seq<Daily>, academy: string, monday: int, i: nat) {
    && i < |runs| && WeekOf(off, runs[i]) == monday && HasScore(runs[i].scores, academy)
    && forall k :: i < k < |runs| ==> !(WeekOf(off, runs[k]) == monday && HasScore(runs[k].scores, academy))
  }

  lemma KeysOfWeeks(off: Offset, d: Daily, academy: string, monday: int)
    requires ChileOffsets(off) || WeekOf(off, d) == monday
    ensures RowKey(off, academy, monday) == (academy, ClWeekStart(off, d.now)) <==> WeekOf(off, d) == monday
  {
    hide ClWeekStart, Start, WallDay;
    WeekStartIsMondays(off, d.now);
    if ChileOffsets(off) { StartsDiffer(off, WeekOf(off, d), monday, 8 * HOUR); }
  }

  /** However many runs there were and whatever the clocks did, an academy has one row for a week, that of the last run
      of the week that saw a score of it; without such a run the row is as it was before all runs. For the runs of a
      single week the offsets may be any function at all. */
  lemma {:induction false} OneRowPerWeek(off: Offset, runs: seq<Daily>, tables: seq<map<Key, map<string, nat>>>,
                                         academy: string, monday: int)
    requires ChileOffsets(off) || forall i :: 0 <= i < |runs| ==> WeekOf(off, runs[i]) == monday
    requires RunsOf(off, runs, tables)
    ensures var k, last := RowKey(off, academy, monday), tables[|runs|];
            && (forall i: nat :: LastRun(off, runs, academy, monday, i) ==>
                  k in last && IsDistribution(last[k], runs[i].scores, academy))
            && ((forall i: nat :: !LastRun(off, runs, academy, monday, i)) ==>
                  (k in last <==> k in tables[0]) && (k in last ==> last[k] == tables[0][k]))
    decreases |runs|
  {
    hide ClWeekStart, IsDistribution, HasScore, WeekOf, RowKey, ChileOffsets;
    if runs != [] {
      var n, k := |runs| - 1, RowKey(off, academy, monday);
      var d, front := runs[n], runs[..n];
      assert tables[..|runs|][n] == tables[n];
      forall i: nat | i < n ensures RunAt(off, front, tables[..|runs|], i) { assert RunAt(off, runs, tables, i); }
      OneRowPerWeek(off, front, tables[..|runs|], academy, monday);
      KeysOfWeeks(off, d, academy, monday);
      assert RunAt(off, runs, tables, n);
      assert k.0 == academy by { NameOfKey(off, academy, monday); }
      if WeekOf(off, d) == monday && HasScore(d.scores, academy) {
        assert k == (academy, ClWeekStart(off, d.now)) && LastRun(off, runs, academy, monday, n);
        forall i: nat | LastRun(off, runs, academy, monday, i) ensures i == n {}
      } else {
        RowKept(tables[n], tables[n + 1], ClWeekStart(off, d.now), d.scores, k);
        forall i: nat ensures LastRun(off, runs, academy, monday, i) <==> LastRun(off, front, academy, monday, i) {
          LastOfFront(off, runs, academy, monday, i);
        }
      }
    }
  }

  lemma RowKept(before: map<Key, map<string, nat>>, after: map<Key, map<string, nat>>, week: int, scores: seq<Score>,
      k: Key)
    requires Upserted(before, after, week, scores) && !(k.1 == week && HasScore(scores, k.0))
    ensures (k in after <==> k in before) && (k in before ==> after[k] == before[k])
  {
    hide HasScore, IsDistribution;
    assert k == (k.0, k.1);
  }

  lemma NameOfKey(off: Offset, academy: string, monday: int)
    ensures RowKey(off, academy, monday).0 == academy
  {
  }

  lemma LastOfFront(off: Offset, runs: seq<Daily>, academy: string, monday: int, i: nat)
    requires runs != [] && !(WeekOf(off, runs[|runs| - 1]) == monday && HasScore(runs[|runs| - 1].scores, academy))
    ensures LastRun(off, runs, academy, monday, i) <==> LastRun(off, runs[..|runs| - 1], academy, monday, i)
  {
    hide WeekOf, HasScore;
    var front := runs[..|runs| - 1];
    assert forall k :: 0 <= k < |front| ==> front[k] == runs[k];
    if LastRun(off, front, academy, monday, i) {
      forall k | i < k < |runs| ensures !(WeekOf(off, runs[k]) == monday && HasScore(runs[k].scores, academy)) {
        if k < |front| { assert front[k] == runs[k]; }
      }
    }
    if LastRun(off, runs, academy, monday, i) { assert i < |front|; }
  }

  /** Two runs write the same row for an academy if and only if the clock in Chile shows days of one week at both;
      that they do when it does holds whatever the offsets are. */
  lemma SameRowExactly(off: Offset, d: Daily, e: Daily)
    ensures WeekOf(off, d) == WeekOf(off, e) ==> ClWeekStart(off, d.now) == ClWeekStart(off, e.now)
    ensures ChileOffsets(off) && ClWeekStart(off, d.now) == ClWeekStart(off, e.now) ==> WeekOf(off, d) == WeekOf(off, e)
  {
    hide ClWeekStart;
    WeekStartIsMondays(off, d.now);
    WeekStartIsMondays(off, e.now);
    if ChileOffsets(off) { SameWeekExactly(off, d.now, e.now); }
  }

  lemma HasScoreGrows(scores: seq<Score>, i: nat, a: string)
    requires i < |scores|
    ensures HasScore(scores[..i + 1], a) <==> HasScore(scores[..i], a) || a == scores[i].actorId
  {
    if HasScore(scores[..i], a) {
      var k :| 0 <= k < i && scores[..i][k].actorId == a;
      assert scores[..i + 1][k].actorId == a;
    }
    if a == scores[i].actorId { assert scores[..i + 1][i].actorId == a; }
    if HasScore(scores[..i + 1], a) && a != scores[i].actorId {
      var k :| 0 <= k < i + 1 && scores[..i + 1][k].actorId == a;
      assert scores[..i][k].actorId == a;
    }
  }
}
