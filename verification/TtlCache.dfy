/**
  The caches of feature-flags.service.ts and params.service.ts as a state machine: one
  key, any number of processes, each with its own cache, over rows anyone may write.
  Every database call takes part of a round trip, and anything may happen meanwhile.
  A flag or a parameter is one row; the producer defaults are read from two rows at once.
*/
module TtlCache {
  import opened Wrappers
  import opened TwoRows

  const TTL := 30_000

  datatype Entry<V> = Entry(value: V, at: int)

  predicate IsFresh<V>(e: Entry<V>, now: int) {
    now - e.at < TTL
  }

  /** d: the longest round trip. A write either stores its value in the cache (flags) or drops the entry (params). */
  datatype Config = Config(rows: nat, d: nat, writeThrough: bool)

  datatype Op<V> =
    | Reading(proc: nat, start: int, got: seq<Option<V>>)
    | Writing(proc: nat, start: int, row: nat, value: V, done: bool)

  datatype System<V> = System(now: int, rows: seq<V>, cache: map<nat, Entry<seq<V>>>, ops: map<nat, Op<V>>)

  datatype Action<V> =
    | Advance(dt: nat)
    | BeginRead(id: nat, proc: nat)
    | Observe(id: nat, row: nat)
    | FinishRead(id: nat)
    | BeginWrite(id: nat, proc: nat, row: nat, value: V)
    | Commit(id: nat)
    | FinishWrite(id: nat)
    | Foreign(row: nat, value: V) // a write by code that does not go through this service
    | Abort(id: nat)              // the database call throws
    | Crash(proc: nat)

  ghost predicate Init<V>(cfg: Config, s: System<V>) {
    |s.rows| == cfg.rows && s.cache == map[] && s.ops == map[]
  }

  predicate Hits<V>(s: System<V>, proc: nat) {
    proc in s.cache && IsFresh(s.cache[proc], s.now)
  }

  predicate ReadDone<V>(s: System<V>, id: nat) {
    id in s.ops && s.ops[id].Reading? && forall i :: 0 <= i < |s.ops[id].got| ==> s.ops[id].got[i].Some?
  }

  /** What a completed read hands to its caller, and caches. */
  function Values<V>(s: System<V>, id: nat): (r: seq<V>)
    requires ReadDone(s, id)
    ensures |r| == |s.ops[id].got|
  {
    seq(|s.ops[id].got|, i requires 0 <= i < |s.ops[id].got| => s.ops[id].got[i].value)
  }

  ghost predicate Enabled<V>(cfg: Config, s: System<V>, a: Action<V>) {
    match a
    case Advance(dt) => forall id :: id in s.ops ==> s.now + dt <= s.ops[id].start + cfg.d
    case BeginRead(id, p) => id !in s.ops && !Hits(s, p)
    case Observe(id, i) => id in s.ops && s.ops[id].Reading? && i < |s.ops[id].got| && i < |s.rows|
        && s.ops[id].got[i].None?
    case FinishRead(id) => ReadDone(s, id)
    case BeginWrite(id, _, i, _) => id !in s.ops && i < |s.rows|
    case Commit(id) => id in s.ops && s.ops[id].Writing? && !s.ops[id].done && s.ops[id].row < |s.rows|
    case FinishWrite(id) => id in s.ops && s.ops[id].Writing? && s.ops[id].done
    case Foreign(i, _) => i < |s.rows|
    case Abort(id) => id in s.ops
    case Crash(_) => true
  }

  ghost function Apply<V>(cfg: Config, s: System<V>, a: Action<V>): System<V>
    requires Enabled(cfg, s, a)
  {
    match a
    case Advance(dt) => s.(now := s.now + dt)
    case BeginRead(id, p) => s.(ops := s.ops[id := Reading(p, s.now, seq(cfg.rows, _ => None))])
    case Observe(id, i) => s.(ops := s.ops[id := s.ops[id].(got := s.ops[id].got[i := Some(s.rows[i])])])
    case FinishRead(id) => s.(cache := s.cache[s.ops[id].proc := Entry(Values(s, id), s.now)], ops := s.ops - {id})
    case BeginWrite(id, p, i, v) => s.(ops := s.ops[id := Writing(p, s.now, i, v, false)])
    case Commit(id) => s.(rows := s.rows[s.ops[id].row := s.ops[id].value],
        ops := s.ops[id := s.ops[id].(done := true)])
    case FinishWrite(id) =>
      var p := s.ops[id].proc;
      s.(cache := if cfg.writeThrough then s.cache[p := Entry([s.ops[id].value], s.now)] else s.cache - {p},
          ops := s.ops - {id})
    case Foreign(i, v) => s.(rows := s.rows[i := v])
    case Abort(id) => s.(ops := s.ops - {id})
    case Crash(p) => s.(cache := s.cache - {p}, ops := map id | id in s.ops && s.ops[id].proc != p :: s.ops[id])
  }

  ghost predicate NextBy<V(!new)>(cfg: Config, s: System<V>, a: Action<V>, s': System<V>) {
    Enabled(cfg, s, a) && s' == Apply(cfg, s, a)
  }

  ghost predicate Next<V(!new)>(cfg: Config, s: System<V>, s': System<V>) {
    exists a :: NextBy(cfg, s, a, s')
  }

  /** Consecutive states of the installation, from any state. */
  ghost predicate Steps<V(!new)>(cfg: Config, tr: seq<System<V>>) {
    |tr| > 0 && forall i: nat :: i + 1 < |tr| ==> StepAt(cfg, tr, i)
  }

  ghost predicate StepAt<V(!new)>(cfg: Config, tr: seq<System<V>>, i: nat)
    requires i + 1 < |tr|
  {
    Next(cfg, tr[i], tr[i + 1])
  }

  ghost predicate Behavior<V(!new)>(cfg: Config, tr: seq<System<V>>) {
    && (cfg.writeThrough ==> cfg.rows == 1)
    && Steps(cfg, tr) && Init(cfg, tr[0])
  }

  /** Operation o is in flight from step c until step k: ids are not reused while in use, so it is the same one. */
  ghost predicate Spans<V(!new)>(tr: seq<System<V>>, c: nat, k: nat, o: nat)
    requires k < |tr|
  {
    forall j: nat :: c <= j <= k ==> o in tr[j].ops
  }

  // ---------------------------------------------------------------- bounded staleness

  /** Row i held v at some instant not before `since`, up to state n. */
  ghost predicate Held<V(!new)>(tr: seq<System<V>>, n: nat, i: nat, v: V, since: int) {
    exists k: nat :: HeldAt(tr, n, k, i, v, since)
  }

  ghost predicate HeldAt<V(!new)>(tr: seq<System<V>>, n: nat, k: nat, i: nat, v: V, since: int) {
    k <= n && k < |tr| && i < |tr[k].rows| && tr[k].rows[i] == v && since <= tr[k].now
  }

  ghost predicate OpOk<V(!new)>(cfg: Config, tr: seq<System<V>>, n: nat, op: Op<V>)
    requires n < |tr|
  {
    && op.start <= tr[n].now <= op.start + cfg.d
    && match op
       case Reading(_, start, got) =>
         |got| == cfg.rows && forall i :: 0 <= i < |got| && got[i].Some? ==> Held(tr, n, i, got[i].value, start)
       case Writing(_, start, i, v, done) => i < cfg.rows && (done ==> Held(tr, n, i, v, start))
  }

  ghost predicate EntryOk<V(!new)>(cfg: Config, tr: seq<System<V>>, n: nat, e: Entry<seq<V>>) {
    |e.value| == cfg.rows && forall i :: 0 <= i < cfg.rows ==> Held(tr, n, i, e.value[i], e.at - cfg.d)
  }

  ghost predicate Inv<V(!new)>(cfg: Config, tr: seq<System<V>>, n: nat)
    requires n < |tr|
  {
    && |tr[n].rows| == cfg.rows
    && (forall p :: p in tr[n].cache ==> EntryOk(cfg, tr, n, tr[n].cache[p]))
    && (forall id :: id in tr[n].ops ==> OpOk(cfg, tr, n, tr[n].ops[id]))
  }

  lemma HeldOn<V(!new)>(tr: seq<System<V>>, n: nat, i: nat, v: V, since: int, n': nat, since': int)
    requires Held(tr, n, i, v, since) && n <= n' && since' <= since
    ensures Held(tr, n', i, v, since')
  {
    var k: nat :| HeldAt(tr, n, k, i, v, since);
    assert HeldAt(tr, n', k, i, v, since');
  }

  lemma EntryStaysOk<V(!new)>(cfg: Config, tr: seq<System<V>>, n: nat, e: Entry<seq<V>>)
    requires EntryOk(cfg, tr, n, e)
    ensures EntryOk(cfg, tr, n + 1, e)
  {
    forall i | 0 <= i < cfg.rows ensures Held(tr, n + 1, i, e.value[i], e.at - cfg.d) {
      HeldOn(tr, n, i, e.value[i], e.at - cfg.d, n + 1, e.at - cfg.d);
    }
  }

  lemma OpStaysOk<V(!new)>(cfg: Config, tr: seq<System<V>>, n: nat, op: Op<V>)
    requires n + 1 < |tr| && OpOk(cfg, tr, n, op) && op.start <= tr[n + 1].now <= op.start + cfg.d
    ensures OpOk(cfg, tr, n + 1, op)
  {
    match op
    case Reading(_, start, got) =>
      forall i | 0 <= i < |got| && got[i].Some? ensures Held(tr, n + 1, i, got[i].value, start) {
        HeldOn(tr, n, i, got[i].value, start, n + 1, start);
      }
    case Writing(_, start, i, v, done) =>
      if done { HeldOn(tr, n, i, v, start, n + 1, start); }
  }

  /** A read that ends now cached only values that were stored since it began. */
  lemma ReadFills<V(!new)>(cfg: Config, tr: seq<System<V>>, n: nat, id: nat)
    requires n < |tr| && Inv(cfg, tr, n) && ReadDone(tr[n], id)
    ensures EntryOk(cfg, tr, n, Entry(Values(tr[n], id), tr[n].now))
  {
    var op, e := tr[n].ops[id], Entry(Values(tr[n], id), tr[n].now);
    assert OpOk(cfg, tr, n, op);
    forall i | 0 <= i < cfg.rows ensures Held(tr, n, i, e.value[i], e.at - cfg.d) {
      HeldOn(tr, n, i, op.got[i].value, op.start, n, e.at - cfg.d);
    }
  }

  lemma InvOps<V(!new)>(cfg: Config, tr: seq<System<V>>, n: nat, a: Action<V>, id: nat)
    requires n + 1 < |tr| && Inv(cfg, tr, n) && NextBy(cfg, tr[n], a, tr[n + 1]) && id in tr[n + 1].ops
    ensures OpOk(cfg, tr, n + 1, tr[n + 1].ops[id])
  {
    var op := tr[n + 1].ops[id];
    if id in tr[n].ops {
      var was := tr[n].ops[id];
      assert OpOk(cfg, tr, n, was);
      OpStaysOk(cfg, tr, n, was);
      if a == Commit(id) {
        assert HeldAt(tr, n + 1, n + 1, op.row, op.value, op.start);
      } else if a.Observe? && a.id == id {
        assert HeldAt(tr, n + 1, n + 1, a.row, tr[n].rows[a.row], op.start);
      }
    }
  }

  lemma InvStep<V(!new)>(cfg: Config, tr: seq<System<V>>, n: nat)
    requires n + 1 < |tr| && Inv(cfg, tr, n) && Next(cfg, tr[n], tr[n + 1])
    requires cfg.writeThrough ==> cfg.rows == 1
    ensures Inv(cfg, tr, n + 1)
  {
    var a :| NextBy(cfg, tr[n], a, tr[n + 1]);
    var s' := tr[n + 1];
    forall id | id in s'.ops ensures OpOk(cfg, tr, n + 1, s'.ops[id]) { InvOps(cfg, tr, n, a, id); }
    forall p | p in s'.cache ensures EntryOk(cfg, tr, n + 1, s'.cache[p]) {
      var e := s'.cache[p];
      if p in tr[n].cache && tr[n].cache[p] == e {
        EntryStaysOk(cfg, tr, n, e);
      } else if a.FinishRead? {
        ReadFills(cfg, tr, n, a.id);
        EntryStaysOk(cfg, tr, n, e);
      } else {
        var op := tr[n].ops[a.id];
        assert OpOk(cfg, tr, n, op);
        HeldOn(tr, n, 0, op.value, op.start, n + 1, e.at - cfg.d);
      }
    }
  }

  lemma {:induction false} InvAlways<V(!new)>(cfg: Config, tr: seq<System<V>>, n: nat)
    requires Behavior(cfg, tr) && n < |tr|
    ensures Inv(cfg, tr, n)
  {
    if n > 0 {
      InvAlways(cfg, tr, n - 1);
      assert StepAt(cfg, tr, n - 1);
      InvStep(cfg, tr, n - 1);
    }
  }

  /** A value returned from the cache at time t was stored, row by row, at some instant in (t - TTL - d, t]. */
  lemma HitIsBoundedStale<V(!new)>(cfg: Config, tr: seq<System<V>>, n: nat, proc: nat, i: nat)
    requires Behavior(cfg, tr) && n < |tr| && Hits(tr[n], proc) && i < cfg.rows
    ensures |tr[n].cache[proc].value| == cfg.rows
    ensures Held(tr, n, i, tr[n].cache[proc].value[i], tr[n].now - 30_000 - cfg.d + 1)
  {
    InvAlways(cfg, tr, n);
    var e := tr[n].cache[proc];
    assert EntryOk(cfg, tr, n, e);
    HeldOn(tr, n, i, e.value[i], e.at - cfg.d, n, tr[n].now - TTL - cfg.d + 1);
  }

  /** A value returned by a query at time t was stored, row by row, at some instant in [t - d, t]. */
  lemma MissIsBoundedStale<V(!new)>(cfg: Config, tr: seq<System<V>>, n: nat, id: nat, i: nat)
    requires Behavior(cfg, tr) && n < |tr| && ReadDone(tr[n], id) && i < cfg.rows
    ensures |Values(tr[n], id)| == cfg.rows
    ensures Held(tr, n, i, Values(tr[n], id)[i], tr[n].now - cfg.d)
  {
    InvAlways(cfg, tr, n);
    ReadFills(cfg, tr, n, id);
  }

  /** A read takes the whole round trip d, and the row is written right after it was observed. */
  lemma SlowRead(d: nat) returns (tr: seq<System<bool>>)
    ensures Behavior(Config(1, d, true), tr) && |tr| == 6
    ensures tr[0].rows == tr[1].rows == tr[2].rows == [false] && tr[0].now == tr[1].now == tr[2].now == 0
    ensures tr[3].rows == tr[4].rows == tr[5].rows == [true]
    ensures tr[5].now == d && tr[5].ops == map[] && tr[5].cache == map[0 := Entry([false], d)]
  {
    var cfg := Config(1, d, true);
    var s0: System<bool> := System(0, [false], map[], map[]);
    var s2 := ReadObserved(cfg, s0, 0, 0, false);
    var s3 := s2.(rows := [true]);
    var s4 := s3.(now := d);
    assert NextBy(cfg, s2, Foreign(0, true), s3);
    assert NextBy(cfg, s3, Advance(d), s4);
    assert Values(s4, 0) == [false];
    var s5 := Apply(cfg, s4, FinishRead(0));
    assert NextBy(cfg, s4, FinishRead(0), s5);
    hide NextBy;
    tr := [s0, Started(cfg, s0, 0), s2, s3, s4, s5];
  }

  /** The bound is reached: a value returned 29,999 ms after it was cached, by a read that took d, was last stored at
      the earliest instant the bound allows, and not a millisecond later; and then it is no longer returned. */
  lemma BoundIsReached(d: nat) returns (tr: seq<System<bool>>)
    ensures Behavior(Config(1, d, true), tr) && |tr| == 8
    ensures tr[6].now == d + 29_999 && Hits(tr[6], 0) && tr[6].cache[0].value == [false]
    ensures Held(tr, 6, 0, false, tr[6].now - 30_000 - d + 1) && !Held(tr, 6, 0, false, tr[6].now - 30_000 - d + 2)
    ensures tr[7].now == d + 30_000 && 0 in tr[7].cache && !Hits(tr[7], 0)
  {
    var cfg := Config(1, d, true);
    var slow := SlowRead(d);
    var s6 := slow[5].(now := d + 29_999);
    var s7 := slow[5].(now := d + 30_000);
    assert NextBy(cfg, slow[5], Advance(29_999), s6);
    assert NextBy(cfg, s6, Advance(1), s7);
    hide NextBy, Steps;
    AppendStep(cfg, slow, s6);
    AppendStep(cfg, slow + [s6], s7);
    tr := slow + [s6] + [s7];
    assert forall k :: 0 <= k < 6 ==> tr[k] == slow[k];
    assert HeldAt(tr, 6, 0, 0, false, 0);
    forall k: nat ensures !HeldAt(tr, 6, k, 0, false, 1) {
      if k <= 6 && tr[k].rows == [false] { assert k <= 2; }
    }
  }

  /** An entry is stamped when its operation ends, not when it began: a read caches what it observed, and a write its
      value (flags) or nothing (parameters). No other entry and no row changes. */
  lemma StampedAtEnd<V(!new)>(cfg: Config, s: System<V>, id: nat)
    ensures ReadDone(s, id) ==>
              && Enabled(cfg, s, FinishRead(id))
              && Apply(cfg, s, FinishRead(id)) ==
                 System(s.now, s.rows, s.cache[s.ops[id].proc := Entry(Values(s, id), s.now)], s.ops - {id})
    ensures id in s.ops && s.ops[id].Writing? && s.ops[id].done ==>
              && Enabled(cfg, s, FinishWrite(id))
              && Apply(cfg, s, FinishWrite(id)) ==
                 System(s.now, s.rows,
                        if cfg.writeThrough then s.cache[s.ops[id].proc := Entry([s.ops[id].value], s.now)]
                        else s.cache - {s.ops[id].proc},
                        s.ops - {id})
  {
  }

  /** A crash of a process loses its cache and its operations, and nothing else. */
  lemma CrashForgets<V(!new)>(cfg: Config, s: System<V>, proc: nat)
    ensures Enabled(cfg, s, Crash(proc))
    ensures var s' := Apply(cfg, s, Crash(proc));
            && s'.rows == s.rows && s'.now == s.now && s'.cache == s.cache - {proc}
            && forall id :: (id in s'.ops <==> id in s.ops && s.ops[id].proc != proc)
                            && (id in s'.ops ==> s'.ops[id] == s.ops[id])
  {
  }

  /** So does an operation whose database call fails: it leaves cache and rows alone. */
  lemma AbortLeavesCache<V(!new)>(cfg: Config, s: System<V>, id: nat)
    requires id in s.ops
    ensures Enabled(cfg, s, Abort(id))
    ensures Apply(cfg, s, Abort(id)) == System(s.now, s.rows, s.cache, s.ops - {id})
  {
  }

  /** With two rows the bound holds row by row only: a read can return a pair that was never stored. */
  lemma TornRead() returns (tr: seq<System<bool>>)
    ensures Behavior(Config(2, 0, false), tr) && ReadDone(tr[|tr| - 1], 0)
    ensures forall k :: 0 <= k < |tr| ==> tr[k].rows != Values(tr[|tr| - 1], 0)
  {
    var cfg := Config(2, 0, false);
    var s0: System<bool> := System(0, [false, false], map[], map[]);
    var s2 := ReadObserved(cfg, s0, 0, 0, false);
    var s3 := s2.(rows := [true, false]);
    var s4 := s2.(rows := [true, true]);
    var s5 := s4.(ops := s4.ops[0 := s4.ops[0].(got := s4.ops[0].got[1 := Some(true)])]);
    assert NextBy(cfg, s2, Foreign(0, true), s3);
    assert NextBy(cfg, s3, Foreign(1, true), s4);
    assert NextBy(cfg, s4, Observe(0, 1), s5);
    assert Values(s5, 0)[0] == false && Values(s5, 0)[1] == true;
    hide NextBy;
    tr := [s0, Started(cfg, s0, 0), s2, s3, s4, s5];
  }

  /** A read of two rows that observes row i at f and the other at l returns a pair that was never stored together only
      if both rows are written in between: while the first stays it is the pair at l, while the second stays that at
      f. */
  lemma TornOnlyIfBothWritten<V(!new)>(cfg: Config, tr: seq<System<V>>, f: nat, l: nat, n: nat, id: nat, i: nat)
    requires cfg.rows == 2 && Behavior(cfg, tr) && f < l < n < |tr| && i < 2 && Spans(tr, f, n, id)
    requires NextBy(cfg, tr[f], Observe(id, i), tr[f + 1]) && NextBy(cfg, tr[l], Observe(id, 1 - i), tr[l + 1])
    ensures ReadDone(tr[n], id) && |Values(tr[n], id)| == |tr[f].rows| == |tr[l].rows| == 2
    ensures tr[l].rows[i] == tr[f].rows[i] ==> Values(tr[n], id) == tr[l].rows
    ensures tr[l].rows[1 - i] == tr[f].rows[1 - i] ==> Values(tr[n], id) == tr[f].rows
  {
    ValuesOfPair(cfg, tr, f, l, n, id, i);
  }

  ghost predicate PairRows<V(!new)>(tr: seq<System<V>>) {
    forall k: nat :: k < |tr| ==> |tr[k].rows| == 2
  }

  /** The values of row r from state f to state l. */
  ghost function Column<V(!new)>(tr: seq<System<V>>, f: nat, l: nat, r: nat): (x: seq<V>)
    requires PairRows(tr) && f <= l < |tr| && r < 2
    ensures |x| == l - f + 1 && forall k :: 0 <= k < |x| ==> x[k] == tr[f + k].rows[r]
  {
    seq(l - f + 1, k requires 0 <= k <= l - f => tr[f + k].rows[r])
  }

  /** The pair was stored at some instant from f to l. */
  ghost predicate StoredBetween<V(!new)>(tr: seq<System<V>>, f: nat, l: nat, pair: seq<V>)
    requires l < |tr|
  {
    exists k: nat :: f <= k <= l && tr[k].rows == pair
  }

  lemma PairRowsAlways<V(!new)>(cfg: Config, tr: seq<System<V>>)
    requires cfg.rows == 2 && Behavior(cfg, tr)
    ensures PairRows(tr)
  {
    forall k: nat | k < |tr| ensures |tr[k].rows| == 2 { InvAlways(cfg, tr, k); }
  }

  lemma OneRowAtATime<V(!new)>(cfg: Config, s: System<V>, s': System<V>)
    requires Next(cfg, s, s') && |s.rows| == |s'.rows| == 2
    ensures s.rows[0] == s'.rows[0] || s.rows[1] == s'.rows[1]
  {
    var a :| NextBy(cfg, s, a, s');
  }

  lemma ColumnsMoveApart<V(!new)>(cfg: Config, tr: seq<System<V>>, f: nat, l: nat, r: nat)
    requires Steps(cfg, tr) && PairRows(tr) && f <= l < |tr| && r < 2
    ensures OneAtATime(Column(tr, f, l, r), Column(tr, f, l, 1 - r))
  {
    var x, y := Column(tr, f, l, r), Column(tr, f, l, 1 - r);
    forall k: nat ensures !(Changes(x, k) && Changes(y, k)) {
      if k + 1 < |x| {
        assert StepAt(cfg, tr, f + k);
        OneRowAtATime(cfg, tr[f + k], tr[f + k + 1]);
      }
    }
  }

  lemma StoredIsMeeting<V(!new)>(tr: seq<System<V>>, f: nat, l: nat, r: nat, pair: seq<V>)
    requires PairRows(tr) && f <= l < |tr| && r < 2
    requires |pair| == 2 && pair[r] == tr[f].rows[r] && pair[1 - r] == tr[l].rows[1 - r]
    ensures StoredBetween(tr, f, l, pair) <==> Meet(Column(tr, f, l, r), Column(tr, f, l, 1 - r), l - f)
  {
    var x, y := Column(tr, f, l, r), Column(tr, f, l, 1 - r);
    if StoredBetween(tr, f, l, pair) {
      var k: nat :| f <= k <= l && tr[k].rows == pair;
      assert MeetAt(x, y, l - f, k - f);
    }
    if Meet(x, y, l - f) {
      var k :| MeetAt(x, y, l - f, k);
      assert tr[f + k].rows == pair;
    }
  }

  lemma PairStoredExactly<V(!new)>(cfg: Config, tr: seq<System<V>>, f: nat, l: nat, r: nat, pair: seq<V>)
    requires Steps(cfg, tr) && PairRows(tr) && f <= l < |tr| && r < 2
    requires |pair| == 2 && pair[r] == tr[f].rows[r] && pair[1 - r] == tr[l].rows[1 - r]
    ensures var first, second := Column(tr, f, l, r), Column(tr, f, l, 1 - r);
            && (!Crossed(first, second, l - f) ==> StoredBetween(tr, f, l, pair))
            && (NoReturn(first) && NoReturn(second) ==>
                  (StoredBetween(tr, f, l, pair) <==> !Crossed(first, second, l - f)))
  {
    hide Steps, Crossed, NoReturn, Meet, StoredBetween, OneAtATime;
    ColumnsMoveApart(cfg, tr, f, l, r);
    StoredIsMeeting(tr, f, l, r, pair);
    MeetExactly(Column(tr, f, l, r), Column(tr, f, l, 1 - r), l - f);
  }

  /** The pair was stored at some instant between the observations if no change of the row observed first is followed by
      one of the other row; and only then, as long as no row comes back to a value it left. */
  lemma TornExactly<V(!new)>(cfg: Config, tr: seq<System<V>>, f: nat, l: nat, n: nat, id: nat, i: nat)
    requires cfg.rows == 2 && Behavior(cfg, tr) && f < l < n < |tr| && i < 2 && Spans(tr, f, n, id)
    requires NextBy(cfg, tr[f], Observe(id, i), tr[f + 1]) && NextBy(cfg, tr[l], Observe(id, 1 - i), tr[l + 1])
    ensures ReadDone(tr[n], id) && PairRows(tr)
    ensures var first, second := Column(tr, f, l, i), Column(tr, f, l, 1 - i);
            && (!Crossed(first, second, l - f) ==> StoredBetween(tr, f, l, Values(tr[n], id)))
            && (NoReturn(first) && NoReturn(second) ==>
                  (StoredBetween(tr, f, l, Values(tr[n], id)) <==> !Crossed(first, second, l - f)))
  {
    hide NextBy, Spans, Crossed, NoReturn, StoredBetween, Init, Next;
    PairRowsAlways(cfg, tr);
    ValuesOfPair(cfg, tr, f, l, n, id, i);
    PairStoredExactly(cfg, tr, f, l, i, Values(tr[n], id));
  }

  lemma ValuesOfPair<V(!new)>(cfg: Config, tr: seq<System<V>>, f: nat, l: nat, n: nat, id: nat, i: nat)
    requires cfg.rows == 2 && Behavior(cfg, tr) && f < l < n < |tr| && i < 2 && Spans(tr, f, n, id)
    requires NextBy(cfg, tr[f], Observe(id, i), tr[f + 1]) && NextBy(cfg, tr[l], Observe(id, 1 - i), tr[l + 1])
    ensures ReadDone(tr[n], id) && |Values(tr[n], id)| == |tr[f].rows| == |tr[l].rows| == 2
    ensures Values(tr[n], id)[i] == tr[f].rows[i] && Values(tr[n], id)[1 - i] == tr[l].rows[1 - i]
  {
    Observed(cfg, tr, f, n, id, i);
    Observed(cfg, tr, l, n, id, 1 - i);
  }

  /** The harmless order: both rows are written between the observations, the one observed second first, and the pair
      was stored in between. */
  lemma SecondRowFirst() returns (tr: seq<System<bool>>)
    ensures Behavior(Config(2, 0, false), tr) && |tr| == 6 && ReadDone(tr[5], 0)
    ensures tr[2].rows == [false, false] && tr[5].rows == [true, true] && tr[3].rows == Values(tr[5], 0)
  {
    var cfg := Config(2, 0, false);
    var s0: System<bool> := System(0, [false, false], map[], map[]);
    var s2 := ReadObserved(cfg, s0, 0, 0, false);
    var s3 := s2.(rows := [false, true]);
    var s4 := s2.(rows := [true, true]);
    var s5 := s4.(ops := s4.ops[0 := s4.ops[0].(got := s4.ops[0].got[1 := Some(true)])]);
    assert NextBy(cfg, s2, Foreign(1, true), s3);
    assert NextBy(cfg, s3, Foreign(0, true), s4);
    assert NextBy(cfg, s4, Observe(0, 1), s5);
    assert Values(s5, 0)[0] == false && Values(s5, 0)[1] == true;
    hide NextBy;
    tr := [s0, Started(cfg, s0, 0), s2, s3, s4, s5];
  }

  /** At n the read still has what it observed at f. */
  lemma Observed<V(!new)>(cfg: Config, tr: seq<System<V>>, f: nat, n: nat, id: nat, i: nat)
    requires Behavior(cfg, tr) && f < n < |tr| && i < cfg.rows && Spans(tr, f, n, id)
    requires NextBy(cfg, tr[f], Observe(id, i), tr[f + 1])
    ensures |tr[f].rows| == cfg.rows && tr[n].ops[id].Reading? && |tr[n].ops[id].got| == cfg.rows
    ensures tr[n].ops[id].got[i] == Some(tr[f].rows[i])
  {
    InvAlways(cfg, tr, f);
    assert OpOk(cfg, tr, f, tr[f].ops[id]);
    ObservationKept(cfg, tr, f + 1, n, id, i);
  }

  /** What a read has observed stays. */
  lemma {:induction false} ObservationKept<V(!new)>(cfg: Config, tr: seq<System<V>>, k: nat, n: nat, id: nat, i: nat)
    requires Behavior(cfg, tr) && k <= n < |tr| && Spans(tr, k, n, id)
    requires tr[k].ops[id].Reading? && i < |tr[k].ops[id].got| && tr[k].ops[id].got[i].Some?
    ensures tr[n].ops[id].Reading? && |tr[n].ops[id].got| == |tr[k].ops[id].got|
        && tr[n].ops[id].got[i] == tr[k].ops[id].got[i]
    decreases n - k
  {
    if k < n {
      ObservationKept(cfg, tr, k, n - 1, id, i);
      assert StepAt(cfg, tr, n - 1);
      var a :| NextBy(cfg, tr[n - 1], a, tr[n]);
    }
  }

  function Started<V>(cfg: Config, s: System<V>, id: nat): System<V> {
    s.(ops := s.ops[id := Reading(0, s.now, seq(cfg.rows, _ => None))])
  }

  /** Process 0 begins a read and observes row i. */
  lemma ReadObserved<V(!new)>(cfg: Config, s: System<V>, id: nat, i: nat, v: V) returns (s': System<V>)
    requires id !in s.ops && !Hits(s, 0) && |s.rows| == cfg.rows && i < |s.rows| && s.rows[i] == v
    ensures NextBy(cfg, s, BeginRead(id, 0), Started(cfg, s, id))
        && NextBy(cfg, Started(cfg, s, id), Observe(id, i), s')
    ensures s' == s.(ops := s.ops[id := Reading(0, s.now, seq(cfg.rows, k => if k == i then Some(v) else None))])
  {
    var s1 := Started(cfg, s, id);
    s' := s1.(ops := s1.ops[id := s1.ops[id].(got := s1.ops[id].got[i := Some(v)])]);
    assert s1.ops[id].got[i := Some(v)] == seq(cfg.rows, k => if k == i then Some(v) else None);
    assert s'.ops == s.ops[id := s'.ops[id]];
  }

  // ---------------------------------------------------------------- reads after a write

  /** Nothing that process holds, cached or in flight, disagrees with the rows. */
  ghost predicate Settled<V(!new)>(cfg: Config, s: System<V>, proc: nat) {
    && (Hits(s, proc) ==> s.cache[proc].value == s.rows)
    && forall id :: id in s.ops && s.ops[id].proc == proc ==> OpSettled(cfg, s, s.ops[id])
  }

  ghost predicate OpSettled<V(!new)>(cfg: Config, s: System<V>, op: Op<V>) {
    match op
    case Reading(_, _, got) =>
      |got| == |s.rows| && forall i :: 0 <= i < |got| && got[i].Some? ==> got[i].value == s.rows[i]
    case Writing(_, _, _, v, done) => cfg.writeThrough && done ==> [v] == s.rows
  }

  lemma SettledStep<V(!new)>(cfg: Config, s: System<V>, s': System<V>, proc: nat)
    requires Settled(cfg, s, proc) && Next(cfg, s, s') && s'.rows == s.rows
    requires |s.rows| == cfg.rows && (cfg.writeThrough ==> cfg.rows == 1)
    ensures Settled(cfg, s', proc)
  {
    var a :| NextBy(cfg, s, a, s');
    forall id | id in s'.ops && s'.ops[id].proc == proc ensures OpSettled(cfg, s', s'.ops[id]) {
      if id in s.ops { assert OpSettled(cfg, s, s.ops[id]); }
    }
    if a.FinishRead? && s.ops[a.id].proc == proc {
      assert OpSettled(cfg, s, s.ops[a.id]);
    } else if a.FinishWrite? && s.ops[a.id].proc == proc {
      assert OpSettled(cfg, s, s.ops[a.id]);
    }
  }

  /** From a settled state, as long as the rows stay, every read of that process returns them. */
  lemma {:induction false} SettledReadsCurrent<V(!new)>(cfg: Config, tr: seq<System<V>>, proc: nat, n: nat)
    requires Steps(cfg, tr) && Settled(cfg, tr[0], proc) && n < |tr|
    requires |tr[0].rows| == cfg.rows && (cfg.writeThrough ==> cfg.rows == 1)
    requires forall k :: 0 <= k < |tr| ==> tr[k].rows == tr[0].rows
    ensures Settled(cfg, tr[n], proc)
    ensures Hits(tr[n], proc) ==> tr[n].cache[proc].value == tr[n].rows
    ensures forall id :: ReadDone(tr[n], id) && tr[n].ops[id].proc == proc ==> Values(tr[n], id) == tr[n].rows
  {
    if n > 0 {
      SettledReadsCurrent(cfg, tr, proc, n - 1);
      assert StepAt(cfg, tr, n - 1);
      SettledStep(cfg, tr[n - 1], tr[n], proc);
    }
    forall id | ReadDone(tr[n], id) && tr[n].ops[id].proc == proc ensures Values(tr[n], id) == tr[n].rows {
      assert OpSettled(cfg, tr[n], tr[n].ops[id]);
    }
  }

  /** Some read of that process, at the end of tr, returns something other than the rows. */
  ghost predicate ReturnsStale<V(!new)>(s: System<V>, proc: nat) {
    || (Hits(s, proc) && s.cache[proc].value != s.rows)
    || exists id :: ReadDone(s, id) && s.ops[id].proc == proc && Values(s, id) != s.rows
  }

  function Missing<V>(got: seq<Option<V>>): nat {
    if got == [] then 0 else (if got[0].None? then 1 else 0) + Missing(got[1..])
  }

  lemma {:induction false} MissingFalls<V>(got: seq<Option<V>>, i: nat, v: V)
    requires i < |got| && got[i].None?
    ensures Missing(got[i := Some(v)]) < Missing(got)
  {
    if i > 0 {
      MissingFalls(got[1..], i - 1, v);
      assert got[i := Some(v)][1..] == got[1..][i - 1 := Some(v)];
    } else {
      assert got[i := Some(v)][1..] == got[1..];
    }
  }

  /** A read in flight can complete with what it has observed and, for the other rows, the present ones. */
  lemma {:induction false} ReadCompletes<V(!new)>(cfg: Config, s: System<V>, id: nat) returns (tr: seq<System<V>>)
    requires id in s.ops && s.ops[id].Reading? && |s.ops[id].got| == |s.rows|
    ensures Steps(cfg, tr) && tr[0] == s && (forall k :: 0 <= k < |tr| ==> tr[k].rows == s.rows)
    ensures ReadDone(tr[|tr| - 1], id) && tr[|tr| - 1] == s.(ops := s.ops[id := tr[|tr| - 1].ops[id]])
    ensures tr[|tr| - 1].ops[id] == s.ops[id].(got := tr[|tr| - 1].ops[id].got)
        && |Values(tr[|tr| - 1], id)| == |s.rows|
    ensures forall i :: 0 <= i < |s.rows| ==> Values(tr[|tr| - 1], id)[i] == s.ops[id].got[i].GetOr(s.rows[i])
    decreases Missing(s.ops[id].got)
  {
    if ReadDone(s, id) {
      tr := [s];
      assert s.ops[id := s.ops[id]] == s.ops;
    } else {
      var i: nat :| i < |s.rows| && s.ops[id].got[i].None?;
      var s' := Apply(cfg, s, Observe(id, i));
      MissingFalls(s.ops[id].got, i, s.rows[i]);
      var rest := ReadCompletes(cfg, s', id);
      assert forall k :: 0 <= k < |s.rows| ==> s'.ops[id].got[k].GetOr(s.rows[k]) == s.ops[id].got[k].GetOr(s.rows[k]);
      tr := [s] + rest;
      assert tr[|tr| - 1] == rest[|rest| - 1];
      assert NextBy(cfg, s, Observe(id, i), s');
      forall k: nat | k + 1 < |tr| ensures StepAt(cfg, tr, k) {
        if k > 0 { assert StepAt(cfg, rest, k - 1); }
      }
    }
  }

  /** Conversely, from a state that is not settled some continuation that leaves the rows alone returns a stale one. */
  lemma UnsettledCanReturnStale<V(!new)>(cfg: Config, s: System<V>, proc: nat) returns (tr: seq<System<V>>)
    requires !Settled(cfg, s, proc) && |s.rows| == cfg.rows
    requires forall id :: id in s.ops && s.ops[id].Reading? ==> |s.ops[id].got| == cfg.rows
    ensures Steps(cfg, tr) && tr[0] == s && (forall k :: 0 <= k < |tr| ==> tr[k].rows == s.rows)
    ensures ReturnsStale(tr[|tr| - 1], proc)
  {
    if Hits(s, proc) && s.cache[proc].value != s.rows {
      return [s];
    }
    var id :| id in s.ops && s.ops[id].proc == proc && !OpSettled(cfg, s, s.ops[id]);
    if s.ops[id].Reading? {
      tr := ReadCompletes(cfg, s, id);
      var i :| 0 <= i < |s.rows| && s.ops[id].got[i].Some? && s.ops[id].got[i].value != s.rows[i];
      assert Values(tr[|tr| - 1], id)[i] != s.rows[i];
    } else {
      var s' := Apply(cfg, s, FinishWrite(id));
      assert NextBy(cfg, s, FinishWrite(id), s');
      tr := [s, s'];
    }
  }

  /** A write that finishes with its value still in the row settles its process, if and only if no other operation of
      the process in flight is at odds with the rows. */
  lemma FinishedWriteSettles<V(!new)>(cfg: Config, s: System<V>, id: nat)
    requires Enabled(cfg, s, FinishWrite(id)) && |s.rows| == cfg.rows && (cfg.writeThrough ==> cfg.rows == 1)
    requires s.ops[id].row < |s.rows| && s.rows[s.ops[id].row] == s.ops[id].value
    ensures Settled(cfg, Apply(cfg, s, FinishWrite(id)), s.ops[id].proc) <==>
            forall o :: o in s.ops && o != id && s.ops[o].proc == s.ops[id].proc ==> OpSettled(cfg, s, s.ops[o])
  {
    var s', p := Apply(cfg, s, FinishWrite(id)), s.ops[id].proc;
    if cfg.writeThrough { assert [s.ops[id].value] == s'.rows; }
    forall o | o in s.ops && o != id && s.ops[o].proc == p
      ensures o in s'.ops && (OpSettled(cfg, s', s'.ops[o]) <==> OpSettled(cfg, s, s.ops[o]))
    {
      assert s'.ops[o] == s.ops[o];
    }
  }

  // ---------------------------------------------------------------- read your writes

  /** Nothing that process holds, cached or in flight, has anything but v for row i. */
  ghost predicate Reads<V(!new)>(cfg: Config, s: System<V>, proc: nat, i: nat, v: V) {
    && (proc in s.cache ==> i < |s.cache[proc].value| && s.cache[proc].value[i] == v)
    && forall o :: o in s.ops && s.ops[o].proc == proc ==> OpReads(cfg, s.ops[o], i, v)
  }

  /** Completing the operation caches nothing but v for row i. */
  ghost predicate OpReads<V(!new)>(cfg: Config, op: Op<V>, i: nat, v: V) {
    match op
    case Reading(_, _, got) => i < |got| && (got[i].Some? ==> got[i].value == v)
    case Writing(_, _, row, value, done) => row < cfg.rows && (cfg.writeThrough && done && row == i ==> value == v)
  }

  /** An operation that begins while row i holds v, or goes on while it does, agrees with v. */
  lemma OpReadsStep<V(!new)>(cfg: Config, tr: seq<System<V>>, n: nat, i: nat, v: V, o: nat)
    requires n + 1 < |tr| && Next(cfg, tr[n], tr[n + 1]) && Inv(cfg, tr, n + 1) && i < cfg.rows && o in tr[n + 1].ops
    requires i < |tr[n].rows| && tr[n].rows[i] == v && i < |tr[n + 1].rows| && tr[n + 1].rows[i] == v
    requires o in tr[n].ops ==> OpReads(cfg, tr[n].ops[o], i, v)
    ensures OpReads(cfg, tr[n + 1].ops[o], i, v)
  {
    var a :| NextBy(cfg, tr[n], a, tr[n + 1]);
    assert OpOk(cfg, tr, n + 1, tr[n + 1].ops[o]);
  }

  lemma ReadsStep<V(!new)>(cfg: Config, tr: seq<System<V>>, n: nat, proc: nat, i: nat, v: V)
    requires n + 1 < |tr| && Next(cfg, tr[n], tr[n + 1]) && Inv(cfg, tr, n) && Inv(cfg, tr, n + 1)
    requires (cfg.writeThrough ==> cfg.rows == 1) && i < cfg.rows
    requires Reads(cfg, tr[n], proc, i, v) && tr[n].rows[i] == v && tr[n + 1].rows[i] == v
    ensures Reads(cfg, tr[n + 1], proc, i, v)
  {
    var s' := tr[n + 1];
    forall o | o in s'.ops && s'.ops[o].proc == proc ensures OpReads(cfg, s'.ops[o], i, v) {
      OpOfProc(cfg, tr, n, proc, i, v, o);
    }
    CacheReadsStep(cfg, tr, n, proc, i, v);
  }

  lemma OpOfProc<V(!new)>(cfg: Config, tr: seq<System<V>>, n: nat, proc: nat, i: nat, v: V, o: nat)
    requires n + 1 < |tr| && Next(cfg, tr[n], tr[n + 1]) && Inv(cfg, tr, n) && Inv(cfg, tr, n + 1) && i < cfg.rows
    requires Reads(cfg, tr[n], proc, i, v) && tr[n].rows[i] == v && tr[n + 1].rows[i] == v
    requires o in tr[n + 1].ops && tr[n + 1].ops[o].proc == proc
    ensures OpReads(cfg, tr[n + 1].ops[o], i, v)
  {
    if o in tr[n].ops { SameProc(cfg, tr[n], tr[n + 1], o); }
    OpReadsStep(cfg, tr, n, i, v, o);
  }

  lemma SameProc<V(!new)>(cfg: Config, s: System<V>, s': System<V>, o: nat)
    requires Next(cfg, s, s') && o in s.ops && o in s'.ops
    ensures s'.ops[o].proc == s.ops[o].proc
  {
    var a :| NextBy(cfg, s, a, s');
  }

  lemma CacheReadsStep<V(!new)>(cfg: Config, tr: seq<System<V>>, n: nat, proc: nat, i: nat, v: V)
    requires n + 1 < |tr| && Next(cfg, tr[n], tr[n + 1]) && Inv(cfg, tr, n)
    requires (cfg.writeThrough ==> cfg.rows == 1) && i < cfg.rows && Reads(cfg, tr[n], proc, i, v)
    ensures proc in tr[n + 1].cache ==>
              i < |tr[n + 1].cache[proc].value| && tr[n + 1].cache[proc].value[i] == v
  {
    var a :| NextBy(cfg, tr[n], a, tr[n + 1]);
    hide Inv;
    if (a.FinishRead? || a.FinishWrite?) && tr[n].ops[a.id].proc == proc {
      assert OpReads(cfg, tr[n].ops[a.id], i, v);
      if a.FinishWrite? { FinishedWriteIsRead(cfg, tr, n, a.id); }
    }
  }

  /** A write that finishes has been performed. */
  lemma FinishedWriteIsRead<V(!new)>(cfg: Config, tr: seq<System<V>>, n: nat, id: nat)
    requires n < |tr| && Inv(cfg, tr, n) && Enabled(cfg, tr[n], FinishWrite(id))
    ensures tr[n].ops[id].done && tr[n].ops[id].row < cfg.rows
  {
    assert OpOk(cfg, tr, n, tr[n].ops[id]);
  }

  /** What was not in flight already when the write was performed agrees with it, as long as nobody else writes. */
  lemma {:induction false} OthersAgree<V(!new)>(cfg: Config, tr: seq<System<V>>, c: nat, k: nat, i: nat, v: V, o: nat)
    requires Behavior(cfg, tr) && c < k < |tr| && i < cfg.rows && o in tr[k].ops
    requires forall j: nat :: c < j <= k ==> i < |tr[j].rows| && tr[j].rows[i] == v
    ensures Spans(tr, c + 1, k, o) || OpReads(cfg, tr[k].ops[o], i, v)
    decreases k
  {
    if k > c + 1 {
      assert StepAt(cfg, tr, k - 1);
      InvAlways(cfg, tr, k);
      if o in tr[k - 1].ops { OthersAgree(cfg, tr, c, k - 1, i, v, o); }
      if !Spans(tr, c + 1, k, o) { OpReadsStep(cfg, tr, k - 1, i, v, o); }
    }
  }

  /** Another operation of id's process that was in flight when id was performed, after step c, and still is at m. */
  ghost predicate Alongside<V(!new)>(tr: seq<System<V>>, c: nat, m: nat, id: nat, o: nat)
    requires m < |tr| && id in tr[m].ops
  {
    o in tr[m].ops && o != id && tr[m].ops[o].proc == tr[m].ops[id].proc && Spans(tr, c + 1, m, o)
  }

  /** Read your writes: a write is performed at c and finishes at m, and nobody else writes the row from c to n. If
      every other operation of the process that was in flight when the row was written and still is at m agrees with
      the write (it is not a read that saw another value), then at n every read of the process returns what was written.
      Reads that began after the write never stand in the way. */
  lemma ReadYourWrites<V(!new)>(cfg: Config, tr: seq<System<V>>, c: nat, m: nat, n: nat, id: nat)
    requires Behavior(cfg, tr) && c < m < n < |tr|
    requires NextBy(cfg, tr[c], Commit(id), tr[c + 1]) && Spans(tr, c, m, id)
        && NextBy(cfg, tr[m], FinishWrite(id), tr[m + 1])
    requires var i, v := tr[c].ops[id].row, tr[c].ops[id].value;
             && (forall j: nat :: c < j <= n ==> i < |tr[j].rows| && tr[j].rows[i] == v)
             && (forall o :: Alongside(tr, c, m, id, o) ==> OpReads(cfg, tr[m].ops[o], i, v))
    ensures var i, v, proc := tr[c].ops[id].row, tr[c].ops[id].value, tr[c].ops[id].proc;
            && (Hits(tr[n], proc) ==> i < |tr[n].cache[proc].value| && tr[n].cache[proc].value[i] == v)
            && forall o :: ReadDone(tr[n], o) && tr[n].ops[o].proc == proc ==>
                 i < |tr[n].ops[o].got| && Values(tr[n], o)[i] == v
  {
    var i, v, proc := tr[c].ops[id].row, tr[c].ops[id].value, tr[c].ops[id].proc;
    WriteKept(cfg, tr, c, m, id);
    InvAlways(cfg, tr, m);
    WrittenAtEnd(cfg, tr, c, m, id, i, v);
    hide NextBy, Behavior, Inv, Held, Reads, Spans, Alongside;
    StillReads(cfg, tr, m + 1, n, proc, i, v);
    AnswersOf(cfg, tr[n], proc, i, v);
  }

  lemma AnswersOf<V(!new)>(cfg: Config, s: System<V>, proc: nat, i: nat, v: V)
    requires Reads(cfg, s, proc, i, v)
    ensures Hits(s, proc) ==> i < |s.cache[proc].value| && s.cache[proc].value[i] == v
    ensures forall o :: ReadDone(s, o) && s.ops[o].proc == proc ==> i < |s.ops[o].got| && Values(s, o)[i] == v
  {
    forall o | ReadDone(s, o) && s.ops[o].proc == proc ensures i < |s.ops[o].got| && Values(s, o)[i] == v {
      assert OpReads(cfg, s.ops[o], i, v);
    }
  }

  lemma WrittenAtEnd<V(!new)>(cfg: Config, tr: seq<System<V>>, c: nat, m: nat, id: nat, i: nat, v: V)
    requires Behavior(cfg, tr) && c < m && m + 1 < |tr| && NextBy(cfg, tr[m], FinishWrite(id), tr[m + 1])
    requires i < cfg.rows && tr[m].ops[id].row == i && tr[m].ops[id].value == v
    requires forall j: nat :: c < j <= m ==> i < |tr[j].rows| && tr[j].rows[i] == v
    requires forall o :: Alongside(tr, c, m, id, o) ==> OpReads(cfg, tr[m].ops[o], i, v)
    ensures Reads(cfg, tr[m + 1], tr[m].ops[id].proc, i, v)
  {
    var s', proc := tr[m + 1], tr[m].ops[id].proc;
    forall o | o in s'.ops && s'.ops[o].proc == proc ensures OpReads(cfg, s'.ops[o], i, v) {
      OthersAgree(cfg, tr, c, m, i, v, o);
    }
  }

  /** From its commit to its end a write is the same operation. */
  lemma {:induction false} WriteKept<V(!new)>(cfg: Config, tr: seq<System<V>>, c: nat, k: nat, id: nat)
    requires Behavior(cfg, tr) && c < k < |tr| && NextBy(cfg, tr[c], Commit(id), tr[c + 1]) && Spans(tr, c, k, id)
    ensures tr[k].ops[id] == tr[c].ops[id].(done := true) && tr[c].ops[id].row < cfg.rows
    decreases k
  {
    InvAlways(cfg, tr, c);
    assert OpOk(cfg, tr, c, tr[c].ops[id]);
    if k > c + 1 {
      WriteKept(cfg, tr, c, k - 1, id);
      assert StepAt(cfg, tr, k - 1);
      var a :| NextBy(cfg, tr[k - 1], a, tr[k]);
    }
  }

  lemma {:induction false} StillReads<V(!new)>(cfg: Config, tr: seq<System<V>>, m: nat, n: nat, proc: nat, i: nat, v: V)
    requires Behavior(cfg, tr) && m <= n < |tr| && i < cfg.rows && Reads(cfg, tr[m], proc, i, v)
    requires forall j: nat :: m <= j <= n ==> i < |tr[j].rows| && tr[j].rows[i] == v
    ensures Reads(cfg, tr[n], proc, i, v)
    decreases n - m
  {
    if m < n {
      StillReads(cfg, tr, m, n - 1, proc, i, v);
      assert StepAt(cfg, tr, n - 1);
      InvAlways(cfg, tr, n - 1);
      InvAlways(cfg, tr, n);
      ReadsStep(cfg, tr, n - 1, proc, i, v);
    }
  }

  function WriteBegun<V>(s: System<V>, id: nat, v: V): System<V> {
    s.(ops := s.ops[id := Writing(0, s.now, 0, v, false)])
  }

  /** Process 0 sends a write of the first row, and the database performs it. */
  lemma WriteCommitted<V(!new)>(cfg: Config, s: System<V>, id: nat, v: V) returns (s': System<V>)
    requires id !in s.ops && 0 < |s.rows|
    ensures NextBy(cfg, s, BeginWrite(id, 0, 0, v), WriteBegun(s, id, v))
        && NextBy(cfg, WriteBegun(s, id, v), Commit(id), s')
    ensures s' == s.(rows := s.rows[0 := v], ops := s.ops[id := Writing(0, s.now, 0, v, true)])
  {
    s' := s.(rows := s.rows[0 := v], ops := s.ops[id := Writing(0, s.now, 0, v, true)]);
    assert WriteBegun(s, id, v).ops[id := s'.ops[id]] == s'.ops;
  }

  lemma AppendStep<V(!new)>(cfg: Config, tr: seq<System<V>>, s': System<V>)
    requires Steps(cfg, tr) && Next(cfg, tr[|tr| - 1], s')
    ensures Steps(cfg, tr + [s'])
  {
    forall i: nat | i + 1 < |tr + [s']| ensures StepAt(cfg, tr + [s'], i) {
      if i + 1 < |tr| { assert StepAt(cfg, tr, i); }
    }
  }

  /** A read has observed false when a write of true is performed. */
  lemma WriteDuringRead(writeThrough: bool) returns (tr: seq<System<bool>>)
    ensures Behavior(Config(1, 0, writeThrough), tr)
    ensures var s := tr[|tr| - 1];
            && s.now == 0 && s.rows == [true] && s.cache == map[] && s.ops.Keys == {0, 1}
            && s.ops[0] == Reading(0, 0, [Some(false)]) && s.ops[1] == Writing(0, 0, 0, true, true)
  {
    var cfg := Config(1, 0, writeThrough);
    var s0: System<bool> := System(0, [false], map[], map[]);
    var s2 := ReadObserved(cfg, s0, 0, 0, false);
    var s4 := WriteCommitted(cfg, s2, 1, true);
    hide NextBy;
    tr := [s0, Started(cfg, s0, 0), s2, WriteBegun(s2, 1, true), s4];
  }

  /** A read in flight across a write puts the old value back in the cache after the write is over. */
  lemma ReadAcrossWrite(writeThrough: bool) returns (tr: seq<System<bool>>)
    ensures Behavior(Config(1, 0, writeThrough), tr)
    ensures tr[|tr| - 1].ops == map[] && tr[|tr| - 1].rows == [true]
    ensures Hits(tr[|tr| - 1], 0) && tr[|tr| - 1].cache[0].value == [false]
  {
    var cfg := Config(1, 0, writeThrough);
    tr := WriteDuringRead(writeThrough);
    var s := tr[|tr| - 1];
    var s1 := s.(cache := if writeThrough then map[0 := Entry([true], 0)] else map[], ops := s.ops - {1});
    var s2 := s1.(cache := map[0 := Entry([false], 0)], ops := map[]);
    assert NextBy(cfg, s, FinishWrite(1), s1);
    assert Values(s1, 0) == [false];
    assert NextBy(cfg, s1, FinishRead(0), s2);
    hide NextBy, Steps;
    AppendStep(cfg, tr, s1);
    AppendStep(cfg, tr + [s1], s2);
    tr := tr + [s1] + [s2];
  }
}
