/**
  The two caching services as their process runs them. The methods promise what they return
  from any cache, stale entries included; the lemmas after the classes say that each is a run
  of the state machine of TtlCache, so that its bound on staleness holds of what they return.
*/
module CacheServices {
  import opened Wrappers
  import opened TtlCache

  predicate Fresh<W>(cache: map<string, Entry<W>>, key: string, now: int) {
    key in cache && IsFresh(cache[key], now)
  }

  /** What a lookup returns: a fresh entry, or else what is stored. */
  function Answer<W>(cache: map<string, Entry<W>>, key: string, stored: W, now: int): W {
    if Fresh(cache, key, now) then cache[key].value else stored
  }

  function AfterRead<W>(cache: map<string, Entry<W>>, key: string, stored: W, now: int): map<string, Entry<W>> {
    if Fresh(cache, key, now) then cache else cache[key := Entry(stored, now)]
  }

  class FeatureFlagsService {
    var rows: map<string, bool>
    var cache: map<string, Entry<bool>>

    constructor (rows: map<string, bool>)
      ensures this.rows == rows && cache == map[] && Coherent()
    {
      this.rows := rows;
      cache := map[];
    }

    /** Fail closed: a flag without a row is off. */
    function Stored(key: string): bool
      reads this
    {
      key in rows && rows[key]
    }

    /** No entry is stale: so it stays while every write goes through this service. */
    ghost predicate Coherent()
      reads this
    {
      forall k :: k in cache ==> cache[k].value == Stored(k)
    }

    method IsEnabled(key: string, now: int) returns (enabled: bool)
      modifies `cache
      ensures enabled == Answer(old(cache), key, Stored(key), now)
      ensures cache == AfterRead(old(cache), key, Stored(key), now)
      ensures if key in old(cache) && now - old(cache)[key].at < 30_000
              then enabled == old(cache)[key].value && cache == old(cache)
              else enabled == (key in rows && rows[key]) && cache == old(cache)[key := Entry(enabled, now)]
      ensures old(Coherent()) ==> Coherent() && enabled == Stored(key)
    {
      if key in cache && IsFresh(cache[key], now) {
        return cache[key].value;
      }
      enabled := if key in rows then rows[key] else false;
      cache := cache[key := Entry(enabled, now)];
    }

    /** False: the key has no row (404), and nothing changed. */
    method SetEnabled(key: string, enabled: bool, now: int) returns (found: bool)
      modifies this
      ensures found == (key in old(rows))
      ensures found ==> rows == old(rows)[key := enabled] && cache == AfterWrite(true, old(cache), key, enabled, now)
      ensures found ==> cache == old(cache)[key := Entry(enabled, now)]
      ensures !found ==> rows == old(rows) && cache == old(cache)
      ensures old(Coherent()) ==> Coherent()
    {
      if key !in rows {
        return false;
      }
      rows := rows[key := enabled];
      cache := cache[key := Entry(enabled, now)];
      return true;
    }
  }

  /** Columns of ProducerParams, None where the row or the column is missing, and the plan of the person. */
  datatype ProducerDefaults<R, T> = ProducerDefaults(params: Option<R>, proTier: Option<T>)

  /** The two rows the defaults are read from, either of which may be missing. */
  datatype ProducerRow<R, T> = ParamsRow(params: Option<R>) | PersonRow(person: Option<Option<T>>)

  function Defaults<R, T>(params: Option<R>, person: Option<Option<T>>): Option<ProducerDefaults<R, T>> {
    if params.None? && person.None? then None else Some(ProducerDefaults(params, person.GetOr(None)))
  }

  function Found<K(==), V>(m: map<K, V>, k: K): Option<V> {
    if k in m then Some(m[k]) else None
  }

  class ParamsService<V, R, T> {
    var params: map<string, V>
    var producerRows: map<string, R>
    var persons: map<string, Option<T>>
    var cache: map<string, Entry<Option<V>>>
    var producerCache: map<string, Entry<Option<ProducerDefaults<R, T>>>>

    constructor (params: map<string, V>, producerRows: map<string, R>, persons: map<string, Option<T>>)
      ensures this.params == params && this.producerRows == producerRows && this.persons == persons
      ensures cache == map[] && producerCache == map[] && Coherent()
    {
      this.params, this.producerRows, this.persons := params, producerRows, persons;
      cache, producerCache := map[], map[];
    }

    function StoredProducer(id: string): Option<ProducerDefaults<R, T>>
      reads this
    {
      Defaults(Found(producerRows, id), Found(persons, id))
    }

    /** The defaults as the two tables have them: there are some if either has the id, with the columns of the params
        row, and the tier of the person; a missing row, person or tier is None. */
    ghost predicate Answers(value: Option<ProducerDefaults<R, T>>, id: string)
      reads this
    {
      && (value.Some? <==> id in producerRows || id in persons)
      && (value.Some? ==>
            && value.value.params == (if id in producerRows then Some(producerRows[id]) else None)
            && value.value.proTier == (if id in persons then persons[id] else None))
    }

    ghost predicate CoherentBut(id: string)
      reads this
    {
      && (forall k :: k in cache ==> cache[k].value == Found(params, k))
      && (forall p :: p in producerCache && p != id ==> producerCache[p].value == StoredProducer(p))
    }

    ghost predicate Coherent()
      reads this
    {
      && (forall k :: k in cache ==> cache[k].value == Found(params, k))
      && (forall p :: p in producerCache ==> producerCache[p].value == StoredProducer(p))
    }

    method Get(key: string, now: int) returns (value: Option<V>)
      modifies `cache
      ensures value == Answer(old(cache), key, Found(params, key), now)
      ensures cache == AfterRead(old(cache), key, Found(params, key), now)
      ensures if key in old(cache) && now - old(cache)[key].at < 30_000
              then value == old(cache)[key].value && cache == old(cache)
              else && value == (if key in params then Some(params[key]) else None)
                   && cache == old(cache)[key := Entry(value, now)]
      ensures old(Coherent()) ==> Coherent() && value == Found(params, key)
    {
      if key in cache && IsFresh(cache[key], now) {
        return cache[key].value;
      }
      value := if key in params then Some(params[key]) else None;
      cache := cache[key := Entry(value, now)];
    }

    method Set(key: string, value: V, now: int)
      modifies `params, `cache
      ensures params == old(params)[key := value] && cache == AfterWrite(false, old(cache), key, Some(value), now)
      ensures cache == old(cache) - {key}
      ensures old(Coherent()) ==> Coherent()
    {
      params := params[key := value];
      cache := cache - {key};
    }

    method GetProducerParams(id: Option<string>, now: int) returns (value: Option<ProducerDefaults<R, T>>)
      modifies `producerCache
      ensures id.None? || id.value == "" ==> value == None && producerCache == old(producerCache)
      ensures id.Some? && id.value != "" ==>
                value == Answer(old(producerCache), id.value, StoredProducer(id.value), now) &&
                producerCache == AfterRead(old(producerCache), id.value, StoredProducer(id.value), now)
      ensures id.Some? && id.value != "" ==>
                if id.value in old(producerCache) && now - old(producerCache)[id.value].at < 30_000
                then value == old(producerCache)[id.value].value && producerCache == old(producerCache)
                else Answers(value, id.value) && producerCache == old(producerCache)[id.value := Entry(value, now)]
      ensures old(Coherent()) ==> Coherent() && (id.Some? && id.value != "" ==> value == StoredProducer(id.value))
    {
      if id.None? || id.value == "" {
        return None;
      }
      var p := id.value;
      if p in producerCache && IsFresh(producerCache[p], now) {
        return producerCache[p].value;
      }
      var row, person := Found(producerRows, p), Found(persons, p);
      value := if row.Some? || person.Some? then Some(ProducerDefaults(row, person.GetOr(None))) else None;
      producerCache := producerCache[p := Entry(value, now)];
    }

    /** What a writer of the producer's rows owes the cache. */
    method InvalidateProducer(id: string)
      modifies `producerCache
      ensures producerCache == old(producerCache) - {id}
      ensures old(CoherentBut(id)) ==> Coherent()
    {
      producerCache := producerCache - {id};
    }
  }

  // ---------------------------------------------------------------- the services follow the state machine

  /** Flags and parameters are one row; the producer defaults are put together from two. */
  function FlagOf(rows: seq<bool>): bool {
    rows == [true]
  }

  function ParamOf<V>(rows: seq<Option<V>>): Option<V> {
    if |rows| == 1 then rows[0] else None
  }

  function DefaultsOf<R, T>(rows: seq<ProducerRow<R, T>>): Option<ProducerDefaults<R, T>> {
    if |rows| == 2 && rows[0].ParamsRow? && rows[1].PersonRow? then Defaults(rows[0].params, rows[1].person) else None
  }

  /** Decoding the rows of a key gives what the methods read as stored. */
  lemma DecodesStored<V, R, T>(flag: bool, param: Option<V>, row: Option<R>, person: Option<Option<T>>)
    ensures FlagOf([flag]) == flag && ParamOf([param]) == param
    ensures DefaultsOf([ParamsRow(row), PersonRow(person)]) == Defaults(row, person)
  {
    assert [flag][0] == flag;
  }

  /** What a write leaves in the cache: the value (flags), or no entry (parameters and producer defaults). */
  function AfterWrite<W>(writeThrough: bool, cache: map<string, Entry<W>>, key: string, stored: W, now: int)
    : map<string, Entry<W>>
  {
    if writeThrough then cache[key := Entry(stored, now)] else cache - {key}
  }

  /** In s, the process `proc` caches for this key what the service does, and the rows are what it would read. */
  ghost predicate Shows<V, W>(s: System<V>, proc: nat, cache: map<string, Entry<W>>, key: string, stored: W,
                              decode: seq<V> -> W) {
    && decode(s.rows) == stored
    && (proc in s.cache <==> key in cache)
    && (key in cache ==> s.cache[proc].at == cache[key].at && decode(s.cache[proc].value) == cache[key].value)
  }

  /** Other processes, and operations in flight, are as they were. */
  ghost predicate OnlyCacheOf<V(!new)>(s: System<V>, s': System<V>, proc: nat) {
    && s'.now == s.now && s'.ops == s.ops && (forall q :: q != proc ==> (q in s'.cache <==> q in s.cache))
    && (forall q :: q != proc && q in s.cache ==> s'.cache[q] == s.cache[q])
  }

  lemma StepsConcat<V(!new)>(cfg: Config, a: seq<System<V>>, b: seq<System<V>>)
    requires Steps(cfg, a) && Steps(cfg, b) && Next(cfg, a[|a| - 1], b[0])
    ensures Steps(cfg, a + b) && (a + b)[0] == a[0] && (a + b)[|a + b| - 1] == b[|b| - 1]
  {
    forall k: nat | k + 1 < |a + b| ensures StepAt(cfg, a + b, k) {
      if k + 1 < |a| { assert StepAt(cfg, a, k); }
      if k >= |a| { assert StepAt(cfg, b, k - |a|); }
    }
  }

  lemma OneState<V(!new)>(cfg: Config, s: System<V>)
    ensures Steps(cfg, [s])
  {
  }

  /** A lookup is a hit of the state machine, or a read that begins, observes its rows and finishes. */
  lemma LookupFollowsProtocol<V(!new), W>(cfg: Config, s: System<V>, proc: nat, id: nat,
                                          cache: map<string, Entry<W>>, key: string, decode: seq<V> -> W)
    returns (tr: seq<System<V>>, values: seq<V>)
    requires Shows(s, proc, cache, key, decode(s.rows), decode) && id !in s.ops && |s.rows| == cfg.rows
    ensures Steps(cfg, tr) && tr[0] == s && tr[|tr| - 1].rows == s.rows && OnlyCacheOf(s, tr[|tr| - 1], proc)
    ensures Shows(tr[|tr| - 1], proc, AfterRead(cache, key, decode(s.rows), s.now), key, decode(s.rows), decode)
    ensures Answer(cache, key, decode(s.rows), s.now) == decode(values)
    ensures if Hits(s, proc) then values == s.cache[proc].value
            else |tr| >= 2 && ReadDone(tr[|tr| - 2], id) && values == Values(tr[|tr| - 2], id) == s.rows
  {
    if Hits(s, proc) {
      return [s], s.cache[proc].value;
    }
    var s1 := Apply(cfg, s, BeginRead(id, proc));
    assert NextBy(cfg, s, BeginRead(id, proc), s1);
    var mid := ReadCompletes(cfg, s1, id);
    var s2 := mid[|mid| - 1];
    values := Values(s2, id);
    assert values == s.rows;
    var s3 := Apply(cfg, s2, FinishRead(id));
    assert NextBy(cfg, s2, FinishRead(id), s3);
    OneState(cfg, s);
    OneState(cfg, s3);
    StepsConcat(cfg, [s], mid);
    StepsConcat(cfg, [s] + mid, [s3]);
    tr := [s] + mid + [s3];
    assert tr[|tr| - 2] == s2;
    assert s3.ops == s.ops;
  }

  /** A write of one row is a write of the state machine that begins, is performed and finishes. */
  lemma WriteFollowsProtocol<V(!new), W>(cfg: Config, s: System<V>, proc: nat, id: nat, row: nat, value: V,
                                         cache: map<string, Entry<W>>, key: string, decode: seq<V> -> W)
    returns (tr: seq<System<V>>)
    requires Shows(s, proc, cache, key, decode(s.rows), decode) && id !in s.ops && row < |s.rows| == cfg.rows
    requires cfg.writeThrough ==> cfg.rows == 1
    ensures Steps(cfg, tr) && tr[0] == s && tr[|tr| - 1].rows == s.rows[row := value]
        && OnlyCacheOf(s, tr[|tr| - 1], proc)
    ensures var stored := decode(s.rows[row := value]);
            Shows(tr[|tr| - 1], proc, AfterWrite(cfg.writeThrough, cache, key, stored, s.now), key, stored, decode)
  {
    var s1 := Apply(cfg, s, BeginWrite(id, proc, row, value));
    var s2 := Apply(cfg, s1, Commit(id));
    var s3 := Apply(cfg, s2, FinishWrite(id));
    assert NextBy(cfg, s, BeginWrite(id, proc, row, value), s1) && NextBy(cfg, s1, Commit(id), s2);
    assert NextBy(cfg, s2, FinishWrite(id), s3);
    tr := [s, s1, s2, s3];
    assert s3.ops == s.ops;
    if cfg.writeThrough { assert [value] == s3.rows; }
  }

  /** So what a lookup returns in a state of any behaviour, whatever other processes did before, was stored row by row
      within the last 30 seconds and one round trip. */
  lemma LookupIsBoundedStale<V(!new), W>(cfg: Config, tr: seq<System<V>>, n: nat, proc: nat,
                                         cache: map<string, Entry<W>>, key: string, decode: seq<V> -> W)
    returns (values: seq<V>)
    requires Behavior(cfg, tr) && n < |tr| && Shows(tr[n], proc, cache, key, decode(tr[n].rows), decode)
    ensures Answer(cache, key, decode(tr[n].rows), tr[n].now) == decode(values) && |values| == cfg.rows
    ensures forall i: nat :: i < cfg.rows ==> Held(tr, n, i, values[i], tr[n].now - 30_000 - cfg.d + 1)
  {
    InvAlways(cfg, tr, n);
    if Hits(tr[n], proc) {
      values := tr[n].cache[proc].value;
      forall i: nat | i < cfg.rows ensures |values| == cfg.rows
          && Held(tr, n, i, values[i], tr[n].now - 30_000 - cfg.d + 1) {
        HitIsBoundedStale(cfg, tr, n, proc, i);
      }
      assert EntryOk(cfg, tr, n, tr[n].cache[proc]);
    } else {
      values := tr[n].rows;
      forall i: nat | i < cfg.rows ensures Held(tr, n, i, values[i], tr[n].now - 30_000 - cfg.d + 1) {
        assert HeldAt(tr, n, n, i, values[i], tr[n].now - 30_000 - cfg.d + 1);
      }
    }
  }

  // ---------------------------------------------------------------- the three services

  /** What isEnabled returns, in any behaviour, was the stored flag at some instant of the last 30 seconds and a
      round trip. */
  lemma IsEnabledIsBoundedStale(svc: FeatureFlagsService, key: string, cfg: Config, tr: seq<System<bool>>, n: nat,
                                proc: nat)
    requires Behavior(cfg, tr) && n < |tr| && cfg.rows == 1 && tr[n].rows == [svc.Stored(key)]
    requires Shows(tr[n], proc, svc.cache, key, svc.Stored(key), FlagOf)
    ensures Held(tr, n, 0, Answer(svc.cache, key, svc.Stored(key), tr[n].now), tr[n].now - 30_000 - cfg.d + 1)
  {
    DecodesStored<int, int, int>(svc.Stored(key), None, None, None);
    var values := LookupIsBoundedStale(cfg, tr, n, proc, svc.cache, key, FlagOf);
    assert values == [values[0]];
    DecodesStored<int, int, int>(values[0], None, None, None);
  }

  /** So was what get returns. */
  lemma GetIsBoundedStale<V(!new), R, T>(svc: ParamsService<V, R, T>, key: string, cfg: Config,
                                         tr: seq<System<Option<V>>>, n: nat, proc: nat)
    requires Behavior(cfg, tr) && n < |tr| && cfg.rows == 1 && tr[n].rows == [Found(svc.params, key)]
    requires Shows(tr[n], proc, svc.cache, key, Found(svc.params, key), ParamOf)
    ensures Held(tr, n, 0, Answer(svc.cache, key, Found(svc.params, key), tr[n].now), tr[n].now - 30_000 - cfg.d + 1)
  {
    var stored := Found(svc.params, key);
    DecodesStored<V, int, int>(false, stored, None, None);
    var values := LookupIsBoundedStale(cfg, tr, n, proc, svc.cache, key, ParamOf);
    assert values == [values[0]];
    DecodesStored<V, int, int>(false, values[0], None, None);
  }

  /** The two rows of a producer, each of its own table. */
  ghost predicate ProducerRows<R, T>(rows: seq<ProducerRow<R, T>>) {
    |rows| == 2 && rows[0].ParamsRow? && rows[1].PersonRow?
  }

  /** What getProducerParams returns is put together from a row and a person each stored in that time. */
  lemma GetProducerParamsIsBoundedStale<V, R(!new), T(!new)>(svc: ParamsService<V, R, T>, id: string, cfg: Config,
                                                             tr: seq<System<ProducerRow<R, T>>>, n: nat, proc: nat)
    returns (row: Option<R>, person: Option<Option<T>>)
    requires Behavior(cfg, tr) && n < |tr| && cfg.rows == 2
    requires forall k :: 0 <= k < |tr| ==> ProducerRows(tr[k].rows)
    requires tr[n].rows == [ParamsRow(Found(svc.producerRows, id)), PersonRow(Found(svc.persons, id))]
    requires Shows(tr[n], proc, svc.producerCache, id, svc.StoredProducer(id), DefaultsOf)
    ensures Answer(svc.producerCache, id, svc.StoredProducer(id), tr[n].now) == Defaults(row, person)
    ensures Held(tr, n, 0, ParamsRow(row), tr[n].now - 30_000 - cfg.d + 1)
    ensures Held(tr, n, 1, PersonRow(person), tr[n].now - 30_000 - cfg.d + 1)
    ensures var value := Answer(svc.producerCache, id, svc.StoredProducer(id), tr[n].now);
            && (value.Some? <==> row.Some? || person.Some?)
            && (value.Some? ==> value.value.params == row
                                && value.value.proTier == (if person.Some? then person.value else None))
  {
    DecodesStored<int, R, T>(false, None, Found(svc.producerRows, id), Found(svc.persons, id));
    var values := LookupIsBoundedStale(cfg, tr, n, proc, svc.producerCache, id, DefaultsOf);
    var since := tr[n].now - 30_000 - cfg.d + 1;
    assert Held(tr, n, 0, values[0], since) && Held(tr, n, 1, values[1], since);
    var k: nat :| HeldAt(tr, n, k, 0, values[0], since);
    var m: nat :| HeldAt(tr, n, m, 1, values[1], since);
    assert ProducerRows(tr[k].rows) && ProducerRows(tr[m].rows);
    row, person := values[0].params, values[1].person;
  }

  /** What setEnabled leaves behind for a key that has a row is what a write of the state machine leaves. */
  lemma SetEnabledFollowsProtocol(svc: FeatureFlagsService, key: string, enabled: bool, cfg: Config, s: System<bool>,
                                  proc: nat, id: nat)
    returns (tr: seq<System<bool>>)
    requires cfg.rows == 1 && cfg.writeThrough && s.rows == [svc.Stored(key)] && id !in s.ops
    requires Shows(s, proc, svc.cache, key, svc.Stored(key), FlagOf)
    ensures Steps(cfg, tr) && tr[0] == s && tr[|tr| - 1].rows == [enabled] && OnlyCacheOf(s, tr[|tr| - 1], proc)
    ensures Shows(tr[|tr| - 1], proc, AfterWrite(true, svc.cache, key, enabled, s.now), key, enabled, FlagOf)
  {
    DecodesStored<int, int, int>(svc.Stored(key), None, None, None);
    DecodesStored<int, int, int>(enabled, None, None, None);
    assert s.rows[0 := enabled] == [enabled];
    tr := WriteFollowsProtocol(cfg, s, proc, id, 0, enabled, svc.cache, key, FlagOf);
  }

  /** So is what set leaves behind. */
  lemma SetFollowsProtocol<V(!new), R, T>(svc: ParamsService<V, R, T>, key: string, value: V, cfg: Config,
                                          s: System<Option<V>>, proc: nat, id: nat)
    returns (tr: seq<System<Option<V>>>)
    requires cfg.rows == 1 && !cfg.writeThrough && s.rows == [Found(svc.params, key)] && id !in s.ops
    requires Shows(s, proc, svc.cache, key, Found(svc.params, key), ParamOf)
    ensures Steps(cfg, tr) && tr[0] == s && tr[|tr| - 1].rows == [Some(value)] && OnlyCacheOf(s, tr[|tr| - 1], proc)
    ensures Shows(tr[|tr| - 1], proc, AfterWrite(false, svc.cache, key, Some(value), s.now), key, Some(value), ParamOf)
  {
    DecodesStored<V, int, int>(false, Found(svc.params, key), None, None);
    DecodesStored<V, int, int>(false, Some(value), None, None);
    assert s.rows[0 := Some(value)] == [Some(value)];
    tr := WriteFollowsProtocol(cfg, s, proc, id, 0, Some(value), svc.cache, key, ParamOf);
  }

  /** What isEnabled leaves behind is what a hit, or a read, of the state machine leaves. */
  lemma IsEnabledFollowsProtocol(svc: FeatureFlagsService, key: string, cfg: Config, s: System<bool>,
                                 proc: nat, id: nat)
    returns (tr: seq<System<bool>>, values: seq<bool>)
    requires cfg.rows == 1 && s.rows == [svc.Stored(key)] && id !in s.ops
    requires Shows(s, proc, svc.cache, key, svc.Stored(key), FlagOf)
    ensures Steps(cfg, tr) && tr[0] == s && tr[|tr| - 1].rows == s.rows && OnlyCacheOf(s, tr[|tr| - 1], proc)
    ensures Shows(tr[|tr| - 1], proc, AfterRead(svc.cache, key, svc.Stored(key), s.now), key, svc.Stored(key), FlagOf)
    ensures FlagOf(values) == Answer(svc.cache, key, svc.Stored(key), s.now)
    ensures if Hits(s, proc) then values == s.cache[proc].value else values == s.rows
  {
    DecodesStored<int, int, int>(svc.Stored(key), None, None, None);
    tr, values := LookupFollowsProtocol(cfg, s, proc, id, svc.cache, key, FlagOf);
  }

  /** So is what get leaves behind. */
  lemma GetFollowsProtocol<V(!new), R, T>(svc: ParamsService<V, R, T>, key: string, cfg: Config, s: System<Option<V>>,
                                          proc: nat, id: nat)
    returns (tr: seq<System<Option<V>>>, values: seq<Option<V>>)
    requires cfg.rows == 1 && s.rows == [Found(svc.params, key)] && id !in s.ops
    requires Shows(s, proc, svc.cache, key, Found(svc.params, key), ParamOf)
    ensures Steps(cfg, tr) && tr[0] == s && tr[|tr| - 1].rows == s.rows && OnlyCacheOf(s, tr[|tr| - 1], proc)
    ensures var stored := Found(svc.params, key);
            && Shows(tr[|tr| - 1], proc, AfterRead(svc.cache, key, stored, s.now), key, stored, ParamOf)
            && ParamOf(values) == Answer(svc.cache, key, stored, s.now)
    ensures if Hits(s, proc) then values == s.cache[proc].value else values == s.rows
  {
    DecodesStored<V, int, int>(false, Found(svc.params, key), None, None);
    tr, values := LookupFollowsProtocol(cfg, s, proc, id, svc.cache, key, ParamOf);
  }

  /** So is what getProducerParams leaves behind, a read of two rows. */
  lemma GetProducerParamsFollowsProtocol<V, R(!new), T(!new)>(svc: ParamsService<V, R, T>, id: string, cfg: Config,
                                                              s: System<ProducerRow<R, T>>, proc: nat, op: nat)
    returns (tr: seq<System<ProducerRow<R, T>>>, values: seq<ProducerRow<R, T>>)
    requires cfg.rows == 2 && op !in s.ops
    requires s.rows == [ParamsRow(Found(svc.producerRows, id)), PersonRow(Found(svc.persons, id))]
    requires Shows(s, proc, svc.producerCache, id, svc.StoredProducer(id), DefaultsOf)
    ensures Steps(cfg, tr) && tr[0] == s && tr[|tr| - 1].rows == s.rows && OnlyCacheOf(s, tr[|tr| - 1], proc)
    ensures var stored := svc.StoredProducer(id);
            && Shows(tr[|tr| - 1], proc, AfterRead(svc.producerCache, id, stored, s.now), id, stored, DefaultsOf)
            && DefaultsOf(values) == Answer(svc.producerCache, id, stored, s.now)
    ensures if Hits(s, proc) then values == s.cache[proc].value else values == s.rows
  {
    DecodesStored<int, R, T>(false, None, Found(svc.producerRows, id), Found(svc.persons, id));
    tr, values := LookupFollowsProtocol(cfg, s, proc, op, svc.producerCache, id, DefaultsOf);
  }
}
