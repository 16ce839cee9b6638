/** The sliding-window limiter of leads.controller.ts. */
module Throttle {
  const WINDOW := 3_600_000

  /** The accepted hits of `log` less than one window before `now`. */
  function Recent(log: seq<int>, now: int): (r: seq<int>)
    ensures |r| <= |log|
  {
    if log == [] then []
    else Recent(log[..|log| - 1], now) + (if now - log[|log| - 1] < WINDOW then [log[|log| - 1]] else [])
  }

  function ListOf(hits: map<string, seq<int>>, key: string): seq<int> {
    if key in hits then hits[key] else []
  }

  predicate Refused(hits: map<string, seq<int>>, key: string, now: int, max: nat) {
    |Recent(ListOf(hits, key), now)| >= max
  }

  function After(hits: map<string, seq<int>>, key: string, now: int, max: nat): map<string, seq<int>> {
    if Refused(hits, key, now, max) then hits else hits[key := Recent(ListOf(hits, key), now) + [now]]
  }

  /** The module-level `hits` map. `log` is the full history of accepted hits, which the code does not keep. */
  class Limiter {
    var hits: map<string, seq<int>>
    ghost var log: map<string, seq<int>>

    constructor ()
      ensures hits == map[] && log == map[]
    {
      hits, log := map[], map[];
    }

    /** From `now` on, the pruned lists show the same windows as the full history. */
    ghost predicate Valid(now: int)
      reads this
    {
      && hits.Keys == log.Keys
      && forall k :: k in log ==> Agree(hits[k], log[k], now)
    }

    /** False: ForbiddenException. Exact: refused just when `max` hits were accepted in the last window. */
    method Hit(key: string, max: nat, now: int) returns (accepted: bool)
      requires Valid(now)
      modifies this
      ensures accepted == (|Recent(ListOf(old(log), key), now)| < max)
      ensures hits == After(old(hits), key, now, max) && Valid(now)
      ensures log == if accepted then old(log)[key := ListOf(old(log), key) + [now]] else old(log)
      ensures if accepted then Saved(old(hits), hits, key, now) else hits == old(hits)
    {
      var list := [];
      var seen := ListOf(hits, key);
      for i := 0 to |seen|
        invariant list == Recent(seen[..i], now)
      {
        assert seen[..i + 1][..i] == seen[..i];
        if now - seen[i] < WINDOW {
          list := list + [seen[i]];
        }
      }
      assert seen[..|seen|] == seen;
      assert Agree(seen, ListOf(log, key), now);
      if |list| >= max {
        return false;
      }
      SavedAgrees(seen, ListOf(log, key), now);
      assert forall k :: k in log ==> Agree(hits[k], log[k], now);
      AfterExactly(hits, key, now, max);
      hide Saved;
      hits := hits[key := list + [now]];
      log := log[key := ListOf(log, key) + [now]];
      return true;
    }
  }

  /** `kept` is what is left of `list` once every hit an hour old or older is taken out, in the order it had. */
  ghost predicate IsPruned(list: seq<int>, kept: seq<int>, now: int)
    decreases |list|
  {
    if list == [] then kept == []
    else if now - list[0] < 3_600_000 then kept != [] && kept[0] == list[0] && IsPruned(list[1..], kept[1..], now)
    else IsPruned(list[1..], kept, now)
  }

  /** The key's list is what was left of it with the new hit at its end; the other lists are as they were. */
  ghost predicate Saved(before: map<string, seq<int>>, after: map<string, seq<int>>, key: string, now: int) {
    && after.Keys == before.Keys + {key}
    && (forall k :: k in before && k != key ==> after[k] == before[k])
    && after[key] != [] && after[key][|after[key]| - 1] == now
    && IsPruned(if key in before then before[key] else [], after[key][..|after[key]| - 1], now)
  }

  lemma AfterExactly(hits: map<string, seq<int>>, key: string, now: int, max: nat)
    ensures if |Recent(ListOf(hits, key), now)| >= max then After(hits, key, now, max) == hits
            else Saved(hits, After(hits, key, now, max), key, now)
  {
    var list := Recent(ListOf(hits, key), now);
    RecentExactly(ListOf(hits, key), now, 0);
    hide Recent, IsPruned;
    assert (list + [now])[..|list|] == list;
  }

  lemma RecentFirst(log: seq<int>, now: int)
    requires log != []
    ensures Recent(log, now) == (if now - log[0] < WINDOW then [log[0]] else []) + Recent(log[1..], now)
  {
    var first := [log[0]];
    assert log == first + log[1..] && first[..0] == [] && Recent(first[..0], now) == [];
    RecentConcat(first, log[1..], now);
  }

  lemma {:induction false} RecentIsPruned(log: seq<int>, now: int)
    ensures IsPruned(log, Recent(log, now), now)
    decreases |log|
  {
    if log != [] {
      RecentFirst(log, now);
      RecentIsPruned(log[1..], now);
      var rest := Recent(log[1..], now);
      hide Recent;
      assert [log[0]] + rest == [log[0]] + rest[..] && ([log[0]] + rest)[1..] == rest && [] + rest == rest;
    }
  }

  lemma {:induction false} RecentCounts(log: seq<int>, now: int, h: int)
    ensures multiset(Recent(log, now))[h] == (if now - h < WINDOW then multiset(log)[h] else 0)
    decreases |log|
  {
    if log != [] {
      var front, last := log[..|log| - 1], log[|log| - 1];
      RecentCounts(front, now, h);
      assert log == front + [last];
      if now - last < WINDOW {
        assert Recent(log, now) == Recent(front, now) + [last];
      } else {
        assert Recent(log, now) == Recent(front, now);
      }
      hide Recent;
    }
  }

  /** Recent leaves out exactly the hits of an hour ago or more: those kept are in their order, each as often as it was
      accepted, so their number is the limiter's count. */
  lemma RecentExactly(log: seq<int>, now: int, h: int)
    ensures IsPruned(log, Recent(log, now), now)
    ensures multiset(Recent(log, now))[h] == (if now - h < 3_600_000 then multiset(log)[h] else 0)
  {
    RecentIsPruned(log, now);
    RecentCounts(log, now, h);
  }

  /** The two lists show the same window at every instant from `now` on. */
  ghost predicate Agree(list: seq<int>, log: seq<int>, now: int) {
    forall t :: now <= t ==> Recent(list, t) == Recent(log, t)
  }

  lemma {:induction false} RecentOfRecent(log: seq<int>, now: int, t: int)
    requires now <= t
    ensures Recent(Recent(log, now), t) == Recent(log, t)
  {
    if log != [] {
      var front, last := log[..|log| - 1], log[|log| - 1];
      RecentOfRecent(front, now, t);
      if now - last < WINDOW {
        var r := Recent(front, now) + [last];
        assert r[..|r| - 1] == Recent(front, now);
      } else {
        assert Recent(front, now) + [] == Recent(front, now) && Recent(front, t) + [] == Recent(front, t);
      }
    }
  }

  lemma RecentPush(log: seq<int>, now: int, t: int)
    ensures Recent(log + [now], t) == Recent(log, t) + (if t - now < WINDOW then [now] else [])
  {
    assert (log + [now])[..|log|] == log;
  }

  /** Saving the pruned list loses nothing that a later call could ask for. */
  lemma SavedAgrees(list: seq<int>, log: seq<int>, now: int)
    requires Agree(list, log, now)
    ensures Agree(Recent(list, now) + [now], log + [now], now)
  {
    forall t | now <= t ensures Recent(Recent(list, now) + [now], t) == Recent(log + [now], t) {
      RecentPush(Recent(list, now), now, t);
      RecentPush(log, now, t);
      RecentOfRecent(list, now, t);
    }
  }

  // ---------------------------------------------------------------- whole histories

  datatype Call = Call(key: string, max: nat, at: int)

  ghost predicate ClockAdvances(calls: seq<Call>) {
    forall i, k :: 0 <= i < k < |calls| ==> calls[i].at <= calls[k].at
  }

  function HitsAfter(calls: seq<Call>): map<string, seq<int>> {
    if calls == [] then map[]
    else
      var c := calls[|calls| - 1];
      After(HitsAfter(calls[..|calls| - 1]), c.key, c.at, c.max)
  }

  /** The accepted hits of one key, by the limit's own definition: fewer than max accepted in the last window. */
  function Accepted(calls: seq<Call>, key: string): seq<int> {
    if calls == [] then []
    else
      var c, before := calls[|calls| - 1], Accepted(calls[..|calls| - 1], key);
      if c.key == key && |Recent(before, c.at)| < c.max then before + [c.at] else before
  }

  lemma {:induction false} ImplementationAgrees(calls: seq<Call>, key: string, now: int)
    requires ClockAdvances(calls) && (calls != [] ==> calls[|calls| - 1].at <= now)
    ensures Agree(ListOf(HitsAfter(calls), key), Accepted(calls, key), now)
    decreases |calls|
  {
    if calls != [] {
      var c, front := calls[|calls| - 1], calls[..|calls| - 1];
      ImplementationAgrees(front, key, c.at);
      if c.key == key { SavedAgrees(ListOf(HitsAfter(front), key), Accepted(front, key), c.at); }
    }
  }

  /** After any history, a call is refused exactly when max hits of its key were accepted in the last window. */
  lemma RefusalIsExact(calls: seq<Call>, c: Call)
    requires ClockAdvances(calls + [c])
    ensures Refused(HitsAfter(calls), c.key, c.at, c.max) <==> |Recent(Accepted(calls, c.key), c.at)| >= c.max
  {
    assert forall i :: 0 <= i < |calls| ==> (calls + [c])[i] == calls[i];
    assert (calls + [c])[|calls|] == c;
    ImplementationAgrees(calls, c.key, c.at);
  }

  /** The hits of `log` in [from, from + WINDOW). */
  function InWindow(log: seq<int>, from: int): nat {
    if log == [] then 0
    else InWindow(log[..|log| - 1], from) + (if from <= log[|log| - 1] < from + WINDOW then 1 else 0)
  }

  lemma {:induction false} WindowWithinRecent(log: seq<int>, from: int, last: int)
    requires from <= last < from + WINDOW
    ensures InWindow(log, from) <= |Recent(log, last)|
  {
    if log != [] { WindowWithinRecent(log[..|log| - 1], from, last); }
  }

  lemma InWindowPush(log: seq<int>, t: int, from: int)
    ensures InWindow(log + [t], from) == InWindow(log, from) + (if from <= t < from + WINDOW then 1 else 0)
  {
    assert (log + [t])[..|log|] == log;
  }

  /** No interval of one window holds more than max accepted hits of a key. */
  lemma {:induction false} NoWindowExceedsMax(calls: seq<Call>, key: string, max: nat, from: int)
    requires forall i :: 0 <= i < |calls| && calls[i].key == key ==> calls[i].max <= max
    ensures InWindow(Accepted(calls, key), from) <= max
    decreases |calls|
  {
    if calls != [] {
      var c, front := calls[|calls| - 1], calls[..|calls| - 1];
      NoWindowExceedsMax(front, key, max, from);
      var log := Accepted(front, key);
      InWindowPush(log, c.at, from);
      if from <= c.at < from + WINDOW { WindowWithinRecent(log, from, c.at); }
    }
  }

  // ---------------------------------------------------------------- clocks that are set back

  /** The hits of one key the code accepted, in order; none is ever forgotten here. */
  function Taken(calls: seq<Call>, key: string): seq<int> {
    if calls == [] then []
    else
      var c, front := calls[|calls| - 1], calls[..|calls| - 1];
      Taken(front, key) + if c.key == key && !Refused(HitsAfter(front), key, c.at, c.max) then [c.at] else []
  }

  /** The hits of `log` a whole window or more before `now`: what saving a pruned list drops. */
  function Expired(log: seq<int>, now: int): seq<int> {
    if log == [] then []
    else Expired(log[..|log| - 1], now) + if now - log[|log| - 1] < WINDOW then [] else [log[|log| - 1]]
  }

  /** The hits of one key that some accepted call dropped from the list it saved. */
  function Dropped(calls: seq<Call>, key: string): seq<int> {
    if calls == [] then []
    else
      var c, front := calls[|calls| - 1], calls[..|calls| - 1];
      var accepted := c.key == key && !Refused(HitsAfter(front), key, c.at, c.max);
      Dropped(front, key) + (if accepted then Expired(ListOf(HitsAfter(front), key), c.at) else [])
  }

  lemma {:induction false} RecentConcat(a: seq<int>, b: seq<int>, t: int)
    ensures Recent(a + b, t) == Recent(a, t) + Recent(b, t)
    decreases |b|
  {
    if b == [] {
      assert a + b == a;
    } else {
      RecentConcat(a, b[..|b| - 1], t);
      assert (a + b)[..|a + b| - 1] == a + b[..|b| - 1];
    }
  }

  lemma {:induction false} PruningSplits(list: seq<int>, now: int, t: int)
    ensures |Recent(list, t)| == |Recent(Recent(list, now), t)| + |Recent(Expired(list, now), t)|
    decreases |list|
  {
    if list != [] {
      var front, last := list[..|list| - 1], list[|list| - 1];
      PruningSplits(front, now, t);
      RecentPush(Recent(front, now), last, t);
      RecentPush(Expired(front, now), last, t);
      assert Recent(front, now) + [] == Recent(front, now) && Expired(front, now) + [] == Expired(front, now);
      assert Recent(list, t) == Recent(front, t) + (if t - last < WINDOW then [last] else []);
    }
  }

  lemma SavingSplits(list: seq<int>, taken: seq<int>, dropped: seq<int>, at: int, t: int)
    requires |Recent(taken, t)| == |Recent(list, t)| + |Recent(dropped, t)|
    ensures |Recent(taken + [at], t)| ==
            |Recent(Recent(list, at) + [at], t)| + |Recent(dropped + Expired(list, at), t)|
  {
    PruningSplits(list, at, t);
    RecentPush(Recent(list, at), at, t);
    RecentPush(taken, at, t);
    RecentConcat(dropped, Expired(list, at), t);
  }

  /** Whatever the clock did, the saved list and the dropped hits account for every accepted hit. */
  lemma {:induction false} NothingElseIsLost(calls: seq<Call>, key: string, t: int)
    ensures |Recent(Taken(calls, key), t)| ==
            |Recent(ListOf(HitsAfter(calls), key), t)| + |Recent(Dropped(calls, key), t)|
    decreases |calls|
  {
    hide Recent, Expired;
    if calls == [] {
      NoneRecent([], t);
    } else {
      var c, front := calls[|calls| - 1], calls[..|calls| - 1];
      NothingElseIsLost(front, key, t);
      if c.key == key && !Refused(HitsAfter(front), key, c.at, c.max) {
        SavingSplits(ListOf(HitsAfter(front), key), Taken(front, key), Dropped(front, key), c.at, t);
      } else {
        assert Taken(front, key) + [] == Taken(front, key) && Dropped(front, key) + [] == Dropped(front, key);
      }
    }
  }

  lemma {:induction false} NoneRecent(log: seq<int>, t: int)
    ensures Recent(log, t) == [] <==> forall h :: h in log ==> WINDOW <= t - h
    decreases |log|
  {
    if log != [] {
      var front, last := log[..|log| - 1], log[|log| - 1];
      NoneRecent(front, t);
      assert log == front + [last] && last in log;
      if Recent(log, t) == [] {
        assert |Recent(front, t)| == 0;
        forall h | h in log ensures WINDOW <= t - h { assert h in front || h == last; }
      } else if forall h :: h in log ==> WINDOW <= t - h {
        forall h | h in front ensures WINDOW <= t - h { assert h in log; }
      }
    }
  }

  /** Refusal at t is what the accepted hits of the last window demand, for every limit, if and only if no hit dropped
      earlier is back inside the window of t. */
  lemma RefusalExactWhateverTheClock(calls: seq<Call>, key: string, t: int)
    ensures (forall max: nat :: Refused(HitsAfter(calls), key, t, max) <==> |Recent(Taken(calls, key), t)| >= max) <==>
            forall h :: h in Dropped(calls, key) ==> WINDOW <= t - h
  {
    NothingElseIsLost(calls, key, t);
    NoneRecent(Dropped(calls, key), t);
    var full := |Recent(Taken(calls, key), t)|;
    if Recent(Dropped(calls, key), t) != [] {
      assert !Refused(HitsAfter(calls), key, t, full) && full >= full;
    }
  }

  /** With a clock that is set back the pruned list forgets: the third hit is accepted though two are in its window. */
  lemma ClockSetBackForgets()
    ensures var calls := [Call("k", 2, 0), Call("k", 2, WINDOW)];
            |Recent(Accepted(calls, "k"), 1)| == 2 && !Refused(HitsAfter(calls), "k", 1, 2)
  {
    var c0, c1 := Call("k", 2, 0), Call("k", 2, WINDOW);
    assert [c0, c1][..1] == [c0] && [c0][..0] == [];
    assert Accepted([c0], "k") == [0] && HitsAfter([c0]) == map["k" := [0]];
    assert [0, WINDOW][..1] == [0] && Recent([0], WINDOW) == [] && Recent([0], 1) == [0];
    var hits := map["k" := [0]];
    assert ListOf(hits, "k") == [0] && !Refused(hits, "k", WINDOW, 2);
    assert ListOf(After(hits, "k", WINDOW, 2), "k") == [] + [WINDOW];
    assert HitsAfter([c0, c1]) == After(HitsAfter([c0]), "k", WINDOW, 2);
    assert Recent([0, WINDOW], 1) == [0, WINDOW];
  }
}
