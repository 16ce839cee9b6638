/** Which events a producer's query reaches, query.service.ts: with a chosen scope, and with none. */
module ProducerScope {
  import opened Wrappers

  type Id = string

  datatype Event = Event(producer: Id, series: Option<Id>)

  /** Events, and the producer of each series. */
  datatype Tables = Tables(events: map<Id, Event>, series: map<Id, Id>)

  predicate OwnsSeries(t: Tables, person: Id, e: Event) {
    e.series.Some? && e.series.value in t.series && t.series[e.series.value] == person
  }

  /** scopeFor without a scopeId: own events, and events of own series. */
  function AllEvents(t: Tables, person: Id): set<Id> {
    set id | id in t.events && (t.events[id].producer == person || OwnsSeries(t, person, t.events[id]))
  }

  function EventsOfSeries(t: Tables, seriesId: Id): set<Id> {
    set id | id in t.events && t.events[id].series == Some(seriesId)
  }

  predicate OwnEvent(t: Tables, person: Id, id: Id) {
    id in t.events && t.events[id].producer == person
  }

  /** producerEventScope: an own event, else an own series, else nothing. */
  function Scoped(t: Tables, person: Id, scopeId: Id): set<Id> {
    if OwnEvent(t, person, scopeId) then {scopeId}
    else if scopeId in t.series && t.series[scopeId] == person then EventsOfSeries(t, scopeId)
    else {}
  }

  function ScopeFor(t: Tables, person: Id, scopeId: Option<Id>): set<Id> {
    if scopeId.Some? && scopeId.value != "" then Scoped(t, person, scopeId.value) else AllEvents(t, person)
  }

  const OPTION_TAKE := 300

  function OwnSeries(t: Tables, person: Id): set<Id> {
    set s | s in t.series && t.series[s] == person
  }

  /** A query's answer in some order: every row once. */
  ghost predicate Lists(order: seq<Id>, rows: set<Id>) {
    (forall id :: id in order <==> id in rows) &&
    forall i, j :: 0 <= i < j < |order| ==> order[i] != order[j]
  }

  function Taken(order: seq<Id>): seq<Id> {
    if |order| <= OPTION_TAKE then order else order[..OPTION_TAKE]
  }

  /** myEventScopes: the series and the events, each list cut at the cap. */
  function Offered(series: seq<Id>, events: seq<Id>): seq<Id> {
    Taken(series) + Taken(events)
  }

  function Reached(t: Tables, person: Id, ids: seq<Id>): set<Id> {
    set s, id | s in ids && id in Scoped(t, person, s) :: id
  }

  /** No choice of scope reaches an event that no scope would not, and some choices reach less. */
  lemma ScopeNeverWidens(t: Tables, person: Id, scopeId: Option<Id>, ids: seq<Id>)
    ensures ScopeFor(t, person, scopeId) <= AllEvents(t, person)
    ensures Reached(t, person, ids) <= AllEvents(t, person)
  {
    forall s ensures Scoped(t, person, s) <= AllEvents(t, person) {}
  }

  /** How a choice can reach an event: by its own id when it is an own event, else by its series, if that is an
      own series whose id no own event has. */
  predicate Covered(t: Tables, person: Id, ids: seq<Id>, id: Id)
    requires id in AllEvents(t, person)
  {
    var e := t.events[id];
    (e.producer == person && id in ids) ||
    (OwnsSeries(t, person, e) && e.series.value in ids && !OwnEvent(t, person, e.series.value))
  }

  lemma ReachedExactly(t: Tables, person: Id, ids: seq<Id>, id: Id)
    requires id in AllEvents(t, person)
    ensures id in Reached(t, person, ids) <==> Covered(t, person, ids, id)
  {
    var e := t.events[id];
    if e.producer == person && id in ids {
      assert id in Scoped(t, person, id);
    } else if Covered(t, person, ids, id) {
      assert id in Scoped(t, person, e.series.value);
    }
  }

  /** An id that is both an own event and an own series stands for the event: the series' other events must be own. */
  ghost predicate SeriesIdsClear(t: Tables, person: Id) {
    forall id :: id in AllEvents(t, person) && t.events[id].producer != person ==>
        !OwnEvent(t, person, t.events[id].series.value)
  }

  /** The options together reach what no scope reaches if and only if every event is covered; below the cap, which
      takes in own series' events of other producers, if and only if no such series shares its id with an own event. */
  lemma OptionsCoverExactly(t: Tables, person: Id, series: seq<Id>, events: seq<Id>)
    requires Lists(series, OwnSeries(t, person)) && Lists(events, AllEvents(t, person))
    ensures Reached(t, person, Offered(series, events)) == AllEvents(t, person) <==>
            forall id :: id in AllEvents(t, person) ==> Covered(t, person, Offered(series, events), id)
    ensures |series| <= OPTION_TAKE && |events| <= OPTION_TAKE ==>
              (Reached(t, person, Offered(series, events)) == AllEvents(t, person) <==> SeriesIdsClear(t, person))
  {
    var ids, all := Offered(series, events), AllEvents(t, person);
    forall id | id in all ensures id in Reached(t, person, ids) <==> Covered(t, person, ids, id) {
      ReachedExactly(t, person, ids, id);
    }
    ScopeNeverWidens(t, person, None, ids);
    assert Reached(t, person, ids) == all <==> forall id :: id in all ==> Covered(t, person, ids, id) by {
      if forall id :: id in all ==> Covered(t, person, ids, id) { assert all <= Reached(t, person, ids); }
    }
    if |series| <= OPTION_TAKE && |events| <= OPTION_TAKE {
      forall id | id in all
        ensures Covered(t, person, ids, id) <==>
            (t.events[id].producer == person || !OwnEvent(t, person, t.events[id].series.value))
      {
        assert id in ids;
      }
    }
  }

  /** Past the cap an own event without a series is lost exactly when the list leaves it out. */
  lemma CapLoses(t: Tables, person: Id, series: seq<Id>, events: seq<Id>, k: nat)
    requires Lists(series, OwnSeries(t, person)) && Lists(events, AllEvents(t, person))
    requires k < |events| && events[k] in t.events && t.events[events[k]].series.None? && events[k] !in series
    ensures events[k] in Reached(t, person, Offered(series, events)) <==> k < OPTION_TAKE
  {
    ReachedExactly(t, person, Offered(series, events), events[k]);
  }

  /** An own series with the id of an own event: its event of another producer is reached without a scope only. */
  lemma ShadowedSeries()
    ensures var t := Tables(map["x" := Event("me", None), "y" := Event("other", Some("x"))], map["x" := "me"]);
            && AllEvents(t, "me") == {"x", "y"}
            && forall events :: Lists(events, {"x", "y"}) ==> Reached(t, "me", Offered(["x"], events)) == {"x"}
  {
    var t := Tables(map["x" := Event("me", None), "y" := Event("other", Some("x"))], map["x" := "me"]);
    assert AllEvents(t, "me") == {"x", "y"};
    forall events | Lists(events, {"x", "y"}) ensures Reached(t, "me", Offered(["x"], events)) == {"x"} {
      var ids := Offered(["x"], events);
      assert ids[0] == "x" && Scoped(t, "me", "x") == {"x"};
      forall id | id in ids ensures Scoped(t, "me", id) <= {"x"} {
        assert id in ["x"] || id in events;
      }
    }
  }

  /** What a producer reaches, from the tables. Without a scope: own events and events of own series. With one that is
      an own event: that event; with one that is an own series: its events, whoever produces them; else nothing. An
      empty scope is none. */
  lemma ScopeExactly(t: Tables, person: Id, scopeId: Id, id: Id)
    ensures id in ScopeFor(t, person, None) <==>
            && id in t.events
            && (t.events[id].producer == person
                || (t.events[id].series.Some? && t.events[id].series.value in t.series
                    && t.series[t.events[id].series.value] == person))
    ensures ScopeFor(t, person, Some("")) == ScopeFor(t, person, None)
    ensures scopeId != "" ==>
              (id in ScopeFor(t, person, Some(scopeId)) <==>
               if scopeId in t.events && t.events[scopeId].producer == person then id == scopeId
               else && scopeId in t.series && t.series[scopeId] == person
                    && id in t.events && t.events[id].series == Some(scopeId))
  {
  }

  /** At most 300 series and 300 events are offered, the first of each list. */
  lemma OfferedExactly(series: seq<Id>, events: seq<Id>)
    ensures |Taken(series)| == (if |series| <= 300 then |series| else 300)
    ensures forall k :: 0 <= k < |Taken(series)| ==> Taken(series)[k] == series[k]
    ensures forall id :: id in Offered(series, events) <==>
              || (exists k :: 0 <= k < |series| && k < 300 && series[k] == id)
              || (exists k :: 0 <= k < |events| && k < 300 && events[k] == id)
  {
    forall id ensures id in Offered(series, events) <==> id in Taken(series) || id in Taken(events) {}
    TakenExactly(series);
    TakenExactly(events);
  }

  lemma TakenExactly(order: seq<Id>)
    ensures forall id :: id in Taken(order) <==> exists k :: 0 <= k < |order| && k < 300 && order[k] == id
  {
    forall id ensures id in Taken(order) <==> exists k :: 0 <= k < |order| && k < 300 && order[k] == id {
      if k :| 0 <= k < |order| && k < 300 && order[k] == id { assert Taken(order)[k] == id; }
    }
  }
}
