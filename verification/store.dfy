/** The events store of hooks/events-store.ts without its React plumbing:
    the two lists, the two transitions, the registration test, and the
    load/persist steps that mirror the lists into the key-value store.
    The registration id (`Date.now()`) and timestamp
    (`new Date().toISOString()`) are parameters. */
module Store {
  import opened Optional
  import opened Model
  import Catalog
  import Storage
  import Seqs

  const EVENTS_KEY: string := "events"
  const REGISTRATIONS_KEY: string := "registrations"

  /** `events.map(e => e.id === id ? { ...e, currentParticipants: f(c) } : e)`. */
  function UpdateCount(events: seq<Event>, id: string, f: int -> int): (r: seq<Event>)
    ensures |r| == |events|
    ensures forall i :: 0 <= i < |events| ==> SameButCount(events[i], r[i])
    ensures forall i :: 0 <= i < |events| && events[i].id != id ==> r[i] == events[i]
    ensures forall i :: 0 <= i < |events| && events[i].id == id ==>
      r[i].currentParticipants == f(events[i].currentParticipants)
  {
    if |events| == 0 then []
    else
      var e := events[0];
      var e' := if e.id == id then e.(currentParticipants := f(e.currentParticipants)) else e;
      [e'] + UpdateCount(events[1..], id, f)
  }

  function Increment(c: int): int { c + 1 }

  /** `Math.max(0, c - 1)`. */
  function DecrementFloored(c: int): int { if c - 1 < 0 then 0 else c - 1 }

  /** `registerForEvent`: append a confirmed registration and add one to the
      participant count of every event with that id.  Nothing is checked:
      not capacity, not an earlier registration, not that the event exists. */
  function RegisterForEvent(s: Store, eventId: string, userName: string, userEmail: string,
                            newId: string, now: string): (r: Store)
    ensures |r.registrations| == |s.registrations| + 1
    ensures r.registrations[..|s.registrations|] == s.registrations
    ensures r.registrations[|s.registrations|] == Registration(newId, eventId, userName, userEmail, now, CONFIRMED)
    ensures |r.events| == |s.events|
    ensures forall i :: 0 <= i < |s.events| ==>
      && SameButCount(s.events[i], r.events[i])
      && r.events[i].currentParticipants ==
         s.events[i].currentParticipants + (if s.events[i].id == eventId then 1 else 0)
  {
    var registration := Registration(newId, eventId, userName, userEmail, now, CONFIRMED);
    Store(UpdateCount(s.events, eventId, Increment), s.registrations + [registration])
  }

  /** The test `registrations.find` looks for. */
  function HasId(id: string): Registration -> bool {
    (r: Registration) => r.id == id
  }

  /** `registrations.find(r => r.id === id)`: the first registration with
      that id. */
  function FindRegistration(registrations: seq<Registration>, id: string): Option<Registration> {
    Seqs.Find(registrations, HasId(id))
  }

  /** The test `cancelRegistration` filters with. */
  function HasOtherId(id: string): Registration -> bool {
    (r: Registration) => r.id != id
  }

  /** `registrations.filter(r => r.id !== id)`: the registrations with
      other ids, in their order and with their multiplicity. */
  function KeptRegistrations(registrations: seq<Registration>, id: string): (r: seq<Registration>)
    ensures forall i :: 0 <= i < |r| ==> r[i].id != id
    ensures forall x :: x in registrations && x.id != id ==> x in r
    ensures forall x :: x in r ==> x in registrations
    ensures forall x {:trigger multiset(r)[x]} :: multiset(r)[x] == if x.id != id then multiset(registrations)[x] else 0
    ensures Seqs.IsSubsequence(r, registrations)
    ensures (forall i :: 0 <= i < |registrations| ==> registrations[i].id != id) ==> r == registrations
    ensures (exists i :: 0 <= i < |registrations| && registrations[i].id == id) ==> |r| < |registrations|
  {
    var kept := Seqs.Filter(registrations, HasOtherId(id));
    assert forall x {:trigger multiset(kept)[x]} :: multiset(kept)[x] == if x.id != id then multiset(registrations)[x] else 0 by {
      forall x ensures multiset(kept)[x] == if x.id != id then multiset(registrations)[x] else 0 {
        assert HasOtherId(id)(x) == (x.id != id);
      }
    }
    if forall i :: 0 <= i < |registrations| ==> registrations[i].id != id then
      Seqs.FilterKeepsAll(registrations, HasOtherId(id));
      kept
    else
      var i :| 0 <= i < |registrations| && registrations[i].id == id;
      Seqs.FilterDrops(registrations, HasOtherId(id), i);
      kept
  }

  /** The counts after `cancelRegistration`: unchanged when no registration
      has the id; otherwise the count of the first such registration's
      event drops by one, never below zero. */
  function CancelledCounts(events: seq<Event>, registrations: seq<Registration>, id: string): (r: seq<Event>)
    ensures |r| == |events|
    ensures forall i :: 0 <= i < |events| ==> SameButCount(events[i], r[i])
    ensures forall i :: 0 <= i < |events| && events[i].currentParticipants >= 0 ==> r[i].currentParticipants >= 0
    ensures (forall i :: 0 <= i < |registrations| ==> registrations[i].id != id) ==> r == events
    ensures FindRegistration(registrations, id).Some? ==>
      var cancelled := FindRegistration(registrations, id).value;
      forall i :: 0 <= i < |events| ==>
        r[i].currentParticipants ==
        (if events[i].id == cancelled.eventId
         then (if events[i].currentParticipants >= 1 then events[i].currentParticipants - 1 else 0)
         else events[i].currentParticipants)
  {
    match FindRegistration(registrations, id)
    case None => events
    case Some(registration) =>
      assert registration in registrations && registration.id == id by {
        assert HasId(id)(registration);
      }
      UpdateCount(events, registration.eventId, DecrementFloored)
  }

  /** `cancelRegistration`: nothing happens when no registration has the id
      (the source returns early); otherwise every registration with the id
      goes and the count of the first one's event drops by one, never below
      zero. */
  function CancelRegistration(s: Store, registrationId: string): (r: Store)
    ensures (forall i :: 0 <= i < |s.registrations| ==> s.registrations[i].id != registrationId) ==> r == s
    ensures forall i :: 0 <= i < |r.registrations| ==> r.registrations[i].id != registrationId
    ensures forall x :: x in s.registrations && x.id != registrationId ==> x in r.registrations
    ensures forall x :: x in r.registrations ==> x in s.registrations
    ensures forall x {:trigger multiset(r.registrations)[x]} :: multiset(r.registrations)[x] == if x.id != registrationId then multiset(s.registrations)[x] else 0
    ensures Seqs.IsSubsequence(r.registrations, s.registrations)
    ensures |r.events| == |s.events|
    ensures forall i :: 0 <= i < |s.events| ==> SameButCount(s.events[i], r.events[i])
    ensures forall i :: 0 <= i < |s.events| && s.events[i].currentParticipants >= 0 ==>
      r.events[i].currentParticipants >= 0
    ensures FindRegistration(s.registrations, registrationId).Some? ==>
      var cancelled := FindRegistration(s.registrations, registrationId).value;
      && |r.registrations| < |s.registrations|
      && forall i :: 0 <= i < |s.events| ==>
         r.events[i].currentParticipants ==
         (if s.events[i].id == cancelled.eventId
          then (if s.events[i].currentParticipants >= 1 then s.events[i].currentParticipants - 1 else 0)
          else s.events[i].currentParticipants)
  {
    var found := FindRegistration(s.registrations, registrationId);
    assert found.Some? ==> exists i :: 0 <= i < |s.registrations| && s.registrations[i].id == registrationId by {
      if found.Some? {
        var i :| 0 <= i < |s.registrations| && s.registrations[i] == found.value;
        assert HasId(registrationId)(found.value);
      }
    }
    Store(CancelledCounts(s.events, s.registrations, registrationId), KeptRegistrations(s.registrations, registrationId))
  }

  /** A confirmed registration for the event. */
  predicate ConfirmedFor(r: Registration, eventId: string) {
    r.eventId == eventId && r.status == CONFIRMED
  }

  /** `isRegisteredForEvent`: some registration for the event is confirmed. */
  function IsRegisteredForEvent(registrations: seq<Registration>, eventId: string): (b: bool)
    ensures b <==> exists i :: 0 <= i < |registrations| && ConfirmedFor(registrations[i], eventId)
  {
    if |registrations| == 0 then false
    else
      if ConfirmedFor(registrations[0], eventId) then true
      else
        var rest := IsRegisteredForEvent(registrations[1..], eventId);
        assert rest ==> exists i :: 1 <= i < |registrations| && ConfirmedFor(registrations[i], eventId) by {
          if rest {
            var i :| 0 <= i < |registrations[1..]| && ConfirmedFor(registrations[1..][i], eventId);
            assert registrations[i + 1] == registrations[1..][i];
          }
        }
        rest
  }

  /** Right after registering for an event the user is registered for it. */
  lemma RegisterThenRegistered(s: Store, eventId: string, userName: string, userEmail: string,
                               newId: string, now: string)
    ensures IsRegisteredForEvent(RegisterForEvent(s, eventId, userName, userEmail, newId, now).registrations, eventId)
  {
    var r := RegisterForEvent(s, eventId, userName, userEmail, newId, now);
    assert r.registrations[|s.registrations|].eventId == eventId;
  }

  lemma {:induction false} UpdateCountUndo(events: seq<Event>, id: string)
    requires forall i :: 0 <= i < |events| && events[i].id == id ==> events[i].currentParticipants >= 0
    ensures UpdateCount(UpdateCount(events, id, Increment), id, DecrementFloored) == events
  {
    var once := UpdateCount(events, id, Increment);
    var twice := UpdateCount(once, id, DecrementFloored);
    assert forall i :: 0 <= i < |events| ==> twice[i] == events[i] by {
      forall i | 0 <= i < |events|
        ensures twice[i] == events[i]
      {
        assert SameButCount(events[i], once[i]) && SameButCount(once[i], twice[i]);
      }
    }
  }

  /** Registering under an id no registration has yet, then cancelling that
      id, restores both lists exactly (counts of the event start at zero or
      more, as the source's never go below zero). */
  lemma RegisterThenCancel(s: Store, eventId: string, userName: string, userEmail: string,
                           newId: string, now: string)
    requires forall i :: 0 <= i < |s.registrations| ==> s.registrations[i].id != newId
    requires forall i :: 0 <= i < |s.events| && s.events[i].id == eventId ==> s.events[i].currentParticipants >= 0
    ensures CancelRegistration(RegisterForEvent(s, eventId, userName, userEmail, newId, now), newId) == s
  {
    var registration := Registration(newId, eventId, userName, userEmail, now, CONFIRMED);
    var registered := RegisterForEvent(s, eventId, userName, userEmail, newId, now);
    assert registered.registrations == s.registrations + [registration];
    Seqs.FindAt(registered.registrations, HasId(newId), |s.registrations|);
    Seqs.FilterConcat(s.registrations, [registration], HasOtherId(newId));
    Seqs.FilterKeepsAll(s.registrations, HasOtherId(newId));
    assert Seqs.Filter([registration], HasOtherId(newId)) == [];
    UpdateCountUndo(s.events, eventId);
  }

  /** Sum of the participant counts. */
  function TotalParticipants(events: seq<Event>): int {
    if |events| == 0 then 0 else events[0].currentParticipants + TotalParticipants(events[1..])
  }

  /** How many events carry the id. */
  function CountWithId(events: seq<Event>, id: string): nat {
    if |events| == 0 then 0 else (if events[0].id == id then 1 else 0) + CountWithId(events[1..], id)
  }

  /** Registering adds one participant per event with that id: exactly one
      when ids are unique, none when the event does not exist. */
  lemma {:induction false} RegisterAddsParticipants(events: seq<Event>, id: string)
    ensures TotalParticipants(UpdateCount(events, id, Increment)) == TotalParticipants(events) + CountWithId(events, id)
    decreases |events|
  {
    if |events| > 0 {
      RegisterAddsParticipants(events[1..], id);
      assert UpdateCount(events, id, Increment)[1..] == UpdateCount(events[1..], id, Increment);
    }
  }

  /** The persisted representation: how the lists are encoded and decoded
      (`JSON.stringify` / `JSON.parse` with the element types). */
  datatype Codecs = Codecs(
    parseEvents: string -> Option<seq<Event>>,
    stringifyEvents: seq<Event> -> string,
    parseRegistrations: string -> Option<seq<Registration>>,
    stringifyRegistrations: seq<Registration> -> string)

  /** The store as the app sees it: memory plus its durable mirror. */
  datatype App = App(store: Store, storage: Storage.KeyValue)

  /** The two initial queries: each list is read independently; events fall
      back to the built-in catalog and registrations to the empty list only
      when the read yields nothing, so a stored empty list stays empty. */
  function Load(kv: Storage.KeyValue, codecs: Codecs): (r: App)
    ensures var read := Storage.GetStoredData(kv, EVENTS_KEY, codecs.parseEvents);
            r.store.events == (if read.value.Some? then read.value.value else Catalog.MOCK_EVENTS)
    ensures var read := Storage.GetStoredData(kv, REGISTRATIONS_KEY, codecs.parseRegistrations);
            r.store.registrations == (if read.value.Some? then read.value.value else [])
    ensures EVENTS_KEY !in kv ==> r.store.events == Catalog.MOCK_EVENTS
    ensures REGISTRATIONS_KEY !in kv ==> r.store.registrations == []
    ensures forall k :: k in r.storage ==> k in kv && r.storage[k] == kv[k]
    ensures forall k :: k in kv && k != EVENTS_KEY && k != REGISTRATIONS_KEY ==> k in r.storage
  {
    var events := Storage.GetStoredData(kv, EVENTS_KEY, codecs.parseEvents);
    var registrations := Storage.GetStoredData(events.storage, REGISTRATIONS_KEY, codecs.parseRegistrations);
    Storage.ReadIgnoresOtherKeys(kv, events.storage, REGISTRATIONS_KEY, codecs.parseRegistrations);
    App(Store(events.value.GetOr(Catalog.MOCK_EVENTS), registrations.value.GetOr([])), registrations.storage)
  }

  /** The two saves after a mutation: each whole list is written under its
      key (the lists are never null, so both are written). */
  function Persist(kv: Storage.KeyValue, s: Store, codecs: Codecs): (r: Storage.KeyValue)
    ensures REGISTRATIONS_KEY in r && r[REGISTRATIONS_KEY] == codecs.stringifyRegistrations(s.registrations)
    ensures EVENTS_KEY in r && r[EVENTS_KEY] == codecs.stringifyEvents(s.events)
    ensures forall k :: k != EVENTS_KEY && k != REGISTRATIONS_KEY ==> (k in r <==> k in kv) && (k in r ==> r[k] == kv[k])
  {
    var withRegistrations := Storage.SetStoredData(kv, REGISTRATIONS_KEY, Some(s.registrations), codecs.stringifyRegistrations);
    Storage.SetStoredData(withRegistrations, EVENTS_KEY, Some(s.events), codecs.stringifyEvents)
  }

  /** The encodings of these two lists read back as the lists. */
  predicate Faithful(s: Store, codecs: Codecs) {
    && Storage.RoundTrips(s.events, codecs.parseEvents, codecs.stringifyEvents)
    && Storage.RoundTrips(s.registrations, codecs.parseRegistrations, codecs.stringifyRegistrations)
  }

  /** Persisting and then loading gives the persisted lists back, whatever
      was stored before, and the load deletes nothing. */
  lemma PersistThenLoad(kv: Storage.KeyValue, s: Store, codecs: Codecs)
    requires Faithful(s, codecs)
    ensures Load(Persist(kv, s, codecs), codecs) == App(s, Persist(kv, s, codecs))
  {
    var saved := Persist(kv, s, codecs);
    Storage.ReadEncoded(saved, EVENTS_KEY, s.events, codecs.parseEvents, codecs.stringifyEvents);
    Storage.ReadEncoded(saved, REGISTRATIONS_KEY, s.registrations, codecs.parseRegistrations, codecs.stringifyRegistrations);
  }

  /** `registerForEvent` as the app runs it: update memory, then save both
      lists, each under its own key, leaving every other key alone. */
  function Register(app: App, codecs: Codecs, eventId: string, userName: string, userEmail: string,
                    newId: string, now: string): (r: App)
    ensures r.store == RegisterForEvent(app.store, eventId, userName, userEmail, newId, now)
    ensures EVENTS_KEY in r.storage && r.storage[EVENTS_KEY] == codecs.stringifyEvents(r.store.events)
    ensures REGISTRATIONS_KEY in r.storage &&
            r.storage[REGISTRATIONS_KEY] ==
            codecs.stringifyRegistrations(app.store.registrations + [Registration(newId, eventId, userName, userEmail, now, CONFIRMED)])
    ensures forall k :: k != EVENTS_KEY && k != REGISTRATIONS_KEY ==>
      (k in r.storage <==> k in app.storage) && (k in r.storage ==> r.storage[k] == app.storage[k])
  {
    var s := RegisterForEvent(app.store, eventId, userName, userEmail, newId, now);
    App(s, Persist(app.storage, s, codecs))
  }

  /** `cancelRegistration` as the app runs it: an unknown id returns before
      anything is saved, so memory and storage stay as they were; otherwise
      memory is updated and both lists are saved under their keys, leaving
      every other key alone. */
  function Cancel(app: App, codecs: Codecs, registrationId: string): (r: App)
    ensures FindRegistration(app.store.registrations, registrationId).None? ==> r == app
    ensures FindRegistration(app.store.registrations, registrationId).Some? ==>
      && r.store == CancelRegistration(app.store, registrationId)
      && EVENTS_KEY in r.storage && r.storage[EVENTS_KEY] == codecs.stringifyEvents(r.store.events)
      && REGISTRATIONS_KEY in r.storage
      && r.storage[REGISTRATIONS_KEY] == codecs.stringifyRegistrations(r.store.registrations)
    ensures forall k :: k != EVENTS_KEY && k != REGISTRATIONS_KEY ==>
      (k in r.storage <==> k in app.storage) && (k in r.storage ==> r.storage[k] == app.storage[k])
  {
    if FindRegistration(app.store.registrations, registrationId).None? then app
    else
      var s := CancelRegistration(app.store, registrationId);
      App(s, Persist(app.storage, s, codecs))
  }

  /** Write-through: after a registration, reloading from storage gives the
      in-memory state (when the encodings read back), whatever was stored
      before. */
  lemma RegisterIsDurable(app: App, codecs: Codecs, eventId: string, userName: string, userEmail: string,
                          newId: string, now: string)
    requires Faithful(RegisterForEvent(app.store, eventId, userName, userEmail, newId, now), codecs)
    ensures var r := Register(app, codecs, eventId, userName, userEmail, newId, now);
            Load(r.storage, codecs) == r
  {
    var r := Register(app, codecs, eventId, userName, userEmail, newId, now);
    PersistThenLoad(app.storage, r.store, codecs);
  }

  /** Write-through for a cancellation: after cancelling a known id,
      reloading from storage gives the in-memory state (when the encodings
      read back), whatever was stored before. */
  lemma CancelIsDurable(app: App, codecs: Codecs, registrationId: string)
    requires FindRegistration(app.store.registrations, registrationId).Some?
    requires Faithful(CancelRegistration(app.store, registrationId), codecs)
    ensures var r := Cancel(app, codecs, registrationId);
            Load(r.storage, codecs) == r
  {
    var r := Cancel(app, codecs, registrationId);
    PersistThenLoad(app.storage, r.store, codecs);
  }
}
