/** The four derived views of the events store: upcoming events, events of
    a day, events of a month, and the user's registrations joined with their
    events.  Both sorted views order by the date text with a stable
    insertion sort; `TextOrderIsChronological` in module Dates shows that on
    stored `YYYY-MM-DD` dates this is the `getTime()` order the source's
    comparator uses, and `Array.prototype.sort` is stable. */
module Views {
  import opened Optional
  import opened Model
  import LexOrder
  import Dates
  import Seqs
  import Catalog
  import Store

  /** Every event is dated no later than every event after it. */
  predicate SortedByDate(s: seq<Event>) {
    forall i, j :: 0 <= i < j < |s| ==> LexOrder.LessOrEqual(s[i].date, s[j].date)
  }

  /** Put `x` in front of the first event dated on or after it. */
  function Insert(x: Event, sorted: seq<Event>): (r: seq<Event>)
    ensures multiset(r) == multiset(sorted) + multiset{x}
    ensures |r| == |sorted| + 1
  {
    if |sorted| == 0 || LexOrder.LessOrEqual(x.date, sorted[0].date) then [x] + sorted
    else
      assert sorted == [sorted[0]] + sorted[1..];
      [sorted[0]] + Insert(x, sorted[1..])
  }

  lemma {:induction false} InsertSorted(x: Event, sorted: seq<Event>)
    requires SortedByDate(sorted)
    ensures SortedByDate(Insert(x, sorted))
    decreases |sorted|
  {
    var r := Insert(x, sorted);
    if |sorted| == 0 {
    } else if LexOrder.LessOrEqual(x.date, sorted[0].date) {
      forall j | 0 < j < |r|
        ensures LexOrder.LessOrEqual(x.date, r[j].date)
      {
        if j > 1 {
          LexOrder.LessOrEqualTransitive(x.date, sorted[0].date, sorted[j - 1].date);
        }
      }
    } else {
      var tail := Insert(x, sorted[1..]);
      InsertSorted(x, sorted[1..]);
      LexOrder.LessOrEqualTotal(x.date, sorted[0].date);
      forall j | 0 <= j < |tail|
        ensures LexOrder.LessOrEqual(sorted[0].date, tail[j].date)
      {
        assert tail[j] in multiset(tail);
        if tail[j] != x {
          assert tail[j] in multiset(sorted[1..]);
          var k :| 0 <= k < |sorted[1..]| && sorted[1..][k] == tail[j];
          assert sorted[k + 1] == tail[j];
        }
      }
    }
  }

  /** The events ordered by date; events of one date keep their order. */
  function SortByDate(events: seq<Event>): (r: seq<Event>)
    ensures multiset(r) == multiset(events)
    ensures |r| == |events|
    ensures SortedByDate(r)
  {
    if |events| == 0 then []
    else
      var rest := SortByDate(events[1..]);
      assert events == [events[0]] + events[1..];
      InsertSorted(events[0], rest);
      Insert(events[0], rest)
  }

  /** The test `useEventsByDate` filters with. */
  function OnDate(date: string): Event -> bool {
    (e: Event) => e.date == date
  }

  lemma {:induction false} InsertStable(x: Event, t: seq<Event>, date: string)
    ensures Seqs.Filter(Insert(x, t), OnDate(date)) == Seqs.Filter([x] + t, OnDate(date))
    decreases |t|
  {
    if |t| > 0 && !LexOrder.LessOrEqual(x.date, t[0].date) {
      InsertStable(x, t[1..], date);
      var r := Insert(x, t);
      assert r[1..] == Insert(x, t[1..]);
      assert ([x] + t)[1..] == t;
      assert ([x] + t[1..])[1..] == t[1..];
      assert t == [t[0]] + t[1..];
      LexOrder.Irreflexive(x.date);
    }
  }

  /** Stability: the events of any one date appear in the sorted list in
      the order they had before sorting. */
  lemma {:induction false} SortIsStable(events: seq<Event>, date: string)
    ensures Seqs.Filter(SortByDate(events), OnDate(date)) == Seqs.Filter(events, OnDate(date))
    decreases |events|
  {
    if |events| > 0 {
      var e, tail := events[0], events[1..];
      var rest := SortByDate(tail);
      var p := OnDate(date);
      assert events == [e] + tail;
      PrependStep(e, tail);
      SortIsStable(tail, date);
      InsertStable(e, rest, date);
      Seqs.FilterSameHead(e, rest, tail, p);
    }
  }

  /** `useUpcomingEvents`: every event, sorted by date, stable for equal
      dates.  The source sorts the store's own array in place and returns
      it; the model returns the sorted list and leaves the state alone. */
  function UpcomingEvents(events: seq<Event>): (r: seq<Event>)
    ensures multiset(r) == multiset(events)
    ensures SortedByDate(r)
    ensures forall date :: Seqs.Filter(r, OnDate(date)) == Seqs.Filter(events, OnDate(date))
  {
    var r := SortByDate(events);
    forall date
      ensures Seqs.Filter(r, OnDate(date)) == Seqs.Filter(events, OnDate(date))
    {
      SortIsStable(events, date);
    }
    r
  }

  /** Events whose dates parse are in day-number order, which is the order
      of the source's `getTime()` comparator. */
  predicate Chronological(s: seq<Event>) {
    forall i, j :: 0 <= i < j < |s| ==>
      && Dates.Parse(s[i].date).Some? && Dates.Parse(s[j].date).Some?
      && Dates.DayNumber(Dates.Parse(s[i].date).value) <= Dates.DayNumber(Dates.Parse(s[j].date).value)
  }

  /** Where every date parses, the upcoming list ascends in day numbers. */
  lemma UpcomingIsChronological(events: seq<Event>)
    requires forall i :: 0 <= i < |events| ==> Dates.Parse(events[i].date).Some?
    ensures Chronological(UpcomingEvents(events))
  {
    var r := UpcomingEvents(events);
    assert forall k :: 0 <= k < |r| ==> Dates.Parse(r[k].date).Some? by {
      forall k | 0 <= k < |r| ensures Dates.Parse(r[k].date).Some? {
        assert r[k] in multiset(events);
        var a :| 0 <= a < |events| && events[a] == r[k];
      }
    }
    forall i, j | 0 <= i < j < |r|
      ensures Dates.DayNumber(Dates.Parse(r[i].date).value) <= Dates.DayNumber(Dates.Parse(r[j].date).value)
    {
      Dates.TextOrderIsChronological(r[j].date, r[i].date);
    }
  }

  /** `useEventsByDate`: the events on exactly that date text, in store
      order: a subsequence of the store holding each event of that date as
      often as the store does. */
  function EventsByDate(events: seq<Event>, date: string): (r: seq<Event>)
    ensures forall i :: 0 <= i < |r| ==> r[i].date == date
    ensures forall e :: e in r <==> e in events && e.date == date
    ensures forall e :: multiset(r)[e] == if e.date == date then multiset(events)[e] else 0
    ensures Seqs.IsSubsequence(r, events)
  {
    Seqs.Filter(events, OnDate(date))
  }

  /** The contract of the day view pins it down: any subsequence of the store
      holding each event of the date as often as the store, and nothing
      else, is the day view. */
  lemma EventsByDateUnique(r: seq<Event>, events: seq<Event>, date: string)
    requires Seqs.IsSubsequence(r, events)
    requires forall e :: multiset(r)[e] == if e.date == date then multiset(events)[e] else 0
    ensures r == EventsByDate(events, date)
  {
    Seqs.FilterUnique(r, events, OnDate(date));
  }

  /** The day view reads the same from the store as from the upcoming list. */
  lemma EventsByDateOfUpcoming(events: seq<Event>, date: string)
    ensures EventsByDate(UpcomingEvents(events), date) == EventsByDate(events, date)
  {
  }

  /** The month test of `useEventsByMonth`: the date parses and falls in
      `year` and the 0-indexed `month`; an unreadable date never matches
      (JavaScript's invalid `Date` compares unequal to every number). */
  function InMonth(year: int, month: int): Event -> bool {
    (e: Event) => Dates.Parse(e.date).Some? && Dates.Parse(e.date).value.year == year
                  && Dates.Parse(e.date).value.month - 1 == month
  }

  /** `useEventsByMonth`: the events of that month, sorted by date. */
  function EventsByMonth(events: seq<Event>, year: int, month: int): (r: seq<Event>)
    ensures SortedByDate(r)
    ensures multiset(r) == multiset(Seqs.Filter(events, InMonth(year, month)))
    ensures forall e :: e in r <==> e in events && InMonth(year, month)(e)
  {
    var inMonth := Seqs.Filter(events, InMonth(year, month));
    var r := SortByDate(inMonth);
    assert forall e :: e in r <==> e in multiset(inMonth);
    r
  }

  /** An event dated no later than the head of a sorted list also goes in
      front of any filtered part of it. */
  lemma InsertBeforeFiltered(x: Event, t: seq<Event>, p: Event -> bool)
    requires SortedByDate(t) && |t| > 0 && LexOrder.LessOrEqual(x.date, t[0].date)
    ensures Insert(x, Seqs.Filter(t, p)) == [x] + Seqs.Filter(t, p)
  {
    var ft := Seqs.Filter(t, p);
    if |ft| > 0 {
      assert ft[0] in t;
      var k :| 0 <= k < |t| && t[k] == ft[0];
      if k > 0 {
        LexOrder.LessOrEqualTransitive(x.date, t[0].date, t[k].date);
      }
    }
  }

  lemma {:induction false} FilterInsert(x: Event, t: seq<Event>, p: Event -> bool)
    requires SortedByDate(t)
    ensures Seqs.Filter(Insert(x, t), p) == (if p(x) then Insert(x, Seqs.Filter(t, p)) else Seqs.Filter(t, p))
    decreases |t|
  {
    if |t| == 0 {
    } else if LexOrder.LessOrEqual(x.date, t[0].date) {
      assert Insert(x, t) == [x] + t;
      Seqs.FilterConcat([x], t, p);
      if p(x) {
        InsertBeforeFiltered(x, t, p);
      }
    } else {
      FilterInsertLater(x, t, p);
    }
  }

  lemma {:induction false} FilterInsertLater(x: Event, t: seq<Event>, p: Event -> bool)
    requires SortedByDate(t) && |t| > 0 && !LexOrder.LessOrEqual(x.date, t[0].date)
    ensures Seqs.Filter(Insert(x, t), p) == (if p(x) then Insert(x, Seqs.Filter(t, p)) else Seqs.Filter(t, p))
    decreases |t|, 0
  {
    var head, rest := t[0], t[1..];
    assert SortedByDate(rest);
    FilterInsert(x, rest, p);
    assert t == [head] + rest;
    assert Insert(x, t) == [head] + Insert(x, rest);
    Seqs.FilterCons(head, Insert(x, rest), p);
    Seqs.FilterCons(head, rest, p);
    if p(head) && p(x) {
      InsertAfterHead(x, head, Seqs.Filter(rest, p));
    }
  }

  /** An event dated after the head of a list is inserted behind it. */
  lemma InsertAfterHead(x: Event, head: Event, s: seq<Event>)
    requires !LexOrder.LessOrEqual(x.date, head.date)
    ensures Insert(x, [head] + s) == [head] + Insert(x, s)
  {
    assert ([head] + s)[0] == head && ([head] + s)[1..] == s;
  }

  /** Sorting then filtering is filtering then sorting. */
  lemma {:induction false} SortFilterCommute(events: seq<Event>, p: Event -> bool)
    ensures Seqs.Filter(SortByDate(events), p) == SortByDate(Seqs.Filter(events, p))
    decreases |events|
  {
    if |events| > 0 {
      var rest := events[1..];
      SortFilterCommute(rest, p);
      FilterInsert(events[0], SortByDate(rest), p);
      var fr := Seqs.Filter(rest, p);
      if p(events[0]) {
        assert Seqs.Filter(events, p) == [events[0]] + fr;
        assert ([events[0]] + fr)[1..] == fr;
      }
    }
  }

  /** The month view is the month's slice of the upcoming list, in the same
      order. */
  lemma EventsByMonthOfUpcoming(events: seq<Event>, year: int, month: int)
    ensures EventsByMonth(events, year, month) == Seqs.Filter(UpcomingEvents(events), InMonth(year, month))
  {
    SortFilterCommute(events, InMonth(year, month));
  }

  /** One row of `useUserRegistrations`. */
  datatype Joined = Joined(registration: Registration, event: Event)

  /** The test `events.find` uses for a registration's event. */
  function HasEventId(id: string): Event -> bool {
    (e: Event) => e.id == id
  }

  /** A registration that `useUserRegistrations` keeps: confirmed, and some
      event carries its event id. */
  function Joinable(events: seq<Event>): Registration -> bool {
    (r: Registration) => r.status == CONFIRMED && Seqs.Find(events, HasEventId(r.eventId)).Some?
  }

  function RegistrationsOf(rows: seq<Joined>): (r: seq<Registration>)
    ensures |r| == |rows|
    ensures forall i :: 0 <= i < |rows| ==> r[i] == rows[i].registration
  {
    if |rows| == 0 then [] else [rows[0].registration] + RegistrationsOf(rows[1..])
  }

  lemma RegistrationsOfCons(row: Joined, rows: seq<Joined>)
    ensures RegistrationsOf([row] + rows) == [row.registration] + RegistrationsOf(rows)
  {
    assert ([row] + rows)[1..] == rows;
  }

  /** `useUserRegistrations`: the confirmed registrations, in order, each
      with the first event of its event id; registrations whose event is
      gone are dropped.  Which registrations are kept is
      `UserRegistrationsKeep`. */
  function UserRegistrations(registrations: seq<Registration>, events: seq<Event>): (r: seq<Joined>)
    ensures |r| <= |registrations|
    ensures forall i :: 0 <= i < |r| ==>
      && r[i].registration.status == CONFIRMED
      && Seqs.Find(events, HasEventId(r[i].registration.eventId)) == Some(r[i].event)
  {
    if |registrations| == 0 then []
    else
      var rest := UserRegistrations(registrations[1..], events);
      var reg := registrations[0];
      var found := Seqs.Find(events, HasEventId(reg.eventId));
      if reg.status == CONFIRMED && found.Some? then [Joined(reg, found.value)] + rest
      else rest
  }

  /** The registrations shown are exactly the joinable ones, in registration
      order. */
  lemma {:induction false} UserRegistrationsKeep(registrations: seq<Registration>, events: seq<Event>)
    ensures RegistrationsOf(UserRegistrations(registrations, events)) == Seqs.Filter(registrations, Joinable(events))
    decreases |registrations|
  {
    if |registrations| > 0 {
      var reg, tail := registrations[0], registrations[1..];
      var rest := UserRegistrations(tail, events);
      UserRegistrationsKeep(tail, events);
      var found := Seqs.Find(events, HasEventId(reg.eventId));
      assert Joinable(events)(reg) == (reg.status == CONFIRMED && found.Some?);
      if reg.status == CONFIRMED && found.Some? {
        assert UserRegistrations(registrations, events) == [Joined(reg, found.value)] + rest;
        RegistrationsOfCons(Joined(reg, found.value), rest);
      } else {
        assert UserRegistrations(registrations, events) == rest;
      }
    }
  }

  /** Every row pairs a registration with an event of the store carrying its
      event id. */
  lemma JoinedRowsMatch(registrations: seq<Registration>, events: seq<Event>, i: int)
    requires 0 <= i < |UserRegistrations(registrations, events)|
    ensures var row := UserRegistrations(registrations, events)[i];
            row.event in events && row.event.id == row.registration.eventId && row.registration in registrations
  {
    var rows := UserRegistrations(registrations, events);
    UserRegistrationsKeep(registrations, events);
    var row := rows[i];
    assert RegistrationsOf(rows)[i] == row.registration;
    assert row.registration in Seqs.Filter(registrations, Joinable(events));
    var k :| 0 <= k < |events| && events[k] == row.event && (forall j :: 0 <= j < k ==> !HasEventId(row.registration.eventId)(events[j]));
  }

  /** A registration whose event no longer exists is not shown. */
  lemma DanglingIsDropped(registrations: seq<Registration>, events: seq<Event>, reg: Registration)
    requires forall i :: 0 <= i < |events| ==> events[i].id != reg.eventId
    ensures forall i :: 0 <= i < |UserRegistrations(registrations, events)| ==>
      UserRegistrations(registrations, events)[i].registration != reg
  {
    var rows := UserRegistrations(registrations, events);
    UserRegistrationsKeep(registrations, events);
    forall i | 0 <= i < |rows|
      ensures rows[i].registration != reg
    {
      assert RegistrationsOf(rows)[i] == rows[i].registration;
      assert rows[i].registration in Seqs.Filter(registrations, Joinable(events));
    }
  }

  /** Sorting an already sorted list changes nothing. */
  lemma {:induction false} SortKeepsSorted(s: seq<Event>)
    requires SortedByDate(s)
    ensures SortByDate(s) == s
    decreases |s|
  {
    if |s| > 0 {
      SortKeepsSorted(s[1..]);
      assert s == [s[0]] + s[1..];
      if |s| > 1 {
        assert LexOrder.LessOrEqual(s[0].date, s[1..][0].date);
      }
    }
  }

  /** An event dated after everything in the list is inserted at its end. */
  lemma {:induction false} InsertLast(x: Event, t: seq<Event>)
    requires forall i :: 0 <= i < |t| ==> LexOrder.Less(t[i].date, x.date)
    ensures Insert(x, t) == t + [x]
    decreases |t|
  {
    if |t| > 0 {
      InsertLast(x, t[1..]);
      assert t == [t[0]] + t[1..];
    }
  }

  /** Sorting the built-in catalog by date gives ids 12, 13, 14, 1. */
  lemma CatalogUpcomingOrder()
    ensures UpcomingEvents(Catalog.MOCK_EVENTS) == [Catalog.EVENT_12, Catalog.EVENT_13, Catalog.EVENT_14, Catalog.EVENT_1]
  {
    var e1, e12, e13, e14 := Catalog.EVENT_1, Catalog.EVENT_12, Catalog.EVENT_13, Catalog.EVENT_14;
    SeedDatesAscend();
    assert e12.date == "2025-09-23" && e13.date == "2025-10-12";
    assert e14.date == "2025-10-14" && e1.date == "2025-11-21";
    LastGoesLast(e1, e12, e13, e14);
  }

  /** Four events, the first dated after the three ascending others. */
  lemma LastGoesLast(a: Event, b: Event, c: Event, d: Event)
    requires LexOrder.Less(b.date, c.date) && LexOrder.Less(c.date, d.date) && LexOrder.Less(d.date, a.date)
    ensures SortByDate([a, b, c, d]) == [b, c, d, a]
  {
    LexOrder.Transitive(b.date, c.date, d.date);
    LexOrder.Transitive(b.date, d.date, a.date);
    LexOrder.Transitive(c.date, d.date, a.date);
    LexOrder.Asymmetric(b.date, c.date);
    LexOrder.Asymmetric(c.date, d.date);
    LexOrder.Asymmetric(b.date, d.date);
    AscendingThree(b, c, d);
    var t := [b, c, d];
    assert forall i :: 0 <= i < |t| ==> LexOrder.Less(t[i].date, a.date);
    SortedThenLast(a, t);
    Rotate(a, b, c, d);
  }

  /** Moving the head of a four-element list to its end, as list
      concatenations; kept generic so that its proof sees no event facts. */
  lemma Rotate<T>(a: T, b: T, c: T, d: T)
    ensures [a] + [b, c, d] == [a, b, c, d] && [b, c, d] + [a] == [b, c, d, a]
  {
  }

  lemma AscendingThree(b: Event, c: Event, d: Event)
    requires !LexOrder.Less(c.date, b.date) && !LexOrder.Less(d.date, c.date) && !LexOrder.Less(d.date, b.date)
    ensures SortedByDate([b, c, d])
  {
  }

  /** Sorting a sorted list headed by an event dated after all of it moves
      that event to the end. */
  lemma SortedThenLast(x: Event, t: seq<Event>)
    requires SortedByDate(t)
    requires forall i :: 0 <= i < |t| ==> LexOrder.Less(t[i].date, x.date)
    ensures SortByDate([x] + t) == t + [x]
  {
    SortKeepsSorted(t);
    InsertLast(x, t);
    PrependStep(x, t);
  }

  /** Sorting a list with a given head inserts that head into the sorted tail. */
  lemma PrependStep(x: Event, t: seq<Event>)
    ensures SortByDate([x] + t) == Insert(x, SortByDate(t))
  {
    assert ([x] + t)[1..] == t;
  }

  /** The four seed date texts ascend: 2025-09-23, 2025-10-12, 2025-10-14,
      2025-11-21.  Each comparison is decided on the date fields by
      `DateLess`, one pair per lemma so that each proof stays small. */
  lemma SeedDatesAscend()
    ensures LexOrder.Less("2025-09-23", "2025-10-12")
    ensures LexOrder.Less("2025-10-12", "2025-10-14")
    ensures LexOrder.Less("2025-10-14", "2025-11-21")
  {
    DateLess("2025-09-23", "2025-10-12");
    October12Before14();
    October14BeforeNovember21();
  }

  lemma October12Before14()
    ensures LexOrder.Less("2025-10-12", "2025-10-14")
  {
    DateLess("2025-10-12", "2025-10-14");
  }

  lemma October14BeforeNovember21()
    ensures LexOrder.Less("2025-10-14", "2025-11-21")
  {
    DateLess("2025-10-14", "2025-11-21");
  }

  /** String order of two well-formed dates, decided on their digits. */
  lemma DateLess(s: string, t: string)
    requires Dates.IsWellFormed(s) && Dates.IsWellFormed(t)
    ensures Dates.Before(Dates.Fields(s), Dates.Fields(t)) ==> LexOrder.Less(s, t)
  {
    Dates.FieldsByDigit(s);
    Dates.FieldsByDigit(t);
    Dates.TextOrderIsFieldOrder(s, t);
  }
}
