# Fermi activities: a Dafny model of the event store

Fermi-activiteiten is a small mobile app for a student association. It lists
activities ("events") and lets a member register for them or cancel a
registration. This project models the logic under the screens, in Dafny:

- **The events store** (`hooks/events-store.ts`). The state is two lists,
  events and registrations. It has two transitions:
  - `registerForEvent`: append a confirmed registration and add one to the
    event's participant count;
  - `cancelRegistration`: remove the registration and subtract one, floored
    at zero.

  The store also has:
  - the predicate `isRegisteredForEvent`;
  - four derived views: all events by date, one day, one month, and the
    user's registrations joined with their events;
  - write-through persistence to a key-value store. `getStoredData` decides
    whether a stored text is "nothing", corrupt (deleted) or parsed.
- **The month grid** of the calendar screen (`getDaysInMonth` in
  `components/CalendarView.tsx`): blank cells up to the weekday of the 1st
  (Sunday = 0), then the days of the month.
- **The event card rules** (`components/EventCard.tsx`): places left, the
  price text, and the availability badge.
- **The seed catalog** (`constants/events.ts`): the four built-in events and
  the category colour and label tables.

## How it is modelled

The model follows the source's structure:

| Module | What it models |
|---|---|
| `Model` | The records: `Event`, `Registration`, and the store state. |
| `Catalog` | The constants. |
| `Storage` | `getStoredData` / `setStoredData`. |
| `Store` | The transitions, loading and saving. |
| `Views` | The derived views. |
| `Calendar` | The month grid. |
| `EventCard` | The card rules. |
| `Seqs` | The array methods the store uses: `find` and `filter`. |
| `Dates`, `Decimal`, `LexOrder`, `Optional` | Support modules (see below). |

Time and JSON are handled as follows:

- **Timestamps.** `Date.now()` and `new Date().toISOString()` are
  parameters of `RegisterForEvent` (`newId`, `now`).
- **JSON.** `JSON.parse` and `JSON.stringify` are parameters: the `Codecs`
  datatype, and `parse`/`stringify` arguments. The storage lemmas assume
  only that the encoding of a list is a JSON array text that parses back
  (`Storage.RoundTrips`).

Dates are the stored `YYYY-MM-DD` texts: the extended calendar-date format
of section 4.1.2.2 of ISO 8601:2004. `Dates` replaces JavaScript's `Date`
with proleptic Gregorian day numbers:

- day 0 is 0001-01-01;
- `getDay()` is `(DayNumber + 1) % 7`, with Sunday = 0;
- the last day of a month comes from the Gregorian leap-year rule.

The two sorts in the store compare `new Date(date).getTime()`. The model
sorts by the date text (`LexOrder.Less`). `Dates.TextOrderIsChronological`
proves the two orders agree for valid dates.

The sort is an insertion sort. It is stable, as `Array.prototype.sort` is
required to be.

`new Date(year, month, day)` reads years 0 to 99 as 1900 to 1999. The grid
keeps that quirk (`Calendar.ConstructorYear`).

## Model

| member | source | states |
|---|---|---|
| Storage.Trim | hooks/events-store.ts:46 | the result is a slice of the input with only trimmable white space (ECMAScript WhiteSpace and LineTerminator) cut from both ends, and it neither starts nor ends with such a character |
| Storage.GetStoredData | hooks/events-store.ts:42-58 | absent, "", "undefined" or "null" reads as nothing and leaves the store alone; a trimmed text not starting with `{` or `[` reads as nothing and deletes the key; otherwise the parse of the trimmed text is returned and a failed parse deletes the key; a successful read never changes the store |
| Storage.SetStoredData | hooks/events-store.ts:60-71 | no data removes the key instead of storing an encoding; data is stored as its encoding; every other key is untouched |
| Storage.StoreThenRead | hooks/events-store.ts:42-67 | a list written with an encoding that round-trips reads back as the same list, and the read deletes nothing |
| Storage.ReadEncoded | hooks/events-store.ts:42-58 | a key holding the encoding of a list (one that round-trips) reads back as that list and the read deletes nothing |
| Storage.ClearThenRead | hooks/events-store.ts:42-64 | after clearing a key, reading it gives nothing and changes nothing |
| Storage.ReadIsIdempotent | hooks/events-store.ts:42-58 | a second read gives the same value and store as the first (the first already removed any corrupt entry) |
| Storage.ReadIgnoresOtherKeys | hooks/events-store.ts:42-58 | a read depends only on its own key's text and can only delete that key |
| Seqs.Find | hooks/events-store.ts:163 | `Array.find`: nothing exactly when no element passes; otherwise the first passing element |
| Seqs.Filter | hooks/events-store.ts:166 | `Array.filter`: the result is a subsequence of the input (same order) that holds every passing element exactly as often as the input does and no failing element |
| Seqs.FilterUnique | hooks/events-store.ts:166 | the contract of `Filter` pins it down: any subsequence with those element counts is the filtered list |
| Seqs.SubsequenceMultiset | hooks/events-store.ts:166 | a subsequence never holds more copies of an element than the whole list |
| Seqs.FilterCons | hooks/events-store.ts:166 | filtering a list decides its head and then filters the rest, keeping the order |
| Store.UpdateCount | hooks/events-store.ts:153-157 | `events.map`: same length and order; events with the id get the new count and every other field unchanged; all other events unchanged |
| Store.RegisterForEvent | hooks/events-store.ts:139-160 | appends exactly one registration at the end, with the given event id, name, e-mail, id and timestamp and status "confirmed", leaving earlier ones unchanged, even when no event has the id; adds exactly 1 to the count of each event with that id, changes nothing else, and has no capacity or duplicate check |
| Store.KeptRegistrations | hooks/events-store.ts:166 | the registrations left by the filter are a subsequence of the list (same order) holding every registration with another id exactly as often as the list does and none with the id; the list is unchanged when no registration has the id, and shorter when one does |
| Store.CancelledCounts | hooks/events-store.ts:162-174 | the counts are unchanged when no registration has the id; otherwise the count of each event with the first matching registration's event id becomes max(0, c - 1) and every other event is unchanged |
| Store.CancelRegistration | hooks/events-store.ts:162-177 | an id matching no registration leaves the state unchanged; otherwise the registrations become a subsequence of the old ones (same order) holding every registration with another id exactly as often as before and none with the id, and the count of the first matching registration's event becomes max(0, c - 1), with every other event unchanged |
| Store.IsRegisteredForEvent | hooks/events-store.ts:179-181 | true exactly when some registration has that event id and status "confirmed" |
| Store.RegisterThenRegistered | hooks/events-store.ts:139-181 | right after registering for an event, the user is registered for it |
| Store.UpdateCountUndo | hooks/events-store.ts:153-174 | incrementing and then floor-decrementing the counts of an id restores the events, when those counts were not negative |
| Store.RegisterThenCancel | hooks/events-store.ts:139-177 | registering with an id no registration has yet and then cancelling that id restores both lists exactly (given the event's count was not negative) |
| Store.RegisterAddsParticipants | hooks/events-store.ts:153-157 | registering raises the total of all counts by the number of events with the id: one when ids are unique, none for an unknown event |
| Store.Load | hooks/events-store.ts:78-95 | events fall back to the catalog and registrations to the empty list only when the read yields nothing (so a stored empty list stays empty); the load only ever deletes the two keys it reads |
| Store.Persist | hooks/events-store.ts:97-121 | both lists are stored as their encodings under their keys; other keys are untouched |
| Store.PersistThenLoad | hooks/events-store.ts:78-121 | after persisting a state whose encodings round-trip, loading gives back that state and deletes nothing |
| Store.Register | hooks/events-store.ts:139-160 | memory becomes the registered state; the registrations key then holds the encoding of the old registrations followed by the new confirmed registration, the events key holds the encoding of the updated events, and every other key is untouched |
| Store.Cancel | hooks/events-store.ts:162-177 | an unknown id returns before anything is saved, so memory and storage are unchanged; otherwise memory becomes the cancelled state, the two keys hold the encodings of its two lists, and every other key is untouched |
| Store.RegisterIsDurable | hooks/events-store.ts:139-160 | after registering, reloading from storage gives back exactly the in-memory state and storage, whatever was stored before |
| Store.CancelIsDurable | hooks/events-store.ts:162-177 | after cancelling a known registration, reloading from storage gives back exactly the in-memory state and storage, whatever was stored before |
| Views.Insert | hooks/events-store.ts:200 | inserting an event into a list adds exactly that event to the multiset |
| Views.InsertSorted | hooks/events-store.ts:200 | inserting into a date-sorted list keeps it sorted |
| Views.SortByDate | hooks/events-store.ts:200 | the result is a permutation of the events, sorted ascending by date |
| Views.SortIsStable | hooks/events-store.ts:200 | events with equal dates keep their relative order |
| Views.UpcomingEvents | hooks/events-store.ts:193-204 | a permutation of all events, sorted ascending by date, stable for equal dates |
| Views.UpcomingIsChronological | hooks/events-store.ts:200 | when every date is valid, the upcoming list ascends in day numbers, which is the `getTime()` comparator's order |
| Views.EventsByDate | hooks/events-store.ts:206-209 | a subsequence of the store (store order) holding each event whose date text equals the given one exactly as often as the store does, and no other event |
| Views.EventsByDateUnique | hooks/events-store.ts:206-209 | any subsequence of the store with those counts is the day view, so the contract fixes its order and contents |
| Views.EventsByDateOfUpcoming | hooks/events-store.ts:200-208 | the day view of the sorted list equals the day view of the store |
| Views.EventsByMonth | hooks/events-store.ts:211-220 | keeps exactly the events with a valid date in the given year and 0-indexed month, as a sorted permutation of that filter |
| Views.SortFilterCommute | hooks/events-store.ts:214-219 | filtering then sorting is sorting then filtering |
| Views.EventsByMonthOfUpcoming | hooks/events-store.ts:200-219 | the month view is the month's slice of the upcoming list, in the same order |
| Views.UserRegistrations | hooks/events-store.ts:222-232 | every row holds a confirmed registration paired with the first event carrying its event id, and there are no more rows than registrations |
| Views.UserRegistrationsKeep | hooks/events-store.ts:225-231 | the registrations shown are, in registration order, exactly the confirmed ones whose event id matches some event |
| Views.JoinedRowsMatch | hooks/events-store.ts:225-231 | every row pairs a stored registration with a stored event carrying its event id |
| Views.DanglingIsDropped | hooks/events-store.ts:228-231 | a registration whose event is gone is never shown |
| Views.CatalogUpcomingOrder | constants/events.ts:3-68 | sorting the built-in catalog by date gives the events with ids 12, 13, 14, 1 |
| Dates.DaysInMonth | components/CalendarView.tsx:26-27 | the last day of a month is 28 to 31 |
| Dates.MonthsAccumulate | components/CalendarView.tsx:26-27 | the 1st of the next month is the month's length in days after the 1st, and the twelve months fill the year |
| Dates.Weekday | components/CalendarView.tsx:28 | a weekday is 0 (Sunday) to 6 |
| Dates.ChronologicalOrder | hooks/events-store.ts:200 | for valid dates, field order is day-number order, and equal day numbers mean equal dates |
| Dates.Parse | hooks/events-store.ts:216-217 | a date text that reads is well formed and a valid calendar date; every well-formed, valid text reads |
| Dates.ParseFormat | hooks/events-store.ts:216 | formatting a valid date and reading it back gives the date |
| Dates.FormatParse | hooks/events-store.ts:216 | reading a date text and formatting it back gives the text |
| Dates.TextOrderIsChronological | hooks/events-store.ts:200 | for valid `YYYY-MM-DD` texts, text order is `getTime()` order, both ways, and equal texts are equal days |
| Dates.WeekdayInMonth | components/CalendarView.tsx:37-40 | within a month, day d falls d - 1 weekdays after the 1st |
| Dates.NextMonthWeekday | components/CalendarView.tsx:25-28 | the 1st of the next month falls the month's length in weekdays after the 1st, including December into January |
| Decimal.IntToString | components/EventCard.tsx:67 | the printed text starts with a minus sign exactly when the number is negative, and the canonical-decimal reader reads the text (after the sign) back as the number (its magnitude) |
| Decimal.NatToStringParses | components/EventCard.tsx:70 | a printed count reads back as that count |
| Calendar.TwoDigitYearsAlias | components/CalendarView.tsx:25-27 | because the `Date` constructor reads years 0 to 99 as 1900 to 1999, the grid of a two-digit year has the same length and first weekday as the grid of that year in the 1900s |
| Calendar.LastDay | components/CalendarView.tsx:26-27 | day 0 of the next month: the last day of this month, 28 to 31 |
| Calendar.StartingDayOfWeek | components/CalendarView.tsx:25-28 | the weekday of the 1st is a header column, 0 to 6 |
| Calendar.DaysInMonthGrid | components/CalendarView.tsx:22-43 | the grid has startingDayOfWeek + daysInMonth cells, at most 37; a cell is blank exactly when it comes before startingDayOfWeek; cell startingDayOfWeek + d - 1 is day d of the month; every day is valid and sits in its weekday's column |
| Calendar.LastDayIsDayBeforeNextMonth | components/CalendarView.tsx:26-27 | the month's last day equals the day-number distance from the 1st of this month to the 1st of the next |
| Calendar.NextMonthStartsAfterLastDay | components/CalendarView.tsx:25-28 | the next month's grid starts in the column after this month's last day |
| Calendar.FebruaryLength | components/CalendarView.tsx:26-27 | February has 29 days exactly in Gregorian leap years, otherwise 28 |
| Calendar.SundayFirst | components/CalendarView.tsx:130 | the header's first column "Zo" is Sunday (12 October 2025) and "Ma" is Monday (1 January 2001) |
| EventCard.SpotsLeft | components/EventCard.tsx:24 | places left are negative exactly when the event is overbooked, and zero exactly when it is full |
| EventCard.SpotsLeftAfterRegister | components/EventCard.tsx:24 | registering takes one place from each card with the event's id and leaves the others alone |
| EventCard.PriceLabel | components/EventCard.tsx:67 | "Gratis" exactly when the price is 0; otherwise a euro sign followed by the printed amount |
| EventCard.PriceLabelInjective | components/EventCard.tsx:67 | two prices with the same label are the same price |
| EventCard.PriceLabelReadsBack | components/EventCard.tsx:67 | the digits after the euro sign read back as the price |
| EventCard.PriceLabelAsWritten | components/EventCard.tsx:67 | the label as the file spells it: "Gratis" exactly when the price is 0, otherwise the three characters "â‚¬" and the amount |
| EventCard.AsWrittenShowsNoEuroSign | components/EventCard.tsx:67 | for every paid event, the label as written differs from the intended one and contains no euro sign |
| EventCard.AsWrittenFifteen | components/EventCard.tsx:67 | a 15 euro event is labelled "â‚¬15" as written, where "€15" was meant |
| EventCard.Classify | components/EventCard.tsx:69-74 | "few places left" with N = places exactly when 1 to 5 places are left; "sold out" exactly when none are; no badge exactly when the event is overbooked or more than 5 places are left |
| EventCard.Badges | components/EventCard.tsx:69-74 | at most one of the two texts is shown; "Uitverkocht" exactly when no place is left; none when the event is overbooked or more than 5 places are left |
| EventCard.BadgesFollowClassification | components/EventCard.tsx:69-74 | the card's two conditionals show exactly the text of the classified badge, e.g. "Nog 3 plekken" |
| EventCard.OverbookedCardHasNoBadge | components/EventCard.tsx:69-74 | registering for a sold-out event leaves -1 places, and the card then shows no badge at all |
| EventCard.CategoryColor | components/EventCard.tsx:23 | a colour exactly when the category is a key of the colour table, and then the table's colour; because both tables share their keys, a card has a colour exactly when its category has a label |
| EventCard.SeedCardsHaveColours | components/EventCard.tsx:23 | every catalog event has a category colour |
| Catalog.SeedIds | constants/events.ts:3-68 | the catalog has four events with pairwise distinct ids "1", "12", "13", "14" |
| Catalog.SeedCounts | constants/events.ts:3-68 | every seed event has 0 <= currentParticipants <= maxParticipants and price >= 0 |
| Catalog.SeedCategories | constants/events.ts:3-92 | every seed category is a key of both tables |
| Catalog.CategoryKeys | constants/events.ts:70-92 | the colour and label tables have the same nine keys |
| Catalog.SeedDates | constants/events.ts:3-68 | every seed date is a well-formed, valid `YYYY-MM-DD` date |

## Findings

| source | as written | input that shows it | evidently intended | confidence | as-written member | corrected member |
|---|---|---|---|---|---|---|
| components/EventCard.tsx:67 | The euro sign in the price template is stored double-encoded: the UTF-8 bytes of "€" were read as Windows-1252 and saved again, giving the three characters "â‚¬". | A paid event of 15 euro: the card shows "â‚¬15". | "€15", as the event detail screen (app/event/[id].tsx:177) prints it. | not executed; the file's bytes at that spot are C3 A2 E2 80 9A C2 AC | EventCard.PriceLabelAsWritten, EventCard.AsWrittenShowsNoEuroSign, EventCard.AsWrittenFifteen | EventCard.PriceLabel, EventCard.PriceLabelInjective, EventCard.PriceLabelReadsBack |

## Left out

- The platform storage adapter (hooks/events-store.ts:10-40) is left out: it is AsyncStorage or localStorage I/O. Storage is an abstract key-to-text map, and a failing read is an absent key.
- Store.RegisterIsDurable, Store.CancelIsDurable and Store.PersistThenLoad assume every write succeeds. In the source the adapter swallows a failing `setItem` (hooks/events-store.ts:22-30), and `setStoredData` would only log one (hooks/events-store.ts:68-70), so after a failed write the app carries on and a reload gives the old list; storage is only a best-effort mirror of memory, and failing writes are not modelled.
- `JSON.parse` and `JSON.stringify` are a foreign library. They are parameters, and only the prefix check before parsing is modelled.
  - A parse that succeeds with a non-list value (for example `{}`) is given the caller's element type without any shape check. The model assumes the parser rejects such text.
- The React and react-query wiring is left out: `useState`, `useEffect`, queries, mutations, invalidation, the context hook and `isLoading`. The model treats register and cancel as updating memory and saving both lists at once.
  - The model does not show the gap between the state update and the asynchronous save, nor the re-render from the invalidated query.
- The `Array.isArray` guards in the save mutations (hooks/events-store.ts:99-101, 112-114) are left out, because the model's lists are always lists.
- `Date.now()` and `new Date().toISOString()` are left out because they are nondeterministic. They are the parameters `newId` and `now`.
- Time zones are left out, and so is locale formatting, because they depend on the device's settings:
  - `new Date(date)` parses a date text as UTC midnight, but `getFullYear()`/`getMonth()` read it in the local time zone. The model reads the date's own fields, as a device at UTC or east of it does.
  - `formatDateString` is given `new Date(year, month, day)`, which is local midnight, and `toISOString()` converts it to UTC. East of UTC that is the previous day: in the Netherlands 2025-10-12 00:00 local time is 2025-10-11T22:00Z, so the text is "2025-10-11". At UTC and west of it the day is unchanged. The model's cell date is the day itself.
  - `toLocaleDateString('nl-NL')` and the month title are not modelled.
- Views.UpcomingEvents sorts malformed date texts by their text order. In the source, `new Date` of such a text is invalid and the comparator returns NaN, so the order is implementation-defined. Only valid `YYYY-MM-DD` dates are claimed to follow `getTime()` order. Other texts that `new Date` accepts, such as a date with a time part, are outside the model.
- Views.EventsByMonth only matches a date that is a well-formed, valid `YYYY-MM-DD` text. `new Date` accepts more, such as a date with a time part, and some engines roll an out-of-range day such as "2025-02-30" over into the next month; such events are not in the model's month view.
- Views.UpcomingEvents returns the sorted list. The source sorts the store's own array in place, so the store's `events` array is reordered as a side effect; that aliasing is not modelled.
- Calendar.NextMonthStartsAfterLastDay covers January to November only. From December the next grid is built for the next year. `new Date` reads year 99 as 1999 but year 100 as itself, so grids around that boundary do not continue each other.
- `navigateMonth` (components/CalendarView.tsx:49-62) is left out. It depends on `setMonth` day-overflow rules and is UI callback code.
- Prices are whole numbers. How `${price}` prints a non-integer amount is not modelled.
- Decimal.IntToString and Decimal.NatToString assume safe integers below 10^21. JavaScript numbers are IEEE doubles: `${n}` switches to exponent notation from 10^21 (`${1e21}` is "1e+21"), and above 2^53 `c + 1` may leave a count unchanged. The model's prices and participant counts are unbounded integers, so `Store.RegisterForEvent` always adds exactly one.
- The category badge's `toUpperCase()` is left out, because there is no case mapping in the model.
- The participant text `current/max` is left out, as are all JSX, styles and `DayCell` rendering.
- app/index.tsx and the other screens are left out: they are provider and navigation wiring.
- types/event.ts is not part of this model. The record fields are the ones the catalog and the store write.
