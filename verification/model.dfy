/** The two records the app keeps (the `Event` and `Registration` types of
    the source; types/event.ts is not part of this model, so the fields are
    the ones the catalog and the store write) and the store state that
    holds them. */
module Model {

  /** One organised activity.  `date` is the stored `YYYY-MM-DD` text;
      prices are whole euros (the catalog only has whole amounts).  Prices
      and counts are JavaScript numbers; the model takes them to be safe
      integers, where number arithmetic is exact. */
  datatype Event = Event(
    id: string,
    title: string,
    description: string,
    shortDescription: string,
    date: string,
    time: string,
    location: string,
    imageUrl: string,
    category: string,
    price: int,
    maxParticipants: int,
    currentParticipants: int,
    organizer: string,
    tags: seq<string>)

  /** One sign-up for one event; `eventId` is a weak reference by id.
      `status` is kept as text because stored records may carry any value;
      the store itself only ever writes `CONFIRMED`. */
  datatype Registration = Registration(
    id: string,
    eventId: string,
    userName: string,
    userEmail: string,
    registrationDate: string,
    status: string)

  const CONFIRMED: string := "confirmed"

  /** The in-memory state of the events provider: both lists, loaded. */
  datatype Store = Store(events: seq<Event>, registrations: seq<Registration>)

  /** The two events are the same record apart from the participant count,
      the one field the store ever changes. */
  predicate SameButCount(a: Event, b: Event) {
    a.(currentParticipants := b.currentParticipants) == b
  }
}
