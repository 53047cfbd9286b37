/**
 The `POST /events/:eventId/attendees` handler: refuse a second registration
 of the same email for the same event, refuse a registration once a capped event
 is full, otherwise create the attendee row and answer with its id.
 */
module RegisterForEvent {
  import opened Wrappers
  import opened Store

  /** What `prisma.attendee.create` itself can refuse, from the table's constraints. */
  datatype StoreError =
    | UniqueViolation   // the `(eventId, email)` unique constraint
    | MissingEvent      // the attendee's event does not exist

  /** The errors a registration ends with. */
  datatype RegisterError =
    | Duplicate             // "This email is already exists for this event"
    | CapacityReached       // "The maximum number of attendees for this event has been reached."
    | Store(cause: StoreError)

  /**
   The JavaScript `length` of a string: UTF-16 code units, so a character
   outside the Basic Multilingual Plane counts twice.
   */
  function Utf16Length(s: string): (n: nat)
    ensures |s| <= n <= 2 * |s|
  {
    if s == [] then 0
    else (if s[0] as int >= 0x1_0000 then 2 else 1) + Utf16Length(s[1..])
  }

  /** True iff `event?.maximumAttendees` is truthy: the event exists and has a non-zero cap. */
  predicate HasCap(events: map<EventId, Event>, eventId: EventId)
  {
    eventId in events && events[eventId].maximumAttendees.Some? && events[eventId].maximumAttendees.value != 0
  }

  /**
   The handler's own checks, in the handler's order: the duplicate lookup first,
   then the capacity test on the event and the count. `None` means the request
   goes on to `create`.
   */
  function Admission(events: map<EventId, Event>, attendees: seq<Attendee>, eventId: EventId, email: string)
    : (r: Option<RegisterError>)
    ensures HasRegistration(attendees, eventId, email) <==> r == Some(Duplicate)
    ensures r == Some(CapacityReached) <==>
      && !HasRegistration(attendees, eventId, email)
      && HasCap(events, eventId)
      && |MatchingIndices(attendees, eventId)| >= events[eventId].maximumAttendees.value
    ensures r.Some? ==> !r.value.Store?
  {
    if FindUnique(attendees, eventId, email).Some? then Some(Duplicate)
    else
      var amount := CountFor(attendees, eventId);
      CountIsMatchingRows(attendees, eventId);
      if HasCap(events, eventId) && amount >= events[eventId].maximumAttendees.value
      then Some(CapacityReached)
      else None
  }

  /** An event without a cap, or with a cap of 0, never turns a registration away as full. */
  lemma UncappedNeverFull(events: map<EventId, Event>, attendees: seq<Attendee>, eventId: EventId, email: string)
    requires eventId in events
    requires events[eventId].maximumAttendees == None || events[eventId].maximumAttendees == Some(0)
    ensures Admission(events, attendees, eventId, email) != Some(CapacityReached)
    ensures !HasRegistration(attendees, eventId, email) ==> Admission(events, attendees, eventId, email) == None
  {
  }

  /** A row whose key is not yet taken keeps `(eventId, email)` unique. */
  lemma AppendKeepsUnique(attendees: seq<Attendee>, a: Attendee)
    requires Unique(attendees)
    requires !HasRegistration(attendees, a.eventId, a.email)
    ensures Unique(attendees + [a])
  {
  }

  /**
   A row the checks let through keeps every capped event within its cap: the
   count was below the cap and rises by one.
   */
  lemma AdmittedWithinCapacity(events: map<EventId, Event>, attendees: seq<Attendee>, a: Attendee)
    requires WithinCapacity(events, attendees)
    requires Admission(events, attendees, a.eventId, a.email) == None
    ensures WithinCapacity(events, attendees + [a])
  {
    forall id | id in events && events[id].maximumAttendees.Some? && events[id].maximumAttendees.value > 0
      ensures CountFor(attendees + [a], id) <= events[id].maximumAttendees.value
    {
      CountAppend(attendees, a, id);
      CountIsMatchingRows(attendees, id);
    }
  }

  /**
   The attendee tables behind both handlers: the state `prisma` reads and
   writes, with the id counter the store uses for new rows.
   */
  class EventStore {
    var events: map<EventId, Event>
    var attendees: seq<Attendee>
    var nextId: AttendeeId

    /** The table constraints, and ids not yet handed out. */
    ghost predicate Valid()
      reads this
    {
      && Unique(attendees)
      && EventsExist(events, attendees)
      && IdsFresh(attendees, nextId)
    }

    /** A store holding the given events and no attendees; the first id is 1. */
    constructor (events: map<EventId, Event>)
      ensures Valid()
      ensures this.events == events && attendees == [] && nextId == 1
    {
      this.events := events;
      attendees := [];
      nextId := 1;
    }

    /** `prisma.attendee.create({ data: { name, email, eventId } })`. */
    method CreateAttendee(name: string, email: string, eventId: EventId) returns (r: Result<Attendee, StoreError>)
      requires Valid()
      modifies this
      ensures Valid() && events == old(events)
      ensures eventId !in events ==>
        r == Failure(MissingEvent) && attendees == old(attendees) && nextId == old(nextId)
      ensures eventId in events && HasRegistration(old(attendees), eventId, email) ==>
        r == Failure(UniqueViolation) && attendees == old(attendees) && nextId == old(nextId)
      ensures eventId in events && !HasRegistration(old(attendees), eventId, email) ==>
        && r == Success(Attendee(old(nextId), name, email, eventId))
        && attendees == old(attendees) + [r.value]
        && nextId == old(nextId) + 1
    {
      if eventId !in events {
        return Failure(MissingEvent);
      }
      if FindUnique(attendees, eventId, email).Some? {
        return Failure(UniqueViolation);
      }
      var row := Attendee(nextId, name, email, eventId);
      AppendKeepsUnique(attendees, row);
      attendees := attendees + [row];
      nextId := nextId + 1;
      r := Success(row);
    }

    /**
     The handler body: the duplicate lookup, then the event and the count,
     then the capacity test, then the insert. Of the body schema only
     `name.min(4)` is a precondition, with the length counted as JavaScript
     counts it.
     */
    method Register(eventId: EventId, name: string, email: string) returns (r: Result<AttendeeId, RegisterError>)
      requires Valid()
      requires Utf16Length(name) >= 4
      modifies this
      ensures Valid() && events == old(events)
      ensures Admission(old(events), old(attendees), eventId, email).Some? ==>
        && r == Failure(Admission(old(events), old(attendees), eventId, email).value)
        && attendees == old(attendees) && nextId == old(nextId)
      ensures Admission(old(events), old(attendees), eventId, email).None? && eventId !in events ==>
        r == Failure(Store(MissingEvent)) && attendees == old(attendees) && nextId == old(nextId)
      ensures Admission(old(events), old(attendees), eventId, email).None? && eventId in events ==>
        && r == Success(old(nextId))
        && attendees == old(attendees) + [Attendee(old(nextId), name, email, eventId)]
        && nextId == old(nextId) + 1
      ensures eventId !in events ==> r == Failure(Store(MissingEvent))
      ensures r != Failure(Store(UniqueViolation))
      ensures r.Success? ==> CountFor(attendees, eventId) == old(CountFor(attendees, eventId)) + 1
      ensures WithinCapacity(old(events), old(attendees)) ==> WithinCapacity(events, attendees)
    {
      var attendeeFromEmail := FindUnique(attendees, eventId, email);
      if attendeeFromEmail.Some? {
        return Failure(Duplicate);
      }

      var amountAttendeesForEvent := CountFor(attendees, eventId);

      if HasCap(events, eventId) && amountAttendeesForEvent >= events[eventId].maximumAttendees.value
      {
        return Failure(CapacityReached);
      }

      ghost var before := attendees;
      var created := CreateAttendee(name, email, eventId);
      match created {
        case Failure(cause) =>
          r := Failure(Store(cause));
        case Success(attendee) =>
          CountAppend(before, attendee, eventId);
          if WithinCapacity(events, before) {
            AdmittedWithinCapacity(events, before, attendee);
          }
          r := Success(attendee.id);
      }
    }
  }

  /** Three registrations at an event capped at two; the third is turned away. */
  method CapacityScenario()
  {
    var talk := Event("talk", "Talk", None, Some(2));
    var store := new EventStore(map["e" := talk]);
    var first := store.Register("e", "Alice", "alice@x.com");
    assert first == Success(1);
    var second := store.Register("e", "Bobby", "bob@x.com");
    assert second == Success(2);
    var third := store.Register("e", "Carol", "carol@x.com");
    assert third == Failure(CapacityReached);
  }

  /**
   The same email twice for one event; a cap of 0, which does not cap; an
   unknown event; and a two-character name whose JavaScript length is 4.
   */
  method DuplicateScenario()
  {
    var open := Event("open", "Open", Some("all welcome"), Some(0));
    var store := new EventStore(map["e" := open]);
    var first := store.Register("e", "Alice", "alice@x.com");
    assert first == Success(1);
    var again := store.Register("e", "Alice", "alice@x.com");
    assert again == Failure(Duplicate);
    var unknown := store.Register("x", "Alice", "alice@x.com");
    assert unknown == Failure(Store(MissingEvent));
    var emoji := store.Register("e", "\U{1F600}\U{1F600}", "smile@x.com");
    assert emoji == Success(2);
  }
}
