/**
 The two tables the route handlers read and write, as values: the Event table
 (keyed by event id) and the Attendee table (a sequence of rows), together with
 the queries the handlers send to them.
 */
module Store {
  import opened Wrappers

  /** Event ids are UUID strings; their syntax is checked before a handler runs. */
  type EventId = string
  /** Attendee ids are integers assigned by the store. */
  type AttendeeId = nat

  /** A row of the Event table; its id is the key under which it is stored. */
  datatype Event = Event(
    slug: string,
    title: string,
    details: Option<string>,
    maximumAttendees: Option<int>)

  /** A row of the Attendee table. */
  datatype Attendee = Attendee(id: AttendeeId, name: string, email: string, eventId: EventId)

  /** `prisma.attendee.count({ where: { eventId } })`: the rows that belong to `eventId`. */
  function CountFor(attendees: seq<Attendee>, eventId: EventId): (n: nat)
    ensures n <= |attendees|
  {
    if attendees == [] then 0
    else (if attendees[0].eventId == eventId then 1 else 0) + CountFor(attendees[1..], eventId)
  }

  /** The positions of the rows that belong to `eventId`: the reference meaning of a count. */
  ghost function MatchingIndices(attendees: seq<Attendee>, eventId: EventId): set<nat>
  {
    set i: nat | i < |attendees| && attendees[i].eventId == eventId
  }

  /** True iff some row has the key `(eventId, email)`. */
  ghost predicate HasRegistration(attendees: seq<Attendee>, eventId: EventId, email: string)
  {
    exists i :: 0 <= i < |attendees| && attendees[i].eventId == eventId && attendees[i].email == email
  }

  /**
   `prisma.attendee.findUnique({ where: { eventId_email: { eventId, email } } })`:
   the row with that key, or `null` when there is none.
   */
  function FindUnique(attendees: seq<Attendee>, eventId: EventId, email: string): (r: Option<Attendee>)
    ensures r.Some? ==> r.value in attendees && r.value.eventId == eventId && r.value.email == email
    ensures r.None? ==> !HasRegistration(attendees, eventId, email)
  {
    if attendees == [] then None
    else if attendees[0].eventId == eventId && attendees[0].email == email then Some(attendees[0])
    else
      var rest := FindUnique(attendees[1..], eventId, email);
      assert rest.None? ==> forall i :: 0 < i < |attendees| ==>
        attendees[i] == attendees[1..][i - 1];
      rest
  }

  /** The compound unique constraint on `(eventId, email)`. */
  ghost predicate Unique(attendees: seq<Attendee>)
  {
    forall i, j :: 0 <= i < j < |attendees| ==>
      attendees[i].eventId != attendees[j].eventId || attendees[i].email != attendees[j].email
  }

  /** Every row refers to an existing event (the relation behind `_count.Attendee`). */
  ghost predicate EventsExist(events: map<EventId, Event>, attendees: seq<Attendee>)
  {
    forall i :: 0 <= i < |attendees| ==> attendees[i].eventId in events
  }

  /** Every attendee id is below `nextId` and no two rows share one. */
  ghost predicate IdsFresh(attendees: seq<Attendee>, nextId: AttendeeId)
  {
    && (forall i :: 0 <= i < |attendees| ==> attendees[i].id < nextId)
    && (forall i, j :: 0 <= i < j < |attendees| ==> attendees[i].id != attendees[j].id)
  }

  /** No event with a positive cap holds more attendees than its cap. */
  ghost predicate WithinCapacity(events: map<EventId, Event>, attendees: seq<Attendee>)
  {
    forall id :: id in events && events[id].maximumAttendees.Some? && events[id].maximumAttendees.value > 0 ==>
      CountFor(attendees, id) <= events[id].maximumAttendees.value
  }

  /** Appending one row adds one to its own event's count and nothing to any other's. */
  lemma {:induction false} CountAppend(attendees: seq<Attendee>, a: Attendee, eventId: EventId)
    ensures CountFor(attendees + [a], eventId)
         == CountFor(attendees, eventId) + (if a.eventId == eventId then 1 else 0)
  {
    if attendees != [] {
      assert (attendees + [a])[1..] == attendees[1..] + [a];
      CountAppend(attendees[1..], a, eventId);
    }
  }

  /** The count is the number of rows whose event id matches. */
  lemma {:induction false} CountIsMatchingRows(attendees: seq<Attendee>, eventId: EventId)
    ensures CountFor(attendees, eventId) == |MatchingIndices(attendees, eventId)|
    decreases |attendees|
  {
    if attendees == [] {
      assert MatchingIndices(attendees, eventId) == {};
    } else {
      var n := |attendees| - 1;
      var prefix, last := attendees[..n], attendees[n];
      assert attendees == prefix + [last];
      CountAppend(prefix, last, eventId);
      CountIsMatchingRows(prefix, eventId);
      var before := MatchingIndices(prefix, eventId);
      if last.eventId == eventId {
        assert MatchingIndices(attendees, eventId) == before + {n};
        assert n !in before;
      } else {
        assert MatchingIndices(attendees, eventId) == before;
      }
    }
  }
}
