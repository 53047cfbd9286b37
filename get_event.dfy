/**
 The `GET /event/:eventId` handler: look the event up by id and answer with its
 stored fields plus `attendeesAmount`, the number of attendee rows for it.
 */
module GetEvent {
  import opened Wrappers
  import opened Store

  /** The response body's `event` object. */
  datatype EventView = EventView(
    id: EventId,
    slug: string,
    title: string,
    details: Option<string>,
    maximumAttendees: Option<int>,
    attendeesAmount: nat)

  /** The one error the handler throws: "Event not found." */
  datatype QueryError = EventNotFound

  /**
   The handler body. A function of the two tables: it reads them and changes
   nothing.
   */
  function GetEvent(events: map<EventId, Event>, attendees: seq<Attendee>, eventId: EventId)
    : (r: Result<EventView, QueryError>)
    ensures eventId !in events <==> r == Failure(EventNotFound)
    ensures r.Success? ==>
      && eventId in events
      && r.value.id == eventId
      && r.value.slug == events[eventId].slug
      && r.value.title == events[eventId].title
      && r.value.details == events[eventId].details
      && r.value.maximumAttendees == events[eventId].maximumAttendees
      && r.value.attendeesAmount == |MatchingIndices(attendees, eventId)|
  {
    if eventId !in events then Failure(EventNotFound)
    else
      var event := events[eventId];
      CountIsMatchingRows(attendees, eventId);
      Success(EventView(eventId, event.slug, event.title, event.details,
                        event.maximumAttendees, CountFor(attendees, eventId)))
  }

  /**
   Adding one attendee row for `a.eventId` raises that event's `attendeesAmount`
   by one and leaves every other answer of the query as it was.
   */
  lemma AmountAfterAppend(events: map<EventId, Event>, attendees: seq<Attendee>, a: Attendee, eventId: EventId)
    ensures eventId == a.eventId && eventId in events ==>
      GetEvent(events, attendees + [a], eventId).value.attendeesAmount
        == GetEvent(events, attendees, eventId).value.attendeesAmount + 1
    ensures eventId != a.eventId ==>
      GetEvent(events, attendees + [a], eventId) == GetEvent(events, attendees, eventId)
  {
    CountAppend(attendees, a, eventId);
  }
}
