# Event check-in backend: registration and event query

This project models the two request handlers at the core of the event check-in
service:

- **Register for event** (`POST /events/:eventId/attendees`). It first looks up
  an attendee with the same `(eventId, email)` and throws if one exists. It then
  reads the event and the number of attendees already registered for it. If
  `event?.maximumAttendees` is truthy and the count has reached that maximum, it
  throws. Otherwise it creates the attendee row and answers with the new id.
- **Get event** (`GET /event/:eventId`). It looks the event up and throws
  "Event not found." when it is missing. Otherwise it answers with the event's
  stored fields plus `attendeesAmount`, the number of attendee rows for that
  event.

The database behind `prisma` is replaced by an in-memory store with two tables:
`events`, a map from event id to its row, and `attendees`, a sequence of rows.
`Store` holds the rows and the queries the handlers send (`findUnique` by the
`(eventId, email)` key, `count` by event). `GetEvent` is the query handler as a
function of the two tables. `RegisterForEvent` holds the handler's checks as a
pure verdict, `Admission`, and the class `EventStore`. That class owns the
tables and a counter for new attendee ids. Its method `Register` runs the
handler's steps in order and changes the attendee table in place.

Behaviour the model keeps on purpose:

- A `maximumAttendees` of `0` is falsy in the handler's test, so such an event
  takes any number of attendees. A `null` maximum is unbounded too. A negative
  maximum is truthy and is always reached, so it rejects every new attendee.
- The duplicate check comes first. A duplicate email at a full event gets the
  duplicate error, not the capacity error.
- The handler has no check of its own for a missing event. The request reaches
  `prisma.attendee.create`, and the model lets the store refuse it there
  (`Store(MissingEvent)`). The relation behind `_count.Attendee` means every
  attendee row belongs to an existing event. `findUnique` on `eventId_email`
  means `(eventId, email)` is a unique key of the table. `CreateAttendee`
  enforces both constraints.
- The errors are the handler's two generic throws (`Duplicate`,
  `CapacityReached`) plus the store's refusal. There are no separate status
  codes.

## Model

| member | source | states |
|---|---|---|
| Store.CountFor | src/routes/register-for-event.ts:40-42 | the attendee count for an event never exceeds the number of rows (the count query) |
| Store.CountIsMatchingRows | src/routes/get-event.ts:38 | the count equals the size of the set of row positions whose eventId matches |
| Store.CountAppend | src/routes/register-for-event.ts:54-56 | creating one row adds exactly one to its own event's count and nothing to any other event's count |
| Store.FindUnique | src/routes/register-for-event.ts:27-29 | a found row is in the table and has the requested eventId and email; `null` exactly when no row has that key |
| GetEvent.GetEvent | src/routes/get-event.ts:28-58 | "Event not found." if and only if no event has the id; otherwise id, slug, title, details and maximumAttendees are returned as stored (null passes through) and attendeesAmount is the number of rows for the event; a function of the tables, so the store is left unchanged |
| GetEvent.AmountAfterAppend | src/routes/get-event.ts:49-56 | after a row for E is added, E's attendeesAmount is one greater, and the answer for every other id is unchanged |
| RegisterForEvent.Admission | src/routes/register-for-event.ts:27-52 | duplicate error if and only if a row with (eventId, email) exists, whatever the capacity; capacity error if and only if there is no duplicate, the event exists with a non-null non-zero maximum, and the count is at least that maximum; never a store error |
| RegisterForEvent.UncappedNeverFull | src/routes/register-for-event.ts:45-48 | a null maximum or a maximum of 0 never leads to the capacity error, whatever the count; without a duplicate the request goes on to create |
| RegisterForEvent.Utf16Length | src/routes/register-for-event.ts:12 | the length `min(4)` tests is counted in UTF-16 code units: between one and two per character |
| RegisterForEvent.AppendKeepsUnique | src/routes/register-for-event.ts:27-33 | adding a row whose (eventId, email) is not yet present keeps the key unique across all rows |
| RegisterForEvent.AdmittedWithinCapacity | src/routes/register-for-event.ts:40-56 | if every capped event is within its maximum before a registration that passes the checks, every capped event is within its maximum after the row is added |
| RegisterForEvent.EventStore.CreateAttendee | src/routes/register-for-event.ts:54-56 | the store refuses a row for a missing event or a taken (eventId, email); otherwise it appends exactly one row with the next id, and nothing else changes |
| RegisterForEvent.EventStore.Register | src/routes/register-for-event.ts:23-58 | for any name of at least four UTF-16 code units: on a duplicate or a full event it fails with that error and leaves the store unchanged; an unknown event passes the handler's checks and is refused by create; otherwise it appends exactly one row {name, email, eventId} and returns that row's id; events never change; uniqueness, existing-event references and fresh ids are kept; the event's count rises by exactly one on success; the store's unique violation is never reached; capacity within bounds is preserved |

## Left out

- Request validation: the UUID syntax of `eventId` and the email syntax of
  `email` are checked before the handlers run and are not modelled.
  `name.min(4)` is a precondition of `Register`, with the length counted in
  UTF-16 code units as JavaScript counts it (`Utf16Length`).
- Response serialisation and status codes (`reply.status(201)`, the response
  schemas) are transport concerns and are not modelled.
- `src/server.ts` builds the server, registers plugins and listens on a port.
  It is process start-up and I/O.
- The database is not modelled. The store is two in-memory tables, and its
  create step checks only the two constraints that the queries reveal.
- Concurrency: the source issues the event read and the count at
  `register-for-event.ts:35-43` in parallel with `Promise.all`; the model
  performs them in sequence. The model handles one request at a time, so it
  cannot show the race in which two concurrent requests both pass the checks
  before either writes.
- The `createEvent` route (`src/routes/create-events`) is not part of this
  model. Events are given when an `EventStore` is constructed and never change.
- Attendee id generation: new rows take the store's counter, starting at 1.
  Valid() keeps ids distinct and below the counter. Nothing more is claimed
  about how the real store assigns ids.
