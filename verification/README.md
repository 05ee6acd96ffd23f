# Seat inventory and booking lifecycle of a concert-ticket backend

A Dafny model of the core of a NestJS/Drizzle/MySQL ticket-booking service.
It covers `BookingsService`, which reserves a seat, lists bookings, reads one
booking and cancels a booking. It also covers `EventsService`, which creates
an event together with its seats, pages through events, reads an event and
its seats, and updates or deletes an event.

The database is one immutable value, `Schema.Db`. It holds three maps from
primary key to row: `events`, `seats` and `bookings`. Seat status
(`available`, `booked`) and booking status (`pending`, `confirmed`,
`cancelled`) are enumerations. Every service call is a pure function. The
calls that write and can fail (booking `create` and `cancel`, event `update`
and `remove`) return a `Step`: the database after the call, and either the
returned row or the error. Each of them leaves the database unchanged when it
fails, and its contract says so. The reads that can fail (booking `findOne`,
event `findOne` and `findSeats`) return a `Result` and no database.

`Schema.Valid` collects the conditions the lifecycle is meant to keep:

- I1 (`CounterMatchesSeats`): an event's `availableSeats` equals the number of
  its seats whose status is `available`.
- I2 (`SeatHeldAtMostOnce`): no two active (not cancelled) bookings hold the
  same seat.
- An active booking's seat is `booked` and belongs to the booking's event.
- The foreign keys seat → event, booking → event and booking → seat hold.
- Booking codes are unique.

Where the code does less than its callers or its own tests
(`src/modules/bookings/bookings.service.spec.ts:207-233`) might expect, the
model follows the code and shows the gap in a lemma:

- `create` looks the seat up by id and status only. It never checks that the
  seat belongs to the requested event
  (`src/modules/bookings/bookings.service.ts:25-29`). Booking therefore
  preserves I1 only when that ownership premise holds.
  `Invariants.CreateBookingPreservesValid` takes the premise as a
  precondition. `Invariants.CrossEventSeatBreaksCounter` shows a consistent
  store that a cross-event booking makes inconsistent.
- The tests at `src/modules/bookings/bookings.service.spec.ts:207-233` expect
  two checks: one that the user exists, and one that the user has no active
  booking for the event yet. The service performs neither, and the model
  follows the service. `Invariants.SameUserBooksTwice` shows one user holding
  two active bookings for one event.
- The service's own refusals are a `NotFoundException` or a
  `BadRequestException`, and the model keeps their messages. Three messages
  are fixed text ("Seat is not available", "You can only cancel your own
  bookings", "Booking is already cancelled"), and "Event not found" in booking
  `create` is fixed as well. The two `findOne` messages quote the id
  ("Booking #id not found", "Event #id not found"). One more failure comes
  from MySQL rather than the service: a booking code that is already in use
  violates the unique index on `bookings.booking_code`. The model names this
  error `DuplicateBookingCode`.
- `update` can change `totalSeats` without touching the seats or the counter,
  so `availableSeats <= totalSeats` is not an invariant of the code (`Invariants.UpdateCanLeaveCounterAboveCapacity`).

The model does not supply database-generated values itself. Auto-increment
ids are parameters that must be unused keys. A seat batch receives
consecutive ids. The six bytes from `randomBytes(6)` are a parameter. The
order in which the table returns events is a parameter that lists every
event id exactly once.

## Model

| member | source | states |
|---|---|---|
| Decimal.NatToString | src/modules/events/events.service.ts:33-34 | `String(i)` for a natural number is a non-empty string of digits, with a leading '0' only for 0 |
| Decimal.ParseNatToString | src/modules/events/events.service.ts:34 | reading a rendered seat number back gives the number |
| Decimal.NatToStringInjective | src/modules/events/events.service.ts:34 | distinct numbers render as distinct strings |
| Decimal.IntToString | src/modules/bookings/bookings.service.ts:82 | an id quoted in a message starts with '-' exactly when it is negative, and is plain digits otherwise |
| Decimal.IntToStringInjective | src/modules/events/events.service.ts:88 | distinct ids give distinct quoted ids, so a NotFound message names its id |
| BookingCodes.LowerHex | src/modules/bookings/bookings.service.ts:36 | `toString('hex')` gives two characters per byte |
| BookingCodes.ToUpperAscii | src/modules/bookings/bookings.service.ts:36 | upper-casing keeps the length |
| BookingCodes.UpperHex | src/modules/bookings/bookings.service.ts:36 | the reference rendering has two upper-case hex digits per byte |
| BookingCodes.UpperCasedHex | src/modules/bookings/bookings.service.ts:36 | `toString('hex').toUpperCase()` equals the upper-case hex rendering, for every byte sequence |
| BookingCodes.HexValue | src/modules/bookings/bookings.service.ts:36 | a digit's value is below 16 and selects that digit again |
| BookingCodes.Unhex | src/modules/bookings/bookings.service.ts:36 | decoding halves the length |
| BookingCodes.UnhexUpperHex | src/modules/bookings/bookings.service.ts:36 | decoding inverts the hex rendering |
| BookingCodes.CodeShape | src/modules/bookings/bookings.service.ts:36 | a code is "BK-" followed by 12 upper-case hex digits, 15 characters in all |
| BookingCodes.BookingCode | src/modules/bookings/bookings.service.ts:36 | `BK-` + `randomBytes(6).toString('hex').toUpperCase()` is the prefix followed by the upper-case hex rendering of the draw, two digits per byte |
| BookingCodes.ParseBookingCodeRoundTrip | src/modules/bookings/bookings.service.ts:36 | parsing a generated code gives back the 6 random bytes |
| BookingCodes.BookingCodeInjective | src/database/schema/bookings.schema.ts:18 | two codes are equal exactly when the random draws are equal, so the unique index can only be hit by a repeated draw |
| BookingsService.Create | src/modules/bookings/bookings.service.ts:12-68 | an unknown event fails NotFound("Event not found"). A missing or non-available seat then fails BadRequest("Seat is not available"). A code already in use fails on the unique index. Each failure leaves the store unchanged. Otherwise (known event, available seat, unused code) it succeeds. On success exactly one confirmed booking is inserted with the given user, event, seat and code, that seat becomes booked, that event's counter drops by 1, and nothing else changes |
| BookingsService.FindAll | src/modules/bookings/bookings.service.ts:71-76 | with a non-zero user id, exactly that user's bookings; with no id or id 0, all bookings |
| BookingsService.FindOne | src/modules/bookings/bookings.service.ts:78-85 | the booking when the id exists, else NotFound("Booking #id not found") |
| BookingsService.Cancel | src/modules/bookings/bookings.service.ts:87-130 | the checks run in order: unknown id gives NotFound, another user's booking gives BadRequest (even when it is already cancelled), a cancelled booking gives BadRequest. Each failure leaves the store unchanged. On success the booking alone becomes cancelled and is returned, its seat (if present) alone becomes available, and its event's counter (if the event exists) alone rises by 1 |
| EventsService.RowOf | src/modules/events/events.service.ts:33 | the row number r of seat i satisfies 10(r-1) < i <= 10r, i.e. r = ceil(i/10) |
| EventsService.NewSeatReadsBack | src/modules/events/events.service.ts:30-36 | the i-th seat built is a free "General" seat of its event whose number and row read back as i and ceil(i/10) |
| EventsService.BuildSeatRows | src/modules/events/events.service.ts:21-41 | the loop builds exactly totalSeats rows (none for a negative count), the k-th being seat k+1, and these are the seats the batch insert stores under ids firstSeatId+k |
| EventsService.SeatIdRange | src/modules/events/events.service.ts:39-41 | a batch of n rows gets n consecutive ids from the first one |
| EventsService.SeatBatch | src/modules/events/events.service.ts:29-41 | the inserted seats are keyed by those ids, id f+k holding seat k+1 |
| EventsService.Create | src/modules/events/events.service.ts:12-48 | the new event stores availableSeats = totalSeats and status "published"; old seats and bookings are untouched; the new seat ids are exactly the batch range |
| EventsService.CreatedSeat | src/modules/events/events.service.ts:29-41 | seat id s of a new event is the (s-first+1)-th seat built |
| EventsService.CreateSeatsOfEvent | src/modules/events/events.service.ts:12-41 | after create, the seats of the new event are exactly the batch, and all are available |
| EventsService.CreateEstablishesCounter | src/modules/events/events.service.ts:13-41 | I1 holds for the new event: its available seats number totalSeats, which equals its counter |
| EventsService.CreateSeatLabels | src/modules/events/events.service.ts:29-37 | seat i is an available "General" seat numbered String(i) in row String(ceil(i/10)) of the new event |
| EventsService.CreateSeatNumbersDistinct | src/modules/events/events.service.ts:34 | distinct seats of a new event have distinct numbers |
| EventsService.NewSeatNumbersDistinct | src/modules/events/events.service.ts:34 | seats built at distinct positions have distinct numbers |
| EventsService.RowLabels | src/modules/events/events.service.ts:33 | `Math.ceil(i/10)` equals (i-1)/10+1 for seat numbers i >= 1: seats 1-10 get row 1, seats 11-20 row 2 |
| EventsService.CeilDiv | src/modules/events/events.service.ts:79 | totalPages is the least page count whose pages hold the total (25/10 gives 3, 0 gives 0) |
| EventsService.Offset | src/modules/events/events.service.ts:53 | page 1 starts at offset 0 |
| EventsService.OffsetSkipsWholePages | src/modules/events/events.service.ts:53 | `(page - 1) * limit` skips exactly page-1 whole pages: it is a multiple of limit, and dividing by limit gives page-1 |
| EventsService.Matches | src/modules/events/events.service.ts:55-63 | with no non-empty filter every event matches; a matching event has the given status and its title contains the given search text |
| EventsService.Filtered | src/modules/events/events.service.ts:55-66 | the selection has at most one row per scanned id, and one for each when every scanned event passes the filters |
| EventsService.Window | src/modules/events/events.service.ts:66 | `LIMIT l OFFSET o` keeps min(l, n-o) rows when o < n and none otherwise, the k-th being row o+k |
| EventsService.FindAll | src/modules/events/events.service.ts:51-81 | page defaults to 1 and limit to 10; with offset (page-1)*limit, data holds min(limit, total-offset) rows when offset < total and none otherwise, its k-th row being the (offset+k)-th selected event in scan order; every row is a table event matching the given non-empty filters; total counts every matching event; totalPages = ceil(total/limit) |
| EventsService.FilteredSound | src/modules/events/events.service.ts:55-66 | every selected row is a table row that passes the filters |
| EventsService.MatchingInScan | src/modules/events/events.service.ts:55-63 | the ids selected from a scan are exactly the scanned ids that pass the filters |
| EventsService.FilteredLength | src/modules/events/events.service.ts:66-70 | a scan without repeats yields one row per selected id |
| EventsService.NoRepeatsTail | src/modules/events/events.service.ts:66 | the rest of a repeat-free scan is repeat-free and lacks the first id |
| EventsService.ScanSelectsMatching | src/modules/events/events.service.ts:55-66 | a scan that visits every row selects exactly the ids the where-clause selects |
| EventsService.FilteredListsMatchesOnce | src/modules/events/events.service.ts:55-66 | a repeat-free scan lists no id twice and lists every selected row of the scan |
| EventsService.FilteredIsSelection | src/modules/events/events.service.ts:55-66 | the selection holds every matching event of the table exactly once, each with the table's row |
| EventsService.FilteredCountsMatches | src/modules/events/events.service.ts:67-70 | the count query and the data query select the same events |
| EventsService.WindowsArePrefix | src/modules/events/events.service.ts:53-66 | the first n pages together are the first n*limit selected rows |
| EventsService.WindowsCoverAll | src/modules/events/events.service.ts:66-79 | ceil(total/limit) pages cover the whole selection |
| EventsService.WindowsPastEndEmpty | src/modules/events/events.service.ts:66-79 | a window after the last page is empty |
| EventsService.WindowsStep | src/modules/events/events.service.ts:53-66 | the first n windows are the first n-1 windows followed by window n |
| EventsService.PagesAreWindowsStep | src/modules/events/events.service.ts:53-66 | if pages 1..n-1 are the first n-1 windows, pages 1..n are the first n windows |
| EventsService.PagesAreWindows | src/modules/events/events.service.ts:53-66 | the data of pages 1..n of `findAll`, one after the other, are the first n windows of the selection |
| EventsService.PagesCoverSelection | src/modules/events/events.service.ts:51-81 | the data of pages 1..totalPages of `findAll`, one after the other, list every matching event exactly once and nothing else: no id twice, each row the table's row |
| EventsService.PageAfterLastIsEmpty | src/modules/events/events.service.ts:53-79 | a page number beyond totalPages returns no events |
| EventsService.FindOne | src/modules/events/events.service.ts:84-91 | the event when the id exists, else NotFound("Event #id not found") |
| EventsService.FindSeats | src/modules/events/events.service.ts:93-105 | an unknown event fails NotFound; otherwise exactly that event's seats, restricted to the given status when it is non-empty |
| EventsService.AvailableListingIsCounted | src/modules/events/events.service.ts:93-105 | listing an event's "available" seats gives exactly the seats I1 counts |
| EventsService.Patched | src/modules/events/events.service.ts:107-116 | the `set` of a partial update changes only the supplied title, description, image URL and total seat count; every other field, the counter and the status included, keeps its value |
| EventsService.Update | src/modules/events/events.service.ts:107-116 | an unknown event fails NotFound with the store unchanged; otherwise only that event changes, only in the supplied fields; seats, bookings, the counter and the status stay as they were |
| EventsService.Remove | src/modules/events/events.service.ts:118-135 | an unknown event fails NotFound with the store unchanged. Otherwise it returns "Event #id deleted". The event is gone, and so are exactly the seats of the event and the bookings naming the event or one of its seats. Every other row is unchanged |
| Invariants.AvailableAfterBooking | src/modules/bookings/bookings.service.ts:54-57 | booking an available seat removes only it from its event's available set |
| Invariants.AvailableAfterRelease | src/modules/bookings/bookings.service.ts:107-110 | freeing a booked seat adds only it to its event's available set |
| Invariants.CreateBookingPreservesValid | src/modules/bookings/bookings.service.ts:25-66 | a booking on a consistent store keeps I1, I2, the seat links, foreign keys and unique codes, and every counter non-negative, provided the seat belongs to the requested event |
| Invariants.CancelPreservesValid | src/modules/bookings/bookings.service.ts:87-127 | cancelling keeps the store consistent and every counter non-negative |
| Invariants.CreateThenCancel | src/modules/bookings/bookings.service.ts:39-127 | create then cancel by the same user restores every seat and every event exactly; only the cancelled booking remains; a second cancel fails "Booking is already cancelled" and changes nothing |
| Invariants.CreateEventPreservesValid | src/modules/events/events.service.ts:12-48 | creating an event with its seats keeps the store consistent |
| Invariants.UpdateEventPreservesValid | src/modules/events/events.service.ts:107-116 | updating an event keeps the store consistent |
| Invariants.RemoveEventPreservesValid | src/modules/events/events.service.ts:118-135 | deleting an event keeps the remaining store consistent |
| Invariants.TwoEventsValid | src/modules/bookings/bookings.service.ts:25-29 | the store on which CrossEventSeatBreaksCounter books across events is consistent before the booking |
| Invariants.TwoSeatsValid | src/modules/bookings/bookings.service.ts:12-68 | the store on which SameUserBooksTwice and UpdateCanLeaveCounterAboveCapacity start is consistent |
| Invariants.CrossEventSeatBreaksCounter | src/modules/bookings/bookings.service.ts:25-29 | on a consistent store, booking event 1 with event 2's seat succeeds for any draw and breaks I1 |
| Invariants.SecondDrawUnused | src/modules/bookings/bookings.service.ts:36 | a different draw gives a code no existing booking carries |
| Invariants.FirstOfTwoSeats | src/modules/bookings/bookings.service.ts:12-68 | booking seat 10 of the two-seat event succeeds, keeps the store consistent, and leaves seat 11 free |
| Invariants.SameUserBooksTwice | src/modules/bookings/bookings.service.ts:12-68 | for any two different draws, one user books two seats of one event, both bookings are active, and the store stays consistent |
| Invariants.UpdateCanLeaveCounterAboveCapacity | src/modules/events/events.service.ts:107-116 | lowering totalSeats leaves availableSeats above it while the store stays consistent |
| Invariants.SingleSeatScenario | src/modules/bookings/bookings.service.ts:12-130 | on a single-seat event: A books, B is refused, A cancels, then B books; the counter goes 1, 0, 1, 0 |

## Left out

- Concurrency and atomicity. The model runs calls one at a time. The
  check-then-act sequences and the stale counter reads at
  `bookings.service.ts:63` and `:123` can race under parallel requests.
  Transactions and row locks cannot be expressed over an immutable store.
- The database layer: Drizzle query builders, connections and `insertId`
  handling are replaced by maps. Fresh auto-increment ids are parameters.
  The model assumes a batch insert gives consecutive ids.
- `randomBytes(6)` is a parameter. A code collision is the
  `DuplicateBookingCode` error, not a retry. The database's error text is
  not modelled.
- The users table, and the foreign key from a booking to its user. An insert
  naming a missing user would fail in MySQL; the model does not fail it.
- The user-existence and duplicate-active-booking checks expected by
  `bookings.service.spec.ts:207-233`. The service has no such checks.
- SQL `LIKE` semantics. The model treats the search as plain substring
  containment, so `%` and `_` inside the search text and case-insensitive
  collation are not modelled.
- Row order. Without an ORDER BY, MySQL returns rows in an unspecified
  order, so `EventsService.FindAll` takes the scan order as a parameter.
  Seat and booking listings are returned as maps, since their order is not
  specified.
- EventsService.PagesCoverSelection: holds only when every page request sees
  the same row order and an unchanged events table. The lemma passes one scan
  order to all page requests. Without an ORDER BY, MySQL may order the rows
  differently for each query, and rows may be inserted or deleted between
  requests. Either way a real client can then see a row twice or never.
- EventsService.PagesAreWindows: holds under the same premise, one row order
  and an unchanged table shared by all page requests.
- EventsService.FindAll: requires page and limit to be at least 1 when given.
  Their validation is in `PaginationDto` (common/dto), which is not part of
  this model. A page of 0 or below gives a negative OFFSET, which MySQL
  rejects. A limit of 0 is valid SQL: `LIMIT 0` returns no rows, and
  `Math.ceil(total / 0)` reports `totalPages` as `Infinity`, or as `NaN`
  when total is 0 (`events.service.ts:79`). A negative limit is rejected by
  MySQL. None of these paths is modelled.
- EventsService.FindAll: the status filter compares exactly. The database is
  created with `COLLATE utf8mb4_unicode_ci` (`create-db.ts:18`), so
  `eq(events.status, status)` (`events.service.ts:60`) ignores letter case
  and trailing spaces. "Published" selects the same events as "published" in
  MySQL but none in the model.
- EventsService.FindSeats: the status filter compares exactly, while
  `eq(seats.status, status)` (`events.service.ts:98`) compares under the
  same case- and pad-insensitive collation. `findSeats(e, "Available")`
  lists the available seats in MySQL and none in the model. A faithful
  collation (Unicode case and accent folding) is beyond this model.
- EventsService.Create: requires totalSeats >= 1, as `CreateEventDto`
  (`create-event.dto.ts:33-35`) validates. The `seatsData.length > 0` guard
  for an empty batch therefore always passes and is not modelled.
- Columns and fields without logic: timestamps (`createdAt`, `updatedAt`),
  and `startDate`, `endDate` and `venueId` of the DTO, which have no column
  in the events table. Column widths (32-bit `int`, `varchar` lengths) are
  not modelled either: all integers are unbounded.
- EventsService.Update: the patch holds only the DTO's columns.
  `Partial<CreateEventDto>` is erased to `Object` at run time. The
  validation pipe therefore does not filter the body, and a request could
  also overwrite `availableSeats` or `status`. That path is not modelled.
- Auth (bcrypt, JWT, passport, cookies), the users and venues services,
  controllers, module wiring, the booking queue processor, the notification
  stubs, and the seed, reset, migrate and create-db scripts. They are I/O,
  plain keyed CRUD or logging with no invariants.
- The invariant "one active booking per user per event" is not claimed,
  because the code does not keep it. "availableSeats never exceeds
  totalSeats" is not claimed either, because `update` breaks it.
