/**
 * `BookingsService`: reserving a seat, listing and reading bookings, and
 * cancelling a booking, as transitions of the store run one at a time.
 */
module BookingsService {
  import opened Results
  import opened Schema
  import opened BookingCodes
  import Decimal

  const EventNotFoundMessage := "Event not found"
  const SeatNotAvailableMessage := "Seat is not available"
  const NotOwnerMessage := "You can only cancel your own bookings"
  const AlreadyCancelledMessage := "Booking is already cancelled"

  function BookingNotFoundMessage(id: int): string
  {
    "Booking #" + Decimal.IntToString(id) + " not found"
  }

  /** The seat lookup of `create`: a seat with this id whose status is available. */
  predicate SeatIsAvailable(db: Db, seatId: int)
  {
    seatId in db.seats && db.seats[seatId].status == Available
  }

  /** True iff some booking already carries this code. */
  predicate CodeInUse(db: Db, code: string)
  {
    exists b :: b in db.bookings && db.bookings[b].bookingCode == code
  }

  /**
   * `create(userId, {eventId, seatId})`. `bookingId` is the id the database
   * assigns to the inserted row and `random` the six bytes drawn for the code.
   * The seat is looked up by id and status only: nothing checks that it
   * belongs to `eventId`, that the user exists, or that the user already
   * holds a booking for the event.
   */
  function Create(db: Db, userId: int, eventId: int, seatId: int, bookingId: int, random: seq<Byte>): (r: Step<Booking>)
    requires bookingId !in db.bookings
    requires |random| == RandomLength
    ensures r.result.Err? ==> r.db == db
    ensures r.result.Ok? <==>
              eventId in db.events && SeatIsAvailable(db, seatId) && !CodeInUse(db, BookingCode(random))
    ensures r.result == Err(NotFound(EventNotFoundMessage)) <==> eventId !in db.events
    ensures r.result == Err(BadRequest(SeatNotAvailableMessage)) <==>
              eventId in db.events && !SeatIsAvailable(db, seatId)
    ensures r.result.Err? && r.result.error.DuplicateBookingCode? <==>
              eventId in db.events && SeatIsAvailable(db, seatId) && CodeInUse(db, BookingCode(random))
    ensures r.result.Ok? ==>
              && r.result.value == Booking(userId, eventId, seatId, Confirmed, BookingCode(random))
              // one booking inserted, nothing else in the table touched
              && r.db.bookings.Keys == db.bookings.Keys + {bookingId}
              && r.db.bookings[bookingId] == r.result.value
              && (forall b :: b in db.bookings ==> r.db.bookings[b] == db.bookings[b])
              // the seat flipped to booked, nothing else in the table touched
              && AgreeExcept(db.seats, r.db.seats, seatId)
              && r.db.seats[seatId] == db.seats[seatId].(status := Booked)
              // the event's counter one lower, nothing else in the table touched
              && AgreeExcept(db.events, r.db.events, eventId)
              && r.db.events[eventId] == db.events[eventId].(availableSeats := db.events[eventId].availableSeats - 1)
  {
    if eventId !in db.events then
      Step(db, Err(NotFound(EventNotFoundMessage)))
    else if !SeatIsAvailable(db, seatId) then
      Step(db, Err(BadRequest(SeatNotAvailableMessage)))
    else
      var code := BookingCode(random);
      if CodeInUse(db, code) then
        Step(db, Err(DuplicateBookingCode(code)))
      else
        var booking := Booking(userId, eventId, seatId, Confirmed, code);
        var event := db.events[eventId];
        var db' := Db(
          db.events[eventId := event.(availableSeats := event.availableSeats - 1)],
          db.seats[seatId := db.seats[seatId].(status := Booked)],
          db.bookings[bookingId := booking]);
        Step(db', Ok(booking))
  }

  /**
   * `findAll(userId?)`: the bookings of one user, or all bookings when no
   * id is given. The test is on truthiness, so user id 0 also means "all".
   */
  function FindAll(db: Db, userId: Option<int>): (r: map<int, Booking>)
    ensures forall b :: b in r ==> b in db.bookings && r[b] == db.bookings[b]
    ensures userId.Some? && userId.value != 0 ==>
              forall b :: b in db.bookings ==> (b in r <==> db.bookings[b].userId == userId.value)
    ensures userId.None? || userId.value == 0 ==> r == db.bookings
  {
    if userId.Some? && userId.value != 0 then
      map b | b in db.bookings && db.bookings[b].userId == userId.value :: db.bookings[b]
    else
      db.bookings
  }

  /** `findOne(id)`: the booking with that id, or NotFound quoting the id. */
  function FindOne(db: Db, id: int): (r: Result<Booking, Error>)
    ensures r.Ok? <==> id in db.bookings
    ensures r.Ok? ==> r.value == db.bookings[id]
    ensures r.Err? ==> r.error == NotFound(BookingNotFoundMessage(id))
  {
    if id in db.bookings then Ok(db.bookings[id]) else Err(NotFound(BookingNotFoundMessage(id)))
  }

  /**
   * `cancel(id, userId)`. The checks run in this order: the booking exists,
   * it belongs to the caller, it is not cancelled yet. On success the
   * booking becomes cancelled, its seat available, and its event's counter
   * goes up by one when the event is still there.
   */
  function Cancel(db: Db, id: int, userId: int): (r: Step<Booking>)
    ensures r.result.Err? ==> r.db == db
    ensures id !in db.bookings <==> r.result == Err(NotFound(BookingNotFoundMessage(id)))
    ensures id in db.bookings && db.bookings[id].userId != userId <==>
              r.result == Err(BadRequest(NotOwnerMessage))
    ensures r.result == Err(BadRequest(AlreadyCancelledMessage)) <==>
              id in db.bookings && db.bookings[id].userId == userId && db.bookings[id].status == Cancelled
    ensures r.result.Ok? <==>
              id in db.bookings && db.bookings[id].userId == userId && db.bookings[id].status != Cancelled
    ensures r.result.Ok? ==>
              var b := db.bookings[id];
              && r.result.value == b.(status := Cancelled)
              && AgreeExcept(db.bookings, r.db.bookings, id)
              && r.db.bookings[id] == r.result.value
              // the seat is freed when it exists; no other seat changes
              && (b.seatId in db.seats ==>
                    && AgreeExcept(db.seats, r.db.seats, b.seatId)
                    && r.db.seats[b.seatId] == db.seats[b.seatId].(status := Available))
              && (b.seatId !in db.seats ==> r.db.seats == db.seats)
              // the counter goes up when the event exists; no other event changes
              && (b.eventId in db.events ==>
                    && AgreeExcept(db.events, r.db.events, b.eventId)
                    && r.db.events[b.eventId]
                       == db.events[b.eventId].(availableSeats := db.events[b.eventId].availableSeats + 1))
              && (b.eventId !in db.events ==> r.db.events == db.events)
  {
    match FindOne(db, id)
    case Err(e) => Step(db, Err(e))
    case Ok(booking) =>
      if booking.userId != userId then
        Step(db, Err(BadRequest(NotOwnerMessage)))
      else if booking.status == Cancelled then
        Step(db, Err(BadRequest(AlreadyCancelledMessage)))
      else
        var updated := booking.(status := Cancelled);
        var seats' :=
          if booking.seatId in db.seats
          then db.seats[booking.seatId := db.seats[booking.seatId].(status := Available)]
          else db.seats;
        var events' :=
          if booking.eventId in db.events
          then db.events[booking.eventId := db.events[booking.eventId].(availableSeats := db.events[booking.eventId].availableSeats + 1)]
          else db.events;
        Step(Db(events', seats', db.bookings[id := updated]), Ok(updated))
  }
}
