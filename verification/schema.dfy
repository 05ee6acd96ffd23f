/**
 * The three tables the booking lifecycle works on, as one immutable store,
 * and the consistency conditions the lifecycle is meant to keep.
 */
module Schema {
  import opened Results

  /** `seats.status`: a seat is free or sold. */
  datatype SeatStatus = Available | Booked

  /**
   * `bookings.status`. The column defaults to "pending", but no service
   * ever writes that value; the services write "confirmed" and "cancelled".
   */
  datatype BookingStatus = Pending | Confirmed | Cancelled

  /** The text stored in `seats.status`, which is what status filters compare against. */
  function SeatStatusName(s: SeatStatus): string
  {
    match s
    case Available => "available"
    case Booked => "booked"
  }

  /** One row of `events`, without its id (the key of the map) and timestamps. */
  datatype Event = Event(
    title: string,
    description: Option<string>,
    imageUrl: Option<string>,
    totalSeats: int,
    availableSeats: int,
    status: string)

  /** One row of `seats`. Section, row and number are labels only. */
  datatype Seat = Seat(eventId: int, section: string, row: string, number: string, status: SeatStatus)

  /** One row of `bookings`. */
  datatype Booking = Booking(userId: int, eventId: int, seatId: int, status: BookingStatus, bookingCode: string)

  /** The database: each table is a map from primary key to row. */
  datatype Db = Db(events: map<int, Event>, seats: map<int, Seat>, bookings: map<int, Booking>)

  /** The exceptions the services raise, with their messages. */
  datatype Error =
    | NotFound(message: string)      // NestJS NotFoundException
    | BadRequest(message: string)    // NestJS BadRequestException
    | DuplicateBookingCode(code: string)  // violation of the unique index on bookings.booking_code

  /** What a service call leaves behind: the database after the call and its reply. */
  datatype Step<+T> = Step(db: Db, result: Result<T, Error>)

  /** A booking holds its seat until it is cancelled. */
  predicate IsActive(b: Booking)
  {
    b.status != Cancelled
  }

  /** Ids of the seats of `eventId` whose status is available. */
  function AvailableSeatIds(seats: map<int, Seat>, eventId: int): set<int>
  {
    set sid | sid in seats && seats[sid].eventId == eventId && seats[sid].status == Available
  }

  /** I1: every event's cached counter equals the number of its available seats. */
  ghost predicate CounterMatchesSeats(db: Db)
  {
    forall e :: e in db.events ==> db.events[e].availableSeats == |AvailableSeatIds(db.seats, e)|
  }

  /** I2: no two active bookings hold the same seat. */
  ghost predicate SeatHeldAtMostOnce(db: Db)
  {
    forall b1, b2 :: b1 in db.bookings && b2 in db.bookings && b1 != b2
      && IsActive(db.bookings[b1]) && IsActive(db.bookings[b2])
      ==> db.bookings[b1].seatId != db.bookings[b2].seatId
  }

  /** An active booking's seat is booked and belongs to the booking's event. */
  ghost predicate ActiveBookingsHoldSeats(db: Db)
  {
    forall b :: b in db.bookings && IsActive(db.bookings[b]) ==>
      && db.bookings[b].seatId in db.seats
      && db.seats[db.bookings[b].seatId].status == Booked
      && db.seats[db.bookings[b].seatId].eventId == db.bookings[b].eventId
  }

  /** The foreign keys seat → event, booking → event and booking → seat. */
  ghost predicate ForeignKeysHold(db: Db)
  {
    && (forall s :: s in db.seats ==> db.seats[s].eventId in db.events)
    && (forall b :: b in db.bookings ==> db.bookings[b].eventId in db.events && db.bookings[b].seatId in db.seats)
  }

  /** The unique index on booking codes. */
  ghost predicate CodesUnique(db: Db)
  {
    forall b1, b2 :: b1 in db.bookings && b2 in db.bookings && b1 != b2
      ==> db.bookings[b1].bookingCode != db.bookings[b2].bookingCode
  }

  /** The conditions every sequential run of the services is meant to keep. */
  ghost predicate Valid(db: Db)
  {
    && CounterMatchesSeats(db)
    && SeatHeldAtMostOnce(db)
    && ActiveBookingsHoldSeats(db)
    && ForeignKeysHold(db)
    && CodesUnique(db)
  }
}
