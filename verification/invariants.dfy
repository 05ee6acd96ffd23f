/**
 * The consistency conditions of `Schema.Valid` under sequential runs of the
 * services: which operations keep them and under what premise, the
 * create/cancel round trip, and concrete stores showing where the code
 * does less than its own tests expect.
 */
module Invariants {
  import opened Results
  import opened Schema
  import opened BookingCodes
  import Bookings = BookingsService
  import Events = EventsService

  // ------------------------------------------------ counting available seats

  /** Booking an available seat removes it, and only it, from its event's available set. */
  lemma AvailableAfterBooking(seats: map<int, Seat>, sid: int, e: int)
    requires sid in seats && seats[sid].status == Available
    ensures var seats' := seats[sid := seats[sid].(status := Booked)];
            && (e == seats[sid].eventId ==> AvailableSeatIds(seats', e) == AvailableSeatIds(seats, e) - {sid})
            && (e != seats[sid].eventId ==> AvailableSeatIds(seats', e) == AvailableSeatIds(seats, e))
            && (e == seats[sid].eventId ==> |AvailableSeatIds(seats', e)| == |AvailableSeatIds(seats, e)| - 1)
  {
    var seats' := seats[sid := seats[sid].(status := Booked)];
    if e == seats[sid].eventId {
      assert AvailableSeatIds(seats', e) == AvailableSeatIds(seats, e) - {sid};
      assert sid in AvailableSeatIds(seats, e);
    } else {
      assert AvailableSeatIds(seats', e) == AvailableSeatIds(seats, e);
    }
  }

  /** Freeing a booked seat adds it, and only it, to its event's available set. */
  lemma AvailableAfterRelease(seats: map<int, Seat>, sid: int, e: int)
    requires sid in seats && seats[sid].status == Booked
    ensures var seats' := seats[sid := seats[sid].(status := Available)];
            && (e == seats[sid].eventId ==> AvailableSeatIds(seats', e) == AvailableSeatIds(seats, e) + {sid})
            && (e != seats[sid].eventId ==> AvailableSeatIds(seats', e) == AvailableSeatIds(seats, e))
            && (e == seats[sid].eventId ==> |AvailableSeatIds(seats', e)| == |AvailableSeatIds(seats, e)| + 1)
  {
    var seats' := seats[sid := seats[sid].(status := Available)];
    if e == seats[sid].eventId {
      assert AvailableSeatIds(seats', e) == AvailableSeatIds(seats, e) + {sid};
      assert sid !in AvailableSeatIds(seats, e);
    } else {
      assert AvailableSeatIds(seats', e) == AvailableSeatIds(seats, e);
    }
  }

  // ---------------------------------------------------------- bookings

  /**
   * A booking keeps the database consistent, and every counter
   * non-negative, provided the chosen seat belongs to the requested event:
   * the one premise the code does not check.
   */
  lemma CreateBookingPreservesValid(db: Db, userId: int, eventId: int, seatId: int, bookingId: int, random: seq<Byte>)
    requires Valid(db)
    requires bookingId !in db.bookings
    requires |random| == RandomLength
    requires seatId in db.seats ==> db.seats[seatId].eventId == eventId
    ensures var r := Bookings.Create(db, userId, eventId, seatId, bookingId, random);
            && Valid(r.db)
            && forall e :: e in r.db.events ==> r.db.events[e].availableSeats >= 0
  {
    var r := Bookings.Create(db, userId, eventId, seatId, bookingId, random);
    if r.result.Ok? {
      var db' := r.db;
      forall e | e in db'.events
        ensures db'.events[e].availableSeats == |AvailableSeatIds(db'.seats, e)|
      {
        AvailableAfterBooking(db.seats, seatId, e);
      }
      // No active booking held the seat: active bookings hold booked seats.
      forall b | b in db.bookings && IsActive(db.bookings[b])
        ensures db.bookings[b].seatId != seatId
      {
      }
      assert CodesUnique(db') by {
        assert !Bookings.CodeInUse(db, BookingCode(random));
      }
    }
  }

  /** Cancelling keeps the database consistent, with no premise beyond consistency. */
  lemma CancelPreservesValid(db: Db, id: int, userId: int)
    requires Valid(db)
    ensures var r := Bookings.Cancel(db, id, userId);
            && Valid(r.db)
            && forall e :: e in r.db.events ==> r.db.events[e].availableSeats >= 0
  {
    var r := Bookings.Cancel(db, id, userId);
    if r.result.Ok? {
      var b := db.bookings[id];
      var db' := r.db;
      assert b.seatId in db.seats && db.seats[b.seatId].status == Booked;
      assert b.eventId in db.events;
      forall e | e in db'.events
        ensures db'.events[e].availableSeats == |AvailableSeatIds(db'.seats, e)|
      {
        AvailableAfterRelease(db.seats, b.seatId, e);
      }
      forall b' | b' in db.bookings && b' != id && IsActive(db.bookings[b'])
        ensures db.bookings[b'].seatId != b.seatId
      {
      }
    }
  }

  /**
   * Booking and then cancelling as the same user gives back the seat
   * statuses and counters of before: the only trace left is the cancelled
   * booking. A second cancel is then refused and changes nothing.
   */
  lemma CreateThenCancel(db: Db, userId: int, eventId: int, seatId: int, bookingId: int, random: seq<Byte>)
    requires bookingId !in db.bookings
    requires |random| == RandomLength
    requires Bookings.Create(db, userId, eventId, seatId, bookingId, random).result.Ok?
    ensures var created := Bookings.Create(db, userId, eventId, seatId, bookingId, random);
            var cancelled := Bookings.Cancel(created.db, bookingId, userId);
            var booking := created.result.value.(status := Cancelled);
            && cancelled == Step(db.(bookings := db.bookings[bookingId := booking]), Ok(booking))
            && cancelled.db.seats == db.seats
            && cancelled.db.events == db.events
            && Bookings.Cancel(cancelled.db, bookingId, userId)
               == Step(cancelled.db, Err(BadRequest(Bookings.AlreadyCancelledMessage)))
  {
    var created := Bookings.Create(db, userId, eventId, seatId, bookingId, random);
    var cancelled := Bookings.Cancel(created.db, bookingId, userId);
    assert cancelled.db.seats == db.seats;
    assert cancelled.db.events == db.events;
  }

  // ------------------------------------------------------------ events

  /** Creating an event with its seats keeps the database consistent. */
  lemma CreateEventPreservesValid(db: Db, dto: Events.CreateEventDto, eventId: int, firstSeatId: int)
    requires Valid(db)
    requires dto.totalSeats >= 1
    requires eventId !in db.events
    requires forall k :: firstSeatId <= k < firstSeatId + dto.totalSeats ==> k !in db.seats
    ensures Valid(Events.Create(db, dto, eventId, firstSeatId).0)
  {
    assert Events.CreatePre(db, dto, eventId, firstSeatId);
    var db' := Events.Create(db, dto, eventId, firstSeatId).0;
    assert CounterMatchesSeats(db') by {
      forall e | e in db'.events
        ensures db'.events[e].availableSeats == |AvailableSeatIds(db'.seats, e)|
      {
        if e == eventId {
          Events.CreateEstablishesCounter(db, dto, eventId, firstSeatId);
        } else {
          forall s | s in db'.seats && s !in db.seats ensures db'.seats[s].eventId != e {
            Events.CreatedSeat(db, dto, eventId, firstSeatId, s);
          }
          assert AvailableSeatIds(db'.seats, e) == AvailableSeatIds(db.seats, e);
        }
      }
    }
    assert ForeignKeysHold(db') by {
      forall s | s in db'.seats ensures db'.seats[s].eventId in db'.events {
        if s !in db.seats {
          Events.CreatedSeat(db, dto, eventId, firstSeatId, s);
        }
      }
    }
    assert ActiveBookingsHoldSeats(db');
  }

  /** Updating an event keeps the database consistent: it touches neither counters nor seats. */
  lemma UpdateEventPreservesValid(db: Db, id: int, patch: Events.EventPatch)
    requires Valid(db)
    ensures Valid(Events.Update(db, id, patch).db)
  {
  }

  /** Deleting an event keeps the database consistent for everything that remains. */
  lemma RemoveEventPreservesValid(db: Db, id: int)
    requires Valid(db)
    ensures Valid(Events.Remove(db, id).db)
  {
    var r := Events.Remove(db, id);
    if r.result.Ok? {
      var db' := r.db;
      forall e | e in db'.events
        ensures AvailableSeatIds(db'.seats, e) == AvailableSeatIds(db.seats, e)
      {
      }
      forall b | b in db'.bookings
        ensures db'.bookings[b].seatId in db'.seats
      {
        assert db.bookings[b].seatId in db.seats;
      }
    }
  }

  // ------------------------------------------- where the code keeps less

  /** Two different draws of `randomBytes(6)`. */
  predicate TwoDraws(ra: seq<Byte>, rb: seq<Byte>)
  {
    |ra| == RandomLength && |rb| == RandomLength && ra != rb
  }

  function PublishedEvent(title: string, seats: int): Event
  {
    Event(title, None, None, seats, seats, Events.PublishedStatus)
  }

  /** Two events with one free seat each: seat 10 of event 1 and seat 20 of event 2. */
  function TwoEvents(): Db
  {
    Db(map[1 := PublishedEvent("A", 1), 2 := PublishedEvent("B", 1)],
       map[10 := Seat(1, "General", "1", "1", Available), 20 := Seat(2, "General", "1", "1", Available)],
       map[])
  }

  /** One event with two free seats, 10 and 11. */
  function TwoSeats(): Db
  {
    Db(map[1 := PublishedEvent("A", 2)],
       map[10 := Seat(1, "General", "1", "1", Available), 11 := Seat(1, "General", "1", "2", Available)],
       map[])
  }

  lemma TwoEventsValid()
    ensures Valid(TwoEvents())
  {
    var db := TwoEvents();
    assert AvailableSeatIds(db.seats, 1) == {10};
    assert AvailableSeatIds(db.seats, 2) == {20};
  }

  lemma TwoSeatsValid()
    ensures Valid(TwoSeats())
  {
    var db := TwoSeats();
    assert AvailableSeatIds(db.seats, 1) == {10, 11};
  }

  /**
   * Without the ownership premise a booking breaks I1: booking event 1 with
   * event 2's seat lowers event 1's counter and books event 2's seat.
   */
  lemma CrossEventSeatBreaksCounter(random: seq<Byte>)
    requires |random| == RandomLength
    ensures Valid(TwoEvents())
    ensures var r := Bookings.Create(TwoEvents(), 7, 1, 20, 100, random);
            r.result.Ok? && !CounterMatchesSeats(r.db)
  {
    TwoEventsValid();
    var r := Bookings.Create(TwoEvents(), 7, 1, 20, 100, random);
    assert r.db.events[1].availableSeats == 0;
    assert 10 in AvailableSeatIds(r.db.seats, 1);
  }

  /** A code drawn from rb is not in use when every existing booking carries ra's code. */
  lemma SecondDrawUnused(db: Db, ra: seq<Byte>, rb: seq<Byte>)
    requires TwoDraws(ra, rb)
    requires forall b :: b in db.bookings ==> db.bookings[b].bookingCode == BookingCode(ra)
    ensures !Bookings.CodeInUse(db, BookingCode(rb))
  {
    BookingCodeInjective(ra, rb);
  }

  /**
   * Nothing stops one user from holding two active bookings for the same
   * event: the second booking succeeds and the database stays consistent.
   */
  lemma SameUserBooksTwice(ra: seq<Byte>, rb: seq<Byte>)
    requires TwoDraws(ra, rb)
    ensures var first := Bookings.Create(TwoSeats(), 7, 1, 10, 100, ra);
            var second := Bookings.Create(first.db, 7, 1, 11, 101, rb);
            && second.result.Ok?
            && Valid(second.db)
            && second.db.bookings[100] == Booking(7, 1, 10, Confirmed, BookingCode(ra))
            && second.db.bookings[101] == Booking(7, 1, 11, Confirmed, BookingCode(rb))
  {
    FirstOfTwoSeats(ra);
    var db1 := Bookings.Create(TwoSeats(), 7, 1, 10, 100, ra).db;
    assert Bookings.SeatIsAvailable(db1, 11);
    SecondDrawUnused(db1, ra, rb);
    CreateBookingPreservesValid(db1, 7, 1, 11, 101, rb);
  }

  /** The first booking of SameUserBooksTwice: seat 10 taken, seat 11 still free. */
  lemma FirstOfTwoSeats(ra: seq<Byte>)
    requires |ra| == RandomLength
    ensures var first := Bookings.Create(TwoSeats(), 7, 1, 10, 100, ra);
            && first.result.Ok?
            && Valid(first.db)
            && first.db.seats[11].status == Available
            && first.db.seats[11].eventId == 1
            && first.db.bookings == map[100 := Booking(7, 1, 10, Confirmed, BookingCode(ra))]
  {
    var db0 := TwoSeats();
    assert Bookings.SeatIsAvailable(db0, 10);
    TwoSeatsValid();
    CreateBookingPreservesValid(db0, 7, 1, 10, 100, ra);
  }

  /**
   * Lowering `totalSeats` leaves the counter and the seats alone, so the
   * counter can exceed the capacity while I1 still holds.
   */
  lemma UpdateCanLeaveCounterAboveCapacity()
    ensures var r := Events.Update(TwoSeats(), 1, Events.EventPatch(None, None, None, Some(1)));
            && r.result.Ok?
            && Valid(r.db)
            && r.db.events[1].availableSeats > r.db.events[1].totalSeats
  {
    TwoSeatsValid();
    UpdateEventPreservesValid(TwoSeats(), 1, Events.EventPatch(None, None, None, Some(1)));
  }

  // --------------------------------------------------- a single-seat event

  /** One event with a single seat 10, free. */
  function OneSeat(): Db
  {
    Db(map[1 := PublishedEvent("A", 1)], map[10 := Seat(1, "General", "1", "1", Available)], map[])
  }

  /**
   * User 7 books the only seat; user 8 is refused it; user 7 cancels; now
   * user 8 gets it. The counter goes 1, 0, 1, 0.
   */
  lemma SingleSeatScenario(ra: seq<Byte>, rb: seq<Byte>)
    requires TwoDraws(ra, rb)
    ensures var s1 := Bookings.Create(OneSeat(), 7, 1, 10, 100, ra);
            var s2 := Bookings.Create(s1.db, 8, 1, 10, 101, rb);
            var s3 := Bookings.Cancel(s2.db, 100, 7);
            var s4 := Bookings.Create(s3.db, 8, 1, 10, 101, rb);
            && s1.result.Ok? && s1.db.events[1].availableSeats == 0 && s1.db.seats[10].status == Booked
            && s2 == Step(s1.db, Err(BadRequest(Bookings.SeatNotAvailableMessage)))
            && s3.result.Ok? && s3.db.events[1].availableSeats == 1 && s3.db.seats[10].status == Available
            && s4.result.Ok? && s4.db.events[1].availableSeats == 0 && s4.result.value.userId == 8
  {
    var a := Booking(7, 1, 10, Confirmed, BookingCode(ra));
    var db1 := Db(map[1 := PublishedEvent("A", 1).(availableSeats := 0)],
                  map[10 := Seat(1, "General", "1", "1", Booked)],
                  map[100 := a]);
    assert Bookings.SeatIsAvailable(OneSeat(), 10);
    assert Bookings.Create(OneSeat(), 7, 1, 10, 100, ra) == Step(db1, Ok(a));
    assert !Bookings.SeatIsAvailable(db1, 10);
    var db3 := Db(map[1 := PublishedEvent("A", 1)],
                  map[10 := Seat(1, "General", "1", "1", Available)],
                  map[100 := a.(status := Cancelled)]);
    assert Bookings.Cancel(db1, 100, 7) == Step(db3, Ok(a.(status := Cancelled)));
    assert Bookings.SeatIsAvailable(db3, 10);
    SecondDrawUnused(db3, ra, rb);
  }
}
