/**
 * The booking controller (backend/controllers/bookingController.js): creating a
 * booking and cancelling one, each as one all-or-nothing transaction, and the
 * read-only queries over bookings.
 *
 * `createBooking` validates its input, then inside a transaction checks the
 * user, the ACTIVE flight, its free seats and the seat, inserts a CONFIRMED
 * booking at the flight's current price and takes one seat from the flight.
 * `cancelBooking` marks an owned, not yet cancelled booking CANCELLED and gives
 * the seat back. Both keep `Consistent`: at most one CONFIRMED booking per
 * (flight, seat) and `availableSeats + #CONFIRMED == totalSeats` per flight.
 */
module Bookings {

  import opened Wrappers
  import opened Schema
  import opened Store
  import Validation

  /** A booking joined with the columns of its flight that the queries select. */
  datatype BookingDetail = BookingDetail(
    bookingId: int, userId: int, flightId: int,
    flightNumber: string, airlineName: string, departureCity: string, arrivalCity: string,
    departureTime: int, arrivalTime: int,
    seatNumber: string, status: BookingStatus, totalPrice: real, bookingDate: nat)

  function Join(b: Booking, f: Flight): BookingDetail {
    BookingDetail(b.id, b.userId, b.flightId,
      f.flightNumber, f.airlineName, f.departureCity, f.arrivalCity, f.departureTime, f.arrivalTime,
      b.seatNumber, b.status, b.totalPrice, b.bookingDate)
  }

  /** `bookings b JOIN flights f ON b.flight_id = f.flight_id` for one booking row. */
  function Joined(b: Booking, fs: seq<Flight>): Option<BookingDetail> {
    match FlightIndex(fs, b.flightId)
    case None => None
    case Some(k) => Some(Join(b, fs[k]))
  }

  // ===========================================================================
  // getBookingById
  // ===========================================================================

  /** First booking with this id and owner that joins to a flight. */
  function JoinedOwnedIndex(bs: seq<Booking>, fs: seq<Flight>, bookingId: int, userId: int): (r: Option<nat>)
    ensures r.Some? ==> r.value < |bs| && bs[r.value].id == bookingId && bs[r.value].userId == userId &&
                        HasFlight(fs, bs[r.value].flightId)
    ensures r.Some? ==> forall j :: 0 <= j < r.value ==>
                        !(bs[j].id == bookingId && bs[j].userId == userId && HasFlight(fs, bs[j].flightId))
    ensures r.None? ==> forall j :: 0 <= j < |bs| ==>
                        !(bs[j].id == bookingId && bs[j].userId == userId && HasFlight(fs, bs[j].flightId))
  {
    if bs == [] then None
    else if bs[0].id == bookingId && bs[0].userId == userId && HasFlight(fs, bs[0].flightId) then Some(0)
    else match JoinedOwnedIndex(bs[1..], fs, bookingId, userId)
      case None => None
      case Some(k) => Some(k + 1)
  }

  /**
   * A row comes back only when a booking has both the id and the owner (and a
   * flight to join); otherwise 'Booking not found'.
   */
  function GetBookingById(t: Tables, bookingId: int, userId: int): (r: Result<BookingDetail, Error>)
    ensures r.Ok? ==> r.value.bookingId == bookingId && r.value.userId == userId
    ensures r.Ok? ==> exists i :: 0 <= i < |t.bookings| && Joined(t.bookings[i], t.flights) == Some(r.value)
    ensures r.Err? ==> r.error == BookingNotFound
    ensures r.Err? <==> forall i :: 0 <= i < |t.bookings| ==>
      !(t.bookings[i].id == bookingId && t.bookings[i].userId == userId && HasFlight(t.flights, t.bookings[i].flightId))
  {
    match JoinedOwnedIndex(t.bookings, t.flights, bookingId, userId)
    case None => Err(BookingNotFound)
    case Some(i) =>
      var b := t.bookings[i];
      assert Joined(b, t.flights).Some?;
      Ok(Joined(b, t.flights).value)
  }

  /** In a consistent state every booking is found by its id and its owner. */
  lemma GetBookingByIdFinds(t: Tables, i: int)
    requires Consistent(t) && 0 <= i < |t.bookings|
    ensures Joined(t.bookings[i], t.flights).Some?
    ensures GetBookingById(t, t.bookings[i].id, t.bookings[i].userId) == Ok(Joined(t.bookings[i], t.flights).value)
  {
    var b := t.bookings[i];
    var k := JoinedOwnedIndex(t.bookings, t.flights, b.id, b.userId);
    assert HasFlight(t.flights, b.flightId);
    assert k.Some?;
  }

  // ===========================================================================
  // getUserBookings
  // ===========================================================================

  /** The user's bookings joined with their flights, walking from the newest row back. */
  function NewestFirst(bs: seq<Booking>, fs: seq<Flight>, userId: int): (r: seq<BookingDetail>)
    ensures |r| <= |bs|
  {
    if bs == [] then []
    else
      var b := bs[|bs| - 1];
      (if b.userId == userId && Joined(b, fs).Some? then [Joined(b, fs).value] else [])
      + NewestFirst(bs[..|bs| - 1], fs, userId)
  }

  function GetUserBookings(t: Tables, userId: int): seq<BookingDetail> {
    NewestFirst(t.bookings, t.flights, userId)
  }

  /** getUserBookings returns exactly the user's bookings (that join to a flight). */
  lemma {:induction false} NewestFirstMembers(bs: seq<Booking>, fs: seq<Flight>, userId: int, d: BookingDetail)
    ensures d in NewestFirst(bs, fs, userId) <==>
      exists i :: 0 <= i < |bs| && bs[i].userId == userId && Joined(bs[i], fs) == Some(d)
  {
    if bs != [] {
      var p := bs[..|bs| - 1];
      NewestFirstMembers(p, fs, userId, d);
      if exists i :: 0 <= i < |bs| && bs[i].userId == userId && Joined(bs[i], fs) == Some(d) {
        var i :| 0 <= i < |bs| && bs[i].userId == userId && Joined(bs[i], fs) == Some(d);
        if i < |p| { assert p[i] == bs[i]; }
      }
      if d in NewestFirst(p, fs, userId) {
        var i :| 0 <= i < |p| && p[i].userId == userId && Joined(p[i], fs) == Some(d);
        assert bs[i] == p[i];
      }
    }
  }

  lemma UserBookingsExactly(t: Tables, userId: int, d: BookingDetail)
    ensures d in GetUserBookings(t, userId) <==>
      exists i :: 0 <= i < |t.bookings| && t.bookings[i].userId == userId && Joined(t.bookings[i], t.flights) == Some(d)
  {
    NewestFirstMembers(t.bookings, t.flights, userId, d);
  }

  /** Rows ordered by booking date, ascending, come back newest first. */
  lemma {:induction false} NewestFirstOrdered(bs: seq<Booking>, fs: seq<Flight>, userId: int)
    requires forall i, j :: 0 <= i < j < |bs| ==> bs[i].bookingDate < bs[j].bookingDate
    ensures var r := NewestFirst(bs, fs, userId);
      forall i, j :: 0 <= i < j < |r| ==> r[i].bookingDate > r[j].bookingDate
  {
    if bs != [] {
      var p := bs[..|bs| - 1];
      var last := bs[|bs| - 1];
      NewestFirstOrdered(p, fs, userId);
      var rest := NewestFirst(p, fs, userId);
      forall j | 0 <= j < |rest| ensures rest[j].bookingDate < last.bookingDate {
        NewestFirstMembers(p, fs, userId, rest[j]);
        var i :| 0 <= i < |p| && p[i].userId == userId && Joined(p[i], fs) == Some(rest[j]);
        assert p[i] == bs[i];
      }
    }
  }

  /** getUserBookings lists a consistent state's bookings by booking date, newest first. */
  lemma UserBookingsNewestFirst(t: Tables, userId: int)
    requires Consistent(t)
    ensures var r := GetUserBookings(t, userId);
      forall i, j :: 0 <= i < j < |r| ==> r[i].bookingDate > r[j].bookingDate
  {
    assert BookingsWellFormed(t);
    assert forall i, j :: 0 <= i < j < |t.bookings| ==> t.bookings[i].bookingDate < t.bookings[j].bookingDate;
    NewestFirstOrdered(t.bookings, t.flights, userId);
    assert GetUserBookings(t, userId) == NewestFirst(t.bookings, t.flights, userId);
  }

  // ===========================================================================
  // getFlightBookingStats
  // ===========================================================================

  datatype Stats = Stats(total: nat, confirmed: nat, cancelled: nat, pending: nat)

  /** Number of the flight's bookings, counted from the front. */
  function CountFlight(bs: seq<Booking>, flightId: int): nat {
    if bs == [] then 0 else (if bs[0].flightId == flightId then 1 else 0) + CountFlight(bs[1..], flightId)
  }

  /** Number of the flight's bookings in status `st`, counted from the front. */
  function CountStatus(bs: seq<Booking>, flightId: int, st: BookingStatus): nat {
    if bs == [] then 0
    else (if bs[0].flightId == flightId && bs[0].status == st then 1 else 0) + CountStatus(bs[1..], flightId, st)
  }

  lemma {:induction false} CountAppend(bs: seq<Booking>, b: Booking, flightId: int, st: BookingStatus)
    ensures CountFlight(bs + [b], flightId) == CountFlight(bs, flightId) + (if b.flightId == flightId then 1 else 0)
    ensures CountStatus(bs + [b], flightId, st) ==
            CountStatus(bs, flightId, st) + (if b.flightId == flightId && b.status == st then 1 else 0)
  {
    if bs != [] {
      assert (bs + [b])[1..] == bs[1..] + [b];
      CountAppend(bs[1..], b, flightId, st);
    }
  }

  /** COUNT(*) and per-status SUMs over the flight's bookings; zeros when there are none. */
  function FlightBookingStats(bs: seq<Booking>, flightId: int): (r: Stats)
    ensures r.total == CountFlight(bs, flightId)
    ensures r.confirmed == CountStatus(bs, flightId, Confirmed)
    ensures r.cancelled == CountStatus(bs, flightId, BookingStatus.Cancelled)
    ensures r.pending == CountStatus(bs, flightId, Pending)
    ensures r.total == r.confirmed + r.cancelled + r.pending
    ensures r.confirmed == ConfirmedOn(bs, flightId)
    ensures r.total == 0 <==> forall i :: 0 <= i < |bs| ==> bs[i].flightId != flightId
  {
    if bs == [] then Stats(0, 0, 0, 0)
    else
      var r := FlightBookingStats(bs[..|bs| - 1], flightId);
      var b := bs[|bs| - 1];
      assert bs == bs[..|bs| - 1] + [b];
      CountAppend(bs[..|bs| - 1], b, flightId, Confirmed);
      CountAppend(bs[..|bs| - 1], b, flightId, BookingStatus.Cancelled);
      CountAppend(bs[..|bs| - 1], b, flightId, Pending);
      assert forall i :: 0 <= i < |bs| - 1 ==> bs[..|bs| - 1][i] == bs[i];
      if b.flightId != flightId then r
      else match b.status
        case Confirmed => r.(total := r.total + 1, confirmed := r.confirmed + 1)
        case Cancelled => r.(total := r.total + 1, cancelled := r.cancelled + 1)
        case Pending => r.(total := r.total + 1, pending := r.pending + 1)
  }

  /** For a flight in a consistent state the statistics agree with its seat counters. */
  lemma StatsMatchSeats(t: Tables, k: int)
    requires Consistent(t) && 0 <= k < |t.flights|
    ensures var s := FlightBookingStats(t.bookings, t.flights[k].id);
      s.confirmed == t.flights[k].totalSeats - t.flights[k].availableSeats
  {
  }

  // ===========================================================================
  // createBooking
  // ===========================================================================

  /** `SELECT ... FROM flights WHERE flight_id = :flightId AND status = 'ACTIVE'` */
  function ActiveFlightIndex(fs: seq<Flight>, id: int): (r: Option<nat>)
    ensures r.Some? ==> r.value < |fs| && fs[r.value].id == id && fs[r.value].status == Active
    ensures r.None? ==> forall j :: 0 <= j < |fs| ==> !(fs[j].id == id && fs[j].status == Active)
  {
    if fs == [] then None
    else if fs[0].id == id && fs[0].status == Active then Some(0)
    else match ActiveFlightIndex(fs[1..], id)
      case None => None
      case Some(k) => Some(k + 1)
  }

  /** A CONFIRMED booking already holds this seat of this flight. */
  predicate SeatTaken(bs: seq<Booking>, flightId: int, seat: string) {
    exists i :: 0 <= i < |bs| && Holds(bs[i], flightId) && bs[i].seatNumber == seat
  }

  /**
   * The checks of createBooking in the order the source runs them; the first
   * one that fails decides the error. The first two run before any
   * transaction opens. `0` and `""` are JavaScript's falsy values here.
   */
  function BookingRejection(t: Tables, userId: int, flightId: int, seat: string): Option<Error> {
    if userId == 0 || flightId == 0 || seat == "" then Some(BookingFieldsRequired)
    else if !Validation.IsSeatNumber(seat) then Some(InvalidSeatNumberFormat)
    else if UserIndex(t.users, userId).None? then Some(BookingUserNotFound)
    else match ActiveFlightIndex(t.flights, flightId)
      case None => Some(FlightNotFoundOrInactive)
      case Some(k) =>
        if t.flights[k].availableSeats <= 0 then Some(NoSeatsAvailable)
        else if SeatTaken(t.bookings, flightId, seat) then Some(SeatAlreadyBooked)
        else None
  }

  /** The row the INSERT writes: CONFIRMED, priced at the flight's current price. */
  function NewBooking(t: Tables, userId: int, flightId: int, seat: string, price: real): Booking {
    Booking(t.nextBookingId, userId, flightId, seat, Confirmed, price, t.clock)
  }

  /** The committed effect of a booking: the INSERT and the seat decrement together. */
  function CommitBooking(t: Tables, userId: int, flightId: int, seat: string): Tables
    requires BookingRejection(t, userId, flightId, seat).None?
  {
    var k := ActiveFlightIndex(t.flights, flightId).value;
    t.(bookings := t.bookings + [NewBooking(t, userId, flightId, seat, t.flights[k].price)],
       flights := AdjustSeats(t.flights, flightId, -1),
       nextBookingId := t.nextBookingId + 1,
       clock := t.clock + 1)
  }

  /** A booking the re-read after the INSERT would select: CONFIRMED, for this user, flight and seat. */
  predicate ReReadMatch(b: Booking, userId: int, flightId: int, seat: string)
  {
    b.userId == userId && Holds(b, flightId) && b.seatNumber == seat
  }

  /**
   * The re-read after the INSERT: the newest CONFIRMED booking matching
   * (user, flight, seat), i.e. `ORDER BY booking_date DESC` and `ROWNUM = 1`.
   */
  function LatestConfirmed(bs: seq<Booking>, userId: int, flightId: int, seat: string): (r: Option<int>)
    ensures r.None? <==> forall i :: 0 <= i < |bs| ==> !ReReadMatch(bs[i], userId, flightId, seat)
    ensures r.Some? ==> exists i :: 0 <= i < |bs| && bs[i].id == r.value && ReReadMatch(bs[i], userId, flightId, seat) &&
                                   forall j :: i < j < |bs| ==> !ReReadMatch(bs[j], userId, flightId, seat)
  {
    if bs == [] then None
    else
      var b := bs[|bs| - 1];
      if ReReadMatch(b, userId, flightId, seat) then Some(b.id)
      else
        var p := bs[..|bs| - 1];
        var r := LatestConfirmed(p, userId, flightId, seat);
        assert forall i :: 0 <= i < |p| ==> p[i] == bs[i];
        r
  }

  lemma RejectionReasons(t: Tables, userId: int, flightId: int, seat: string)
    requires userId != 0 && flightId != 0 && Validation.IsSeatNumber(seat)
    ensures BookingRejection(t, userId, flightId, seat) == Some(BookingUserNotFound) <==> !HasUser(t.users, userId)
    ensures BookingRejection(t, userId, flightId, seat) == Some(FlightNotFoundOrInactive) <==>
      HasUser(t.users, userId) && forall j :: 0 <= j < |t.flights| ==> !(t.flights[j].id == flightId && t.flights[j].status == Active)
    ensures BookingRejection(t, userId, flightId, seat) == None ==>
      HasUser(t.users, userId) && !SeatTaken(t.bookings, flightId, seat) &&
      exists j :: 0 <= j < |t.flights| && t.flights[j].id == flightId && t.flights[j].status == Active &&
                  t.flights[j].availableSeats > 0
  {
    if HasUser(t.users, userId) {
      var k :| 0 <= k < |t.users| && t.users[k].id == userId;
      assert UserIndex(t.users, userId).Some?;
    }
    if UserIndex(t.users, userId).Some? {
      var k := UserIndex(t.users, userId).value;
      assert t.users[k].id == userId;
    }
    if ActiveFlightIndex(t.flights, flightId).Some? {
      var k := ActiveFlightIndex(t.flights, flightId).value;
      assert t.flights[k].id == flightId && t.flights[k].status == Active;
    }
  }

  /**
   * With flight ids unique, the last two checks and acceptance are exact: a
   * request from a known user for an ACTIVE flight is refused for seats iff
   * the flight is full, for the seat iff it is taken, and accepted otherwise.
   */
  lemma SeatRejectionReasons(t: Tables, userId: int, flightId: int, seat: string)
    requires FlightsWellFormed(t)
    requires userId != 0 && flightId != 0 && Validation.IsSeatNumber(seat)
    ensures BookingRejection(t, userId, flightId, seat) == Some(NoSeatsAvailable) <==>
      HasUser(t.users, userId) &&
      exists j :: 0 <= j < |t.flights| && t.flights[j].id == flightId && t.flights[j].status == Active &&
                  t.flights[j].availableSeats <= 0
    ensures BookingRejection(t, userId, flightId, seat) == Some(SeatAlreadyBooked) <==>
      HasUser(t.users, userId) && SeatTaken(t.bookings, flightId, seat) &&
      exists j :: 0 <= j < |t.flights| && t.flights[j].id == flightId && t.flights[j].status == Active &&
                  t.flights[j].availableSeats > 0
    ensures BookingRejection(t, userId, flightId, seat).None? <==>
      HasUser(t.users, userId) && !SeatTaken(t.bookings, flightId, seat) &&
      exists j :: 0 <= j < |t.flights| && t.flights[j].id == flightId && t.flights[j].status == Active &&
                  t.flights[j].availableSeats > 0
  {
    RejectionReasons(t, userId, flightId, seat);
    if exists j :: 0 <= j < |t.flights| && t.flights[j].id == flightId && t.flights[j].status == Active {
      var j :| 0 <= j < |t.flights| && t.flights[j].id == flightId && t.flights[j].status == Active;
      ActiveFlightIndexOf(t.flights, j);
    }
  }

  /** Ids ascend, so the ACTIVE flight found for an id is the only row with it. */
  lemma ActiveFlightIndexOf(fs: seq<Flight>, j: int)
    requires forall i, k :: 0 <= i < k < |fs| ==> fs[i].id < fs[k].id
    requires 0 <= j < |fs| && fs[j].status == Active
    ensures ActiveFlightIndex(fs, fs[j].id) == Some(j)
  {
    var k := ActiveFlightIndex(fs, fs[j].id).value;
    assert fs[k].id == fs[j].id;
  }

  /** A committed booking keeps both seat invariants and the rest of `Consistent`. */
  lemma BookingPreservesConsistency(t: Tables, userId: int, flightId: int, seat: string)
    requires Consistent(t) && BookingRejection(t, userId, flightId, seat).None?
    ensures Consistent(CommitBooking(t, userId, flightId, seat))
  {
    BookingKeepsFlightsAndBookings(t, userId, flightId, seat);
    BookingKeepsSeatsUnique(t, userId, flightId, seat);
    BookingKeepsSeatsAccounted(t, userId, flightId, seat);
  }

  lemma BookingKeepsFlightsAndBookings(t: Tables, userId: int, flightId: int, seat: string)
    requires Consistent(t) && BookingRejection(t, userId, flightId, seat).None?
    ensures var t' := CommitBooking(t, userId, flightId, seat);
      UsersWellFormed(t') && FlightsWellFormed(t') && BookingsWellFormed(t')
  {
    var k := ActiveFlightIndex(t.flights, flightId).value;
    var t' := CommitBooking(t, userId, flightId, seat);
    AdjustSeatsKeepsKeys(t.flights, flightId, -1);
    SameFlightKeysWellFormed(t, t');
    var u := UserIndex(t.users, userId).value;
    assert t.users[u].id == userId;
    assert t.flights[k].id == flightId;
    AppendBookingWellFormed(t, t', NewBooking(t, userId, flightId, seat, t.flights[k].price));
  }

  lemma BookingKeepsSeatsUnique(t: Tables, userId: int, flightId: int, seat: string)
    requires Consistent(t) && BookingRejection(t, userId, flightId, seat).None?
    ensures SeatsUnique(CommitBooking(t, userId, flightId, seat).bookings)
  {
    var bs' := CommitBooking(t, userId, flightId, seat).bookings;
    var n := |t.bookings|;
    assert !SeatTaken(t.bookings, flightId, seat);
    forall i, j | 0 <= i < j < |bs'| && bs'[i].status == Confirmed &&
                  bs'[j].status == Confirmed && bs'[i].flightId == bs'[j].flightId
      ensures bs'[i].seatNumber != bs'[j].seatNumber
    {
      assert bs'[i] == t.bookings[i];
      if j == n {
        assert !(Holds(t.bookings[i], flightId) && t.bookings[i].seatNumber == seat);
      } else {
        assert bs'[j] == t.bookings[j];
      }
    }
  }

  lemma BookingKeepsSeatsAccounted(t: Tables, userId: int, flightId: int, seat: string)
    requires FlightsWellFormed(t) && SeatsAccounted(t) && BookingRejection(t, userId, flightId, seat).None?
    ensures SeatsAccounted(CommitBooking(t, userId, flightId, seat))
  {
    var k := ActiveFlightIndex(t.flights, flightId).value;
    var nb := NewBooking(t, userId, flightId, seat, t.flights[k].price);
    var t' := CommitBooking(t, userId, flightId, seat);
    assert t'.bookings == t.bookings + [nb];
    AdjustSeatsAt(t.flights, k, -1);
    forall i | 0 <= i < |t'.flights|
      ensures 0 <= t'.flights[i].availableSeats &&
              t'.flights[i].availableSeats + ConfirmedOn(t'.bookings, t'.flights[i].id) == t'.flights[i].totalSeats
    {
      ConfirmedOnAppend(t.bookings, nb, t.flights[i].id);
      if i < k {
        assert t.flights[i].id < t.flights[k].id;
      } else if k < i {
        assert t.flights[k].id < t.flights[i].id;
      }
    }
  }

  /**
   * A successful booking adds exactly one row, CONFIRMED at the flight's price,
   * takes exactly one seat from that flight and changes no other row.
   */
  lemma BookingEffect(t: Tables, userId: int, flightId: int, seat: string)
    requires FlightsWellFormed(t) && BookingRejection(t, userId, flightId, seat).None?
    ensures var t' := CommitBooking(t, userId, flightId, seat);
      && t'.users == t.users
      && |t'.bookings| == |t.bookings| + 1
      && t'.bookings[..|t.bookings|] == t.bookings
      && (exists k :: 0 <= k < |t.flights| && t.flights[k].id == flightId && t.flights[k].status == Active &&
            t'.bookings[|t.bookings|] ==
              Booking(t.nextBookingId, userId, flightId, seat, Confirmed, t.flights[k].price, t.clock) &&
            t'.flights == t.flights[k := t.flights[k].(availableSeats := t.flights[k].availableSeats - 1)])
  {
    var k := ActiveFlightIndex(t.flights, flightId).value;
    var t' := CommitBooking(t, userId, flightId, seat);
    var b := Booking(t.nextBookingId, userId, flightId, seat, Confirmed, t.flights[k].price, t.clock);
    assert t'.bookings == t.bookings + [b];
    assert t'.bookings[..|t.bookings|] == t.bookings;
    AdjustSeatsAt(t.flights, k, -1);
  }

  /**
   * After the INSERT the new row is the only CONFIRMED booking matching
   * (user, flight, seat), so the re-read returns its id.
   */
  lemma ReReadFindsNewBooking(t: Tables, userId: int, flightId: int, seat: string)
    requires Consistent(t) && BookingRejection(t, userId, flightId, seat).None?
    ensures var bs := CommitBooking(t, userId, flightId, seat).bookings;
      forall i :: 0 <= i < |bs| && bs[i].userId == userId && Holds(bs[i], flightId) && bs[i].seatNumber == seat
        ==> i == |bs| - 1
    ensures LatestConfirmed(CommitBooking(t, userId, flightId, seat).bookings, userId, flightId, seat)
            == Some(t.nextBookingId)
  {
    var bs := CommitBooking(t, userId, flightId, seat).bookings;
    forall i | 0 <= i < |bs| && bs[i].userId == userId && Holds(bs[i], flightId) && bs[i].seatNumber == seat
      ensures i == |bs| - 1
    {
      if i < |t.bookings| {
        assert bs[i] == t.bookings[i];
        assert SeatTaken(t.bookings, flightId, seat);
      }
    }
  }

  /** Once a booking for a seat commits, every later request for that seat fails. */
  lemma SeatCannotBeBookedTwice(t: Tables, userId: int, flightId: int, seat: string, otherUser: int)
    requires Consistent(t) && BookingRejection(t, userId, flightId, seat).None?
    ensures BookingRejection(CommitBooking(t, userId, flightId, seat), otherUser, flightId, seat).Some?
  {
    var t' := CommitBooking(t, userId, flightId, seat);
    assert Holds(t'.bookings[|t.bookings|], flightId) && t'.bookings[|t.bookings|].seatNumber == seat;
    assert SeatTaken(t'.bookings, flightId, seat);
  }

  /**
   * When a request takes a flight's last seat, any later request on that flight
   * from a known user with a valid seat fails with 'No seats available',
   * whatever seat it asks for: the seat count is checked before the seat.
   */
  lemma LastSeatGoesOnce(t: Tables, userId: int, flightId: int, seat: string, otherUser: int, otherSeat: string)
    requires Consistent(t) && BookingRejection(t, userId, flightId, seat).None?
    requires forall j :: 0 <= j < |t.flights| && t.flights[j].id == flightId ==> t.flights[j].availableSeats == 1
    requires otherUser != 0 && Validation.IsSeatNumber(otherSeat) && HasUser(t.users, otherUser)
    ensures BookingRejection(CommitBooking(t, userId, flightId, seat), otherUser, flightId, otherSeat)
            == Some(NoSeatsAvailable)
  {
    var t' := CommitBooking(t, userId, flightId, seat);
    var k := ActiveFlightIndex(t.flights, flightId).value;
    BookingEffect(t, userId, flightId, seat);
    var u :| 0 <= u < |t.users| && t.users[u].id == otherUser;
    assert UserIndex(t'.users, otherUser).Some?;
    assert ActiveFlightIndex(t'.flights, flightId).Some? by {
      assert t'.flights[k].id == flightId && t'.flights[k].status == Active;
    }
    var k' := ActiveFlightIndex(t'.flights, flightId).value;
    FlightIndexOf(t.flights, k);
    FlightIndexOf(t.flights, k');
  }

  /** createBooking after a successful commit reads the new booking back. */
  lemma CommittedBookingVisible(t: Tables, userId: int, flightId: int, seat: string)
    requires Consistent(t) && BookingRejection(t, userId, flightId, seat).None?
    ensures var t' := CommitBooking(t, userId, flightId, seat);
      && Joined(t'.bookings[|t.bookings|], t'.flights).Some?
      && GetBookingById(t', t.nextBookingId, userId) == Ok(Joined(t'.bookings[|t.bookings|], t'.flights).value)
  {
    BookingPreservesConsistency(t, userId, flightId, seat);
    var t' := CommitBooking(t, userId, flightId, seat);
    GetBookingByIdFinds(t', |t.bookings|);
  }

  /**
   * The unit of work createBooking hands to executeTransaction: the checks,
   * the INSERT, the re-read of the new id and the seat decrement. On failure
   * it promises nothing about the tables; the transaction rolls them back.
   */
  method BookSeat(db: Database, userId: int, flightId: int, seat: string) returns (r: Result<int, Error>)
    requires db.Valid()
    requires userId != 0 && flightId != 0 && seat != "" && Validation.IsSeatNumber(seat)
    modifies db
    ensures r.Err? ==> BookingRejection(old(db.State()), userId, flightId, seat) == Some(r.error)
    ensures r.Err? ==> db.nextUserId == old(db.nextUserId) && db.nextFlightId == old(db.nextFlightId) &&
                       db.nextBookingId == old(db.nextBookingId) && db.clock == old(db.clock)
    ensures r.Ok? ==> BookingRejection(old(db.State()), userId, flightId, seat).None?
    ensures r.Ok? ==> db.State() == CommitBooking(old(db.State()), userId, flightId, seat)
    ensures r.Ok? ==> r.value == old(db.nextBookingId)
  {
    if UserIndex(db.users, userId).None? {
      return Err(BookingUserNotFound);
    }
    var k := ActiveFlightIndex(db.flights, flightId);
    if k.None? {
      return Err(FlightNotFoundOrInactive);
    }
    var flight := db.flights[k.value];
    if flight.availableSeats <= 0 {
      return Err(NoSeatsAvailable);
    }
    if SeatTaken(db.bookings, flightId, seat) {
      return Err(SeatAlreadyBooked);
    }
    var before := db.State();
    db.bookings := db.bookings + [NewBooking(before, userId, flightId, seat, flight.price)];
    db.nextBookingId := db.nextBookingId + 1;
    db.clock := db.clock + 1;
    var bookingId := LatestConfirmed(db.bookings, userId, flightId, seat);
    ReReadFindsNewBooking(before, userId, flightId, seat);
    db.flights := AdjustSeats(db.flights, flightId, -1);
    return Ok(bookingId.value);
  }

  /**
   * createBooking: validation first, then the transaction; on any failure the
   * tables are exactly as before, on success exactly `CommitBooking`, and the
   * booking is read back with its flight.
   */
  method CreateBooking(db: Database, userId: int, flightId: int, seat: string)
    returns (r: Result<BookingDetail, Error>)
    requires db.Valid()
    modifies db
    ensures db.Valid()
    ensures r.Err? <==> BookingRejection(old(db.State()), userId, flightId, seat).Some?
    ensures r.Err? ==> BookingRejection(old(db.State()), userId, flightId, seat) == Some(r.error)
    ensures r.Err? ==> db.State() == old(db.State())
    ensures r.Ok? ==> db.State() == CommitBooking(old(db.State()), userId, flightId, seat)
    ensures r.Ok? ==> r.value.bookingId == old(db.nextBookingId) && r.value.userId == userId &&
                      r.value.flightId == flightId && r.value.seatNumber == seat && r.value.status == Confirmed
  {
    if userId == 0 || flightId == 0 || seat == "" {
      return Err(BookingFieldsRequired);
    }
    if !Validation.IsSeatNumber(seat) {
      return Err(InvalidSeatNumberFormat);
    }
    var saved := db.State();
    var work := BookSeat(db, userId, flightId, seat);
    if work.Err? {
      db.Rollback(saved);
      return Err(work.error);
    }
    BookingPreservesConsistency(saved, userId, flightId, seat);
    CommittedBookingVisible(saved, userId, flightId, seat);
    r := GetBookingById(db.State(), work.value, userId);
  }

  // ===========================================================================
  // cancelBooking
  // ===========================================================================

  /** `SELECT ... FROM bookings WHERE booking_id = :bookingId AND user_id = :userId` */
  function OwnedIndex(bs: seq<Booking>, bookingId: int, userId: int): (r: Option<nat>)
    ensures r.Some? ==> r.value < |bs| && bs[r.value].id == bookingId && bs[r.value].userId == userId
    ensures r.Some? ==> forall j :: 0 <= j < r.value ==> !(bs[j].id == bookingId && bs[j].userId == userId)
    ensures r.None? ==> forall j :: 0 <= j < |bs| ==> !(bs[j].id == bookingId && bs[j].userId == userId)
  {
    if bs == [] then None
    else if bs[0].id == bookingId && bs[0].userId == userId then Some(0)
    else match OwnedIndex(bs[1..], bookingId, userId)
      case None => None
      case Some(k) => Some(k + 1)
  }

  /** `UPDATE bookings SET booking_status = 'CANCELLED' WHERE booking_id = :bookingId` */
  function SetCancelled(bs: seq<Booking>, bookingId: int): (r: seq<Booking>)
    ensures |r| == |bs|
    ensures forall i :: 0 <= i < |bs| ==>
      r[i] == if bs[i].id == bookingId then bs[i].(status := BookingStatus.Cancelled) else bs[i]
  {
    seq(|bs|, i requires 0 <= i < |bs| =>
      if bs[i].id == bookingId then bs[i].(status := BookingStatus.Cancelled) else bs[i])
  }

  /** The checks of cancelBooking, in order. */
  function CancelRejection(t: Tables, bookingId: int, userId: int): Option<Error> {
    match OwnedIndex(t.bookings, bookingId, userId)
    case None => Some(BookingNotFound)
    case Some(i) => if t.bookings[i].status == BookingStatus.Cancelled then Some(BookingAlreadyCancelled) else None
  }

  /** The committed effect of a cancellation: the status change and the seat given back. */
  function CommitCancel(t: Tables, bookingId: int, userId: int): Tables
    requires CancelRejection(t, bookingId, userId).None?
  {
    var i := OwnedIndex(t.bookings, bookingId, userId).value;
    t.(bookings := SetCancelled(t.bookings, bookingId),
       flights := AdjustSeats(t.flights, t.bookings[i].flightId, 1))
  }

  /** With unique ids the UPDATE touches exactly the owned row. */
  lemma CancelTouchesOneRow(t: Tables, bookingId: int, userId: int)
    requires Consistent(t) && CancelRejection(t, bookingId, userId).None?
    ensures var i := OwnedIndex(t.bookings, bookingId, userId).value;
      && t.bookings[i].status == Confirmed
      && SetCancelled(t.bookings, bookingId) == t.bookings[i := t.bookings[i].(status := BookingStatus.Cancelled)]
  {
    var i := OwnedIndex(t.bookings, bookingId, userId).value;
    forall j | 0 <= j < |t.bookings| && j != i ensures t.bookings[j].id != bookingId {
      if j < i { assert t.bookings[j].id < t.bookings[i].id; }
      if i < j { assert t.bookings[i].id < t.bookings[j].id; }
    }
    assert SetCancelled(t.bookings, bookingId) == t.bookings[i := t.bookings[i].(status := BookingStatus.Cancelled)];
  }

  /** A committed cancellation keeps both seat invariants and the rest of `Consistent`. */
  lemma CancelPreservesConsistency(t: Tables, bookingId: int, userId: int)
    requires Consistent(t) && CancelRejection(t, bookingId, userId).None?
    ensures Consistent(CommitCancel(t, bookingId, userId))
  {
    CancelKeepsFlightsAndBookings(t, bookingId, userId);
    CancelKeepsSeatsUnique(t, bookingId, userId);
    CancelKeepsSeatsAccounted(t, bookingId, userId);
  }

  lemma CancelKeepsFlightsAndBookings(t: Tables, bookingId: int, userId: int)
    requires Consistent(t) && CancelRejection(t, bookingId, userId).None?
    ensures var t' := CommitCancel(t, bookingId, userId);
      UsersWellFormed(t') && FlightsWellFormed(t') && BookingsWellFormed(t')
  {
    var i := OwnedIndex(t.bookings, bookingId, userId).value;
    var t' := CommitCancel(t, bookingId, userId);
    AdjustSeatsKeepsKeys(t.flights, t.bookings[i].flightId, 1);
    SameFlightKeysWellFormed(t, t');
    assert SameBookingKeys(t.bookings, t'.bookings);
    SameKeysBookingsWellFormed(t, t');
  }

  lemma CancelKeepsSeatsUnique(t: Tables, bookingId: int, userId: int)
    requires Consistent(t) && CancelRejection(t, bookingId, userId).None?
    ensures SeatsUnique(CommitCancel(t, bookingId, userId).bookings)
  {
    var bs' := CommitCancel(t, bookingId, userId).bookings;
    forall p, q | 0 <= p < q < |bs'| && bs'[p].status == Confirmed &&
                  bs'[q].status == Confirmed && bs'[p].flightId == bs'[q].flightId
      ensures bs'[p].seatNumber != bs'[q].seatNumber
    {
      assert bs'[p] == t.bookings[p] && bs'[q] == t.bookings[q];
    }
  }

  lemma CancelKeepsSeatsAccounted(t: Tables, bookingId: int, userId: int)
    requires Consistent(t) && CancelRejection(t, bookingId, userId).None?
    ensures SeatsAccounted(CommitCancel(t, bookingId, userId))
  {
    var i := OwnedIndex(t.bookings, bookingId, userId).value;
    CancelTouchesOneRow(t, bookingId, userId);
    var t' := CommitCancel(t, bookingId, userId);
    var b' := t.bookings[i].(status := BookingStatus.Cancelled);
    assert t'.bookings == t.bookings[i := b'];
    forall j | 0 <= j < |t'.flights|
      ensures 0 <= t'.flights[j].availableSeats &&
              t'.flights[j].availableSeats + ConfirmedOn(t'.bookings, t'.flights[j].id) == t'.flights[j].totalSeats
    {
      ConfirmedOnUpdate(t.bookings, i, b', t.flights[j].id);
    }
  }

  /** Cancelling the same booking a second time fails with 'already cancelled'. */
  lemma CancelTwiceFails(t: Tables, bookingId: int, userId: int)
    requires Consistent(t) && CancelRejection(t, bookingId, userId).None?
    ensures CancelRejection(CommitCancel(t, bookingId, userId), bookingId, userId) == Some(BookingAlreadyCancelled)
  {
    var i := OwnedIndex(t.bookings, bookingId, userId).value;
    CancelTouchesOneRow(t, bookingId, userId);
    var bs' := CommitCancel(t, bookingId, userId).bookings;
    var i' := OwnedIndex(bs', bookingId, userId);
    assert bs'[i].id == bookingId && bs'[i].userId == userId;
    assert i'.Some? && i'.value == i by {
      assert forall j :: 0 <= j < i ==> bs'[j] == t.bookings[j];
    }
  }

  /**
   * Cancelling the booking a request just made gives its seat back: the flights
   * table is as it was before the booking, and the booking stays, CANCELLED,
   * with its price.
   */
  lemma CancelUndoesBooking(t: Tables, userId: int, flightId: int, seat: string)
    requires Consistent(t) && BookingRejection(t, userId, flightId, seat).None?
    ensures var t1 := CommitBooking(t, userId, flightId, seat);
      && CancelRejection(t1, t.nextBookingId, userId).None?
      && var t2 := CommitCancel(t1, t.nextBookingId, userId);
      && t2.flights == t.flights
      && t2.bookings == t1.bookings[|t.bookings| := t1.bookings[|t.bookings|].(status := BookingStatus.Cancelled)]
  {
    var t1 := CommitBooking(t, userId, flightId, seat);
    BookingPreservesConsistency(t, userId, flightId, seat);
    var n := |t.bookings|;
    assert t1.bookings[n].id == t.nextBookingId && t1.bookings[n].userId == userId;
    var i := OwnedIndex(t1.bookings, t.nextBookingId, userId);
    assert i.Some? && i.value == n by {
      assert forall j :: 0 <= j < n ==> t1.bookings[j].id == t.bookings[j].id < t.nextBookingId;
    }
    CancelTouchesOneRow(t1, t.nextBookingId, userId);
    AdjustSeatsInverse(t.flights, flightId, -1);
  }

  /**
   * The unit of work cancelBooking hands to executeTransaction. On failure it
   * promises nothing about the tables; the transaction rolls them back.
   */
  method CancelWork(db: Database, bookingId: int, userId: int) returns (r: Result<(), Error>)
    requires db.Valid()
    modifies db
    ensures r.Err? ==> CancelRejection(old(db.State()), bookingId, userId) == Some(r.error)
    ensures r.Err? ==> db.nextUserId == old(db.nextUserId) && db.nextFlightId == old(db.nextFlightId) &&
                       db.nextBookingId == old(db.nextBookingId) && db.clock == old(db.clock)
    ensures r.Ok? ==> CancelRejection(old(db.State()), bookingId, userId).None?
    ensures r.Ok? ==> db.State() == CommitCancel(old(db.State()), bookingId, userId)
  {
    var i := OwnedIndex(db.bookings, bookingId, userId);
    if i.None? {
      return Err(BookingNotFound);
    }
    var booking := db.bookings[i.value];
    if booking.status == BookingStatus.Cancelled {
      return Err(BookingAlreadyCancelled);
    }
    db.bookings := SetCancelled(db.bookings, bookingId);
    db.flights := AdjustSeats(db.flights, booking.flightId, 1);
    return Ok(());
  }

  /** cancelBooking: one transaction; any failure leaves the tables as they were. */
  method CancelBooking(db: Database, bookingId: int, userId: int) returns (r: Result<(), Error>)
    requires db.Valid()
    modifies db
    ensures db.Valid()
    ensures r.Err? <==> CancelRejection(old(db.State()), bookingId, userId).Some?
    ensures r.Err? ==> CancelRejection(old(db.State()), bookingId, userId) == Some(r.error)
    ensures r.Err? ==> db.State() == old(db.State())
    ensures r.Ok? ==> db.State() == CommitCancel(old(db.State()), bookingId, userId)
  {
    var saved := db.State();
    var work := CancelWork(db, bookingId, userId);
    if work.Err? {
      db.Rollback(saved);
      return Err(work.error);
    }
    CancelPreservesConsistency(saved, bookingId, userId);
    return Ok(());
  }
}
