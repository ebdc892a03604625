/**
 * The three tables of the booking database (`users`, `flights`, `bookings`) as
 * values, the errors the controllers throw, the row lookups the controllers'
 * SELECT statements perform, and the invariant every committed state keeps.
 *
 * Tables are sequences of rows in insertion order. Row ids come from identity
 * sequences (`nextUserId`, `nextFlightId`, `nextBookingId`), so they ascend
 * along each table; `clock` stands for SYSTIMESTAMP and gives every booking a
 * later `bookingDate` than the ones before it.
 */
module Schema {

  import opened Wrappers

  /** One constructor per message the controllers throw. */
  datatype Error =
    // bookingController.js
    | BookingFieldsRequired     // 'User ID, flight ID, and seat number are required'
    | InvalidSeatNumberFormat   // 'Invalid seat number format (e.g., A1, B12)'
    | BookingUserNotFound       // 'User ID <id> not found in database. Please log in again.'
    | FlightNotFoundOrInactive  // 'Flight not found or is not active'
    | NoSeatsAvailable          // 'No seats available on this flight'
    | SeatAlreadyBooked         // 'Seat already booked'
    | BookingNotFound           // 'Booking not found'
    | BookingAlreadyCancelled   // 'Booking is already cancelled'
    // flightController.js
    | FlightNotFound            // 'Flight not found'
    | CitiesRequired            // 'Departure and arrival cities are required'
    | FlightFieldsRequired      // 'All flight fields are required'
    | TotalSeatsNotPositive     // 'Total seats must be greater than 0'
    | PriceNotPositive          // 'Price must be greater than 0'
    | FlightNumberExists        // 'Flight number already exists'
    | InvalidFlightStatus       // 'Invalid flight status'
    | NoFieldsToUpdate          // 'No fields to update'
    // userController.js
    | RegistrationFieldsRequired // 'Username, email, and password are required'
    | InvalidEmailFormat        // 'Invalid email format'
    | PasswordTooShort          // 'Password must be at least 8 characters long'
    | UsernameExists            // 'Username already exists'
    | EmailRegistered           // 'Email already registered'
    | LoginFieldsRequired       // 'Username and password are required'
    | InvalidCredentials        // 'Invalid username or password'
    | UserNotFound              // 'User not found'
    | NewPasswordTooShort       // 'New password must be at least 8 characters long'
    | CurrentPasswordIncorrect  // 'Current password is incorrect'

  datatype FlightStatus = Active | Cancelled | Delayed

  /** PENDING is counted by the statistics but never written by the controllers. */
  datatype BookingStatus = Confirmed | Cancelled | Pending

  datatype User = User(
    id: int, username: string, email: string, passwordHash: string,
    firstName: Option<string>, lastName: Option<string>, phoneNumber: Option<string>)

  /** Times are abstract timestamps; only their order matters. */
  datatype Flight = Flight(
    id: int, flightNumber: string, airlineName: string,
    departureCity: string, arrivalCity: string, departureTime: int, arrivalTime: int,
    totalSeats: int, availableSeats: int, price: real, status: FlightStatus)

  datatype Booking = Booking(
    id: int, userId: int, flightId: int, seatNumber: string,
    status: BookingStatus, totalPrice: real, bookingDate: nat)

  datatype Tables = Tables(
    users: seq<User>, flights: seq<Flight>, bookings: seq<Booking>,
    nextUserId: int, nextFlightId: int, nextBookingId: int, clock: nat)

  /** A freshly created schema: empty tables, identity sequences starting at 1. */
  const EmptyTables := Tables([], [], [], 1, 1, 1, 0)

  // ---------------------------------------------------------------------------
  // Lookups: `SELECT ... WHERE id = :id`, first matching row
  // ---------------------------------------------------------------------------

  function UserIndex(us: seq<User>, id: int): (r: Option<nat>)
    ensures r.Some? ==> r.value < |us| && us[r.value].id == id
    ensures r.Some? ==> forall j :: 0 <= j < r.value ==> us[j].id != id
    ensures r.None? ==> forall j :: 0 <= j < |us| ==> us[j].id != id
  {
    if us == [] then None
    else if us[0].id == id then Some(0)
    else match UserIndex(us[1..], id)
      case None => None
      case Some(k) => Some(k + 1)
  }

  function FlightIndex(fs: seq<Flight>, id: int): (r: Option<nat>)
    ensures r.Some? ==> r.value < |fs| && fs[r.value].id == id
    ensures r.Some? ==> forall j :: 0 <= j < r.value ==> fs[j].id != id
    ensures r.None? ==> forall j :: 0 <= j < |fs| ==> fs[j].id != id
  {
    if fs == [] then None
    else if fs[0].id == id then Some(0)
    else match FlightIndex(fs[1..], id)
      case None => None
      case Some(k) => Some(k + 1)
  }

  /** Some row of `fs` has id `id`. */
  predicate HasFlight(fs: seq<Flight>, id: int) {
    exists k :: 0 <= k < |fs| && fs[k].id == id
  }

  predicate HasUser(us: seq<User>, id: int) {
    exists k :: 0 <= k < |us| && us[k].id == id
  }

  // ---------------------------------------------------------------------------
  // Updates: `UPDATE flights SET available_seats = available_seats + :delta WHERE flight_id = :id`
  // ---------------------------------------------------------------------------

  function AdjustSeats(fs: seq<Flight>, id: int, delta: int): (r: seq<Flight>)
    ensures |r| == |fs|
    ensures forall i :: 0 <= i < |fs| ==>
      r[i] == if fs[i].id == id then fs[i].(availableSeats := fs[i].availableSeats + delta) else fs[i]
  {
    seq(|fs|, i requires 0 <= i < |fs| =>
      if fs[i].id == id then fs[i].(availableSeats := fs[i].availableSeats + delta) else fs[i])
  }

  /** Taking a seat and giving it back restores the flights table exactly. */
  lemma AdjustSeatsInverse(fs: seq<Flight>, id: int, delta: int)
    ensures AdjustSeats(AdjustSeats(fs, id, delta), id, -delta) == fs
  {
    var r := AdjustSeats(AdjustSeats(fs, id, delta), id, -delta);
    assert forall i :: 0 <= i < |fs| ==> r[i] == fs[i];
  }

  // ---------------------------------------------------------------------------
  // Seat accounting
  // ---------------------------------------------------------------------------

  /** `b` is a CONFIRMED booking occupying a seat of flight `flightId`. */
  predicate Holds(b: Booking, flightId: int) {
    b.status == Confirmed && b.flightId == flightId
  }

  /** Number of CONFIRMED bookings of a flight. */
  function ConfirmedOn(bs: seq<Booking>, flightId: int): nat {
    if bs == [] then 0
    else ConfirmedOn(bs[..|bs| - 1], flightId) + (if Holds(bs[|bs| - 1], flightId) then 1 else 0)
  }

  lemma ConfirmedOnAppend(bs: seq<Booking>, b: Booking, flightId: int)
    ensures ConfirmedOn(bs + [b], flightId) == ConfirmedOn(bs, flightId) + (if Holds(b, flightId) then 1 else 0)
  {
    assert (bs + [b])[..|bs|] == bs;
  }

  /** Replacing one row changes the count by what the two rows contribute. */
  lemma {:induction false} ConfirmedOnUpdate(bs: seq<Booking>, i: nat, b: Booking, flightId: int)
    requires i < |bs|
    ensures ConfirmedOn(bs[i := b], flightId) + (if Holds(bs[i], flightId) then 1 else 0)
         == ConfirmedOn(bs, flightId) + (if Holds(b, flightId) then 1 else 0)
  {
    var n := |bs|;
    if i == n - 1 {
      assert bs[i := b][..n - 1] == bs[..n - 1];
    } else {
      assert bs[i := b][..n - 1] == bs[..n - 1][i := b];
      ConfirmedOnUpdate(bs[..n - 1], i, b, flightId);
    }
  }

  /** A flight no booking refers to has no CONFIRMED booking. */
  lemma {:induction false} ConfirmedOnAbsent(bs: seq<Booking>, flightId: int)
    requires forall i :: 0 <= i < |bs| ==> bs[i].flightId != flightId
    ensures ConfirmedOn(bs, flightId) == 0
  {
    if bs != [] {
      ConfirmedOnAbsent(bs[..|bs| - 1], flightId);
    }
  }

  // ---------------------------------------------------------------------------
  // The invariant of committed states
  // ---------------------------------------------------------------------------

  /**
   * Identity ids, the unique constraints on `users.username` and `users.email`,
   * and an `@` in every stored e-mail (registration checks the e-mail pattern).
   */
  predicate UsersWellFormed(t: Tables) {
    0 < t.nextUserId &&
    (forall i :: 0 <= i < |t.users| ==> 0 < t.users[i].id < t.nextUserId && '@' in t.users[i].email) &&
    (forall i, j :: 0 <= i < j < |t.users| ==>
      t.users[i].id < t.users[j].id &&
      t.users[i].username != t.users[j].username &&
      t.users[i].email != t.users[j].email)
  }

  /** Identity ids, and the unique constraint on `flights.flight_number`. */
  predicate FlightsWellFormed(t: Tables) {
    0 < t.nextFlightId &&
    (forall i :: 0 <= i < |t.flights| ==> 0 < t.flights[i].id < t.nextFlightId) &&
    (forall i, j :: 0 <= i < j < |t.flights| ==>
      t.flights[i].id < t.flights[j].id && t.flights[i].flightNumber != t.flights[j].flightNumber)
  }

  /**
   * Identity ids, booking dates in insertion order, only CONFIRMED and CANCELLED
   * rows, and the foreign keys `bookings.user_id` and `bookings.flight_id`.
   */
  predicate BookingsWellFormed(t: Tables) {
    0 < t.nextBookingId &&
    (forall i :: 0 <= i < |t.bookings| ==>
      0 < t.bookings[i].id < t.nextBookingId && t.bookings[i].bookingDate < t.clock &&
      t.bookings[i].status != Pending &&
      HasUser(t.users, t.bookings[i].userId) && HasFlight(t.flights, t.bookings[i].flightId)) &&
    (forall i, j :: 0 <= i < j < |t.bookings| ==>
      t.bookings[i].id < t.bookings[j].id && t.bookings[i].bookingDate < t.bookings[j].bookingDate)
  }

  /** At most one CONFIRMED booking per (flight, seat). */
  predicate SeatsUnique(bs: seq<Booking>) {
    forall i, j ::
      0 <= i < j < |bs| && bs[i].status == Confirmed && bs[j].status == Confirmed && bs[i].flightId == bs[j].flightId
      ==> bs[i].seatNumber != bs[j].seatNumber
  }

  /** `availableSeats + #CONFIRMED == totalSeats`, and never a negative count. */
  predicate SeatsAccounted(t: Tables) {
    forall i :: 0 <= i < |t.flights| ==>
      0 <= t.flights[i].availableSeats &&
      t.flights[i].availableSeats + ConfirmedOn(t.bookings, t.flights[i].id) == t.flights[i].totalSeats
  }

  predicate Consistent(t: Tables) {
    UsersWellFormed(t) && FlightsWellFormed(t) && BookingsWellFormed(t) &&
    SeatsUnique(t.bookings) && SeatsAccounted(t)
  }

  // ---------------------------------------------------------------------------
  // Framing: which changes keep which parts of the invariant
  // ---------------------------------------------------------------------------

  /** `fs'` is `fs` with at most counters, prices or statuses changed. */
  predicate SameFlightKeys(fs: seq<Flight>, fs': seq<Flight>) {
    |fs'| == |fs| &&
    forall i :: 0 <= i < |fs| ==> fs'[i].id == fs[i].id && fs'[i].flightNumber == fs[i].flightNumber
  }

  lemma AdjustSeatsKeepsKeys(fs: seq<Flight>, id: int, delta: int)
    ensures SameFlightKeys(fs, AdjustSeats(fs, id, delta))
  {
  }

  lemma SameFlightKeysHasFlight(fs: seq<Flight>, fs': seq<Flight>, id: int)
    requires SameFlightKeys(fs, fs') && HasFlight(fs, id)
    ensures HasFlight(fs', id)
  {
    var k :| 0 <= k < |fs| && fs[k].id == id;
    assert fs'[k].id == id;
  }

  lemma SameFlightKeysWellFormed(t: Tables, t': Tables)
    requires FlightsWellFormed(t) && SameFlightKeys(t.flights, t'.flights) && t'.nextFlightId == t.nextFlightId
    ensures FlightsWellFormed(t')
  {
  }

  /** `bs'` is `bs` with at most statuses changed, never to PENDING. */
  predicate SameBookingKeys(bs: seq<Booking>, bs': seq<Booking>) {
    |bs'| == |bs| &&
    forall i :: 0 <= i < |bs| ==>
      bs'[i].id == bs[i].id && bs'[i].userId == bs[i].userId && bs'[i].flightId == bs[i].flightId &&
      bs'[i].bookingDate == bs[i].bookingDate && bs'[i].status != Pending
  }

  /** Changing flight counters and booking statuses keeps the well-formedness of bookings. */
  lemma SameKeysBookingsWellFormed(t: Tables, t': Tables)
    requires BookingsWellFormed(t)
    requires t'.users == t.users && SameFlightKeys(t.flights, t'.flights) && SameBookingKeys(t.bookings, t'.bookings)
    requires t'.nextBookingId == t.nextBookingId && t'.clock == t.clock
    ensures BookingsWellFormed(t')
  {
    forall i | 0 <= i < |t'.bookings| ensures HasFlight(t'.flights, t'.bookings[i].flightId) {
      SameFlightKeysHasFlight(t.flights, t'.flights, t.bookings[i].flightId);
    }
  }

  /** Appending the next booking (next id, current clock) keeps the well-formedness of bookings. */
  lemma AppendBookingWellFormed(t: Tables, t': Tables, b: Booking)
    requires BookingsWellFormed(t)
    requires t'.users == t.users && SameFlightKeys(t.flights, t'.flights) && t'.bookings == t.bookings + [b]
    requires b.id == t.nextBookingId && b.bookingDate == t.clock && b.status != Pending
    requires HasUser(t.users, b.userId) && HasFlight(t.flights, b.flightId)
    requires t'.nextBookingId == t.nextBookingId + 1 && t'.clock == t.clock + 1
    ensures BookingsWellFormed(t')
  {
    var n := |t.bookings|;
    forall i | 0 <= i < |t'.bookings|
      ensures 0 < t'.bookings[i].id < t'.nextBookingId && t'.bookings[i].bookingDate < t'.clock
      ensures t'.bookings[i].status != Pending
      ensures HasUser(t'.users, t'.bookings[i].userId) && HasFlight(t'.flights, t'.bookings[i].flightId)
    {
      var c := t'.bookings[i];
      if i < n {
        assert c == t.bookings[i];
      } else {
        assert c == b;
      }
      SameFlightKeysHasFlight(t.flights, t'.flights, c.flightId);
    }
    forall i, j | 0 <= i < j < |t'.bookings|
      ensures t'.bookings[i].id < t'.bookings[j].id && t'.bookings[i].bookingDate < t'.bookings[j].bookingDate
    {
      assert t'.bookings[i] == t.bookings[i];
      if j < n { assert t'.bookings[j] == t.bookings[j]; }
    }
  }

  lemma EmptyTablesConsistent()
    ensures Consistent(EmptyTables)
  {
  }

  /** Under the invariant a flight's available seats never exceed its capacity. */
  lemma AvailableWithinCapacity(t: Tables, i: int)
    requires Consistent(t) && 0 <= i < |t.flights|
    ensures 0 <= t.flights[i].availableSeats <= t.flights[i].totalSeats
  {
  }

  /** Ids ascend, so the first row with an id is the only one. */
  lemma FlightIndexOf(fs: seq<Flight>, k: int)
    requires forall i, j :: 0 <= i < j < |fs| ==> fs[i].id < fs[j].id
    requires 0 <= k < |fs|
    ensures FlightIndex(fs, fs[k].id) == Some(k)
  {
  }

  /** Ids ascend, so the seat UPDATE on a row's id changes that row alone. */
  lemma AdjustSeatsAt(fs: seq<Flight>, k: int, delta: int)
    requires forall i, j :: 0 <= i < j < |fs| ==> fs[i].id < fs[j].id
    requires 0 <= k < |fs|
    ensures AdjustSeats(fs, fs[k].id, delta) == fs[k := fs[k].(availableSeats := fs[k].availableSeats + delta)]
  {
    var r := AdjustSeats(fs, fs[k].id, delta);
    forall i | 0 <= i < |fs| && i != k ensures r[i] == fs[i] {
      if i < k { assert fs[i].id < fs[k].id; }
      if k < i { assert fs[k].id < fs[i].id; }
    }
  }

  lemma UserIndexOf(us: seq<User>, k: int)
    requires forall i, j :: 0 <= i < j < |us| ==> us[i].id < us[j].id
    requires 0 <= k < |us|
    ensures UserIndex(us, us[k].id) == Some(k)
  {
  }
}
