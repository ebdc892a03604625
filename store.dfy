/**
 * The database the controllers talk to, as one object whose tables the
 * controllers' statements reassign in place.
 *
 * A controller that runs inside `executeTransaction` (oracle-connection.js)
 * saves `State()` when the transaction begins and calls `Rollback` with it when
 * its unit of work fails; committing keeps the state the work left.
 */
module Store {

  import opened Schema

  class Database {
    var users: seq<User>
    var flights: seq<Flight>
    var bookings: seq<Booking>
    var nextUserId: int
    var nextFlightId: int
    var nextBookingId: int
    var clock: nat

    /** The contents of the database as a value. */
    function State(): Tables
      reads this
    {
      Tables(users, flights, bookings, nextUserId, nextFlightId, nextBookingId, clock)
    }

    /** Every committed state keeps the schema's invariant. */
    predicate Valid()
      reads this
    {
      Consistent(State())
    }

    constructor ()
      ensures State() == EmptyTables
      ensures Valid()
    {
      users, flights, bookings := [], [], [];
      nextUserId, nextFlightId, nextBookingId, clock := 1, 1, 1, 0;
    }

    /**
     * `connection.rollback()`: every table is back where it was when the
     * transaction began. Identity sequences and the clock are not
     * transactional and keep their current values.
     */
    method Rollback(saved: Tables)
      modifies this
      ensures users == saved.users && flights == saved.flights && bookings == saved.bookings
      ensures nextUserId == old(nextUserId) && nextFlightId == old(nextFlightId)
      ensures nextBookingId == old(nextBookingId) && clock == old(clock)
    {
      users, flights, bookings := saved.users, saved.flights, saved.bookings;
    }
  }
}
