/**
 * The flight controller (backend/controllers/flightController.js): the
 * catalogue queries, which filter and order the flights table, and the two
 * statements that change it, `createFlight` (one INSERT) and `updateFlight`
 * (one UPDATE built from the supplied fields). Neither runs in a transaction;
 * every rejection happens before the single statement that writes.
 */
module Flights {

  import opened Wrappers
  import opened Schema
  import opened Store
  import Validation

  // ===========================================================================
  // getFlightById
  // ===========================================================================

  /** `SELECT ... WHERE flight_id = :flightId`; 'Flight not found' when no row has the id. */
  function GetFlightById(fs: seq<Flight>, flightId: int): (r: Result<Flight, Error>)
    ensures r.Err? <==> !HasFlight(fs, flightId)
    ensures r.Err? ==> r.error == FlightNotFound
    ensures r.Ok? ==> r.value in fs && r.value.id == flightId
  {
    match FlightIndex(fs, flightId)
    case None => Err(FlightNotFound)
    case Some(k) =>
      assert fs[k].id == flightId;
      Ok(fs[k])
  }

  // ===========================================================================
  // Filtering and `ORDER BY departure_time ASC`
  // ===========================================================================

  /** The rows of `fs` that satisfy a WHERE clause, in table order, each as often as the table holds it. */
  function Select(fs: seq<Flight>, keep: Flight -> bool): (r: seq<Flight>)
    ensures |r| <= |fs|
    ensures forall f :: multiset(r)[f] == if keep(f) then multiset(fs)[f] else 0
    ensures forall f :: f in r <==> f in fs && keep(f)
  {
    if fs == [] then []
    else
      assert fs == [fs[0]] + fs[1..];
      (if keep(fs[0]) then [fs[0]] else []) + Select(fs[1..], keep)
  }

  /** Two WHERE clauses that agree on every row select the same rows. */
  lemma {:induction false} SelectAgreeing(fs: seq<Flight>, p: Flight -> bool, q: Flight -> bool)
    requires forall f :: p(f) == q(f)
    ensures Select(fs, p) == Select(fs, q)
  {
    if fs != [] {
      SelectAgreeing(fs[1..], p, q);
    }
  }

  predicate DepartureOrdered(fs: seq<Flight>) {
    forall i, j :: 0 <= i < j < |fs| ==> fs[i].departureTime <= fs[j].departureTime
  }

  /** A row departing no later than the head of an ordered list can go in front of it. */
  lemma ConsOrdered(g: Flight, fs: seq<Flight>)
    requires DepartureOrdered(fs)
    requires fs == [] || g.departureTime <= fs[0].departureTime
    ensures DepartureOrdered([g] + fs)
  {
    var r := [g] + fs;
    forall i, j | 0 <= i < j < |r| ensures r[i].departureTime <= r[j].departureTime {
      if i > 0 {
        assert r[i] == fs[i - 1] && r[j] == fs[j - 1];
      } else {
        assert r[j] == fs[j - 1];
      }
    }
  }

  /** Inserts `f` before the first row departing no earlier than it. */
  function InsertByDeparture(f: Flight, fs: seq<Flight>): (r: seq<Flight>)
    ensures multiset(r) == multiset(fs) + multiset{f}
    ensures |r| == |fs| + 1 && (r[0] == f || (fs != [] && r[0] == fs[0]))
  {
    if fs == [] then [f]
    else if f.departureTime <= fs[0].departureTime then [f] + fs
    else
      assert fs == [fs[0]] + fs[1..];
      [fs[0]] + InsertByDeparture(f, fs[1..])
  }

  /** Inserting into a list ordered by departure time keeps it ordered. */
  lemma {:induction false} InsertByDepartureOrdered(f: Flight, fs: seq<Flight>)
    requires DepartureOrdered(fs)
    ensures DepartureOrdered(InsertByDeparture(f, fs))
  {
    if fs == [] {
    } else if f.departureTime <= fs[0].departureTime {
      ConsOrdered(f, fs);
    } else {
      var tail := fs[1..];
      assert DepartureOrdered(tail);
      InsertByDepartureOrdered(f, tail);
      var rest := InsertByDeparture(f, tail);
      assert tail != [] ==> fs[0].departureTime <= tail[0].departureTime;
      ConsOrdered(fs[0], rest);
    }
  }

  /** The rows of `fs` ordered by departure time. */
  function SortByDeparture(fs: seq<Flight>): (r: seq<Flight>)
    ensures DepartureOrdered(r)
    ensures multiset(r) == multiset(fs)
  {
    if fs == [] then []
    else
      assert fs == [fs[0]] + fs[1..];
      var rest := SortByDeparture(fs[1..]);
      InsertByDepartureOrdered(fs[0], rest);
      InsertByDeparture(fs[0], rest)
  }

  // ===========================================================================
  // getAllFlights
  // ===========================================================================

  function IsActive(f: Flight): bool {
    f.status == Active
  }

  /** `WHERE status = 'ACTIVE' ORDER BY departure_time ASC` */
  function GetAllFlights(fs: seq<Flight>): seq<Flight> {
    SortByDeparture(Select(fs, IsActive))
  }

  /** getAllFlights lists every ACTIVE flight once per row, and nothing else, by departure time. */
  lemma AllFlightsActiveAndOrdered(fs: seq<Flight>)
    ensures DepartureOrdered(GetAllFlights(fs))
    ensures forall f :: f in GetAllFlights(fs) <==> f in fs && f.status == Active
    ensures forall f :: multiset(GetAllFlights(fs))[f] == if f.status == Active then multiset(fs)[f] else 0
  {
    var s := Select(fs, IsActive);
    forall f ensures f in GetAllFlights(fs) <==> f in s {
      assert f in GetAllFlights(fs) <==> f in multiset(GetAllFlights(fs));
      assert f in s <==> f in multiset(s);
    }
  }

  // ===========================================================================
  // searchFlights
  // ===========================================================================

  /** `LOWER(column) = LOWER(:city)` */
  predicate SameCity(column: string, city: string) {
    Validation.LowerAscii(column) == Validation.LowerAscii(city)
  }

  /** The WHERE clause of searchFlights without its optional date filter. */
  function Bookable(departureCity: string, arrivalCity: string): Flight -> bool {
    (f: Flight) => f.status == Active && f.availableSeats > 0 &&
         SameCity(f.departureCity, departureCity) && SameCity(f.arrivalCity, arrivalCity)
  }

  /** Both cities are required (truthy); the matching rows come back by departure time. */
  function SearchFlights(fs: seq<Flight>, departureCity: Option<string>, arrivalCity: Option<string>)
    : (r: Result<seq<Flight>, Error>)
    ensures r.Err? <==> !Validation.Present(departureCity) || !Validation.Present(arrivalCity)
    ensures r.Err? ==> r.error == CitiesRequired
  {
    if !Validation.Present(departureCity) || !Validation.Present(arrivalCity) then Err(CitiesRequired)
    else Ok(SortByDeparture(Select(fs, Bookable(departureCity.value, arrivalCity.value))))
  }

  /**
   * Every result is ACTIVE, has a free seat and matches both cities ignoring
   * case; every such flight is a result; results ascend by departure time.
   */
  lemma SearchFlightsExactly(fs: seq<Flight>, departureCity: string, arrivalCity: string, f: Flight)
    requires departureCity != "" && arrivalCity != ""
    ensures SearchFlights(fs, Some(departureCity), Some(arrivalCity)).Ok?
    ensures DepartureOrdered(SearchFlights(fs, Some(departureCity), Some(arrivalCity)).value)
    ensures f in SearchFlights(fs, Some(departureCity), Some(arrivalCity)).value <==>
      f in fs && f.status == Active && f.availableSeats > 0 &&
      SameCity(f.departureCity, departureCity) && SameCity(f.arrivalCity, arrivalCity)
    ensures multiset(SearchFlights(fs, Some(departureCity), Some(arrivalCity)).value)[f] ==
      if f.status == Active && f.availableSeats > 0 &&
         SameCity(f.departureCity, departureCity) && SameCity(f.arrivalCity, arrivalCity)
      then multiset(fs)[f] else 0
  {
    var s := Select(fs, Bookable(departureCity, arrivalCity));
    var r := SearchFlights(fs, Some(departureCity), Some(arrivalCity)).value;
    assert f in r <==> f in multiset(r);
    assert f in s <==> f in multiset(s);
  }

  /** The search ignores the case of the cities it is given. */
  lemma SearchIgnoresCase(fs: seq<Flight>, d1: string, a1: string, d2: string, a2: string)
    requires Validation.LowerAscii(d1) == Validation.LowerAscii(d2)
    requires Validation.LowerAscii(a1) == Validation.LowerAscii(a2)
    ensures SearchFlights(fs, Some(d1), Some(a1)) == SearchFlights(fs, Some(d2), Some(a2))
  {
    assert |Validation.LowerAscii(d1)| == |d1| && |Validation.LowerAscii(d2)| == |d2|;
    assert |Validation.LowerAscii(a1)| == |a1| && |Validation.LowerAscii(a2)| == |a2|;
    SelectAgreeing(fs, Bookable(d1, a1), Bookable(d2, a2));
  }

  // ===========================================================================
  // getBookedSeats
  // ===========================================================================

  /** `SELECT seat_number FROM bookings WHERE flight_id = :flightId AND booking_status = 'CONFIRMED'` */
  function BookedSeats(bs: seq<Booking>, flightId: int): (r: seq<string>)
    ensures |r| == ConfirmedOn(bs, flightId)
  {
    if bs == [] then []
    else
      var b := bs[|bs| - 1];
      BookedSeats(bs[..|bs| - 1], flightId) + (if Holds(b, flightId) then [b.seatNumber] else [])
  }

  /** getBookedSeats returns exactly the seats of the flight's CONFIRMED bookings. */
  lemma {:induction false} BookedSeatsExactly(bs: seq<Booking>, flightId: int, seat: string)
    ensures seat in BookedSeats(bs, flightId) <==>
      exists i :: 0 <= i < |bs| && Holds(bs[i], flightId) && bs[i].seatNumber == seat
  {
    if bs != [] {
      var p := bs[..|bs| - 1];
      BookedSeatsExactly(p, flightId, seat);
      if exists i :: 0 <= i < |bs| && Holds(bs[i], flightId) && bs[i].seatNumber == seat {
        var i :| 0 <= i < |bs| && Holds(bs[i], flightId) && bs[i].seatNumber == seat;
        if i < |p| { assert p[i] == bs[i]; }
      }
      if seat in BookedSeats(p, flightId) {
        var i :| 0 <= i < |p| && Holds(p[i], flightId) && p[i].seatNumber == seat;
        assert bs[i] == p[i];
      }
    }
  }

  /** With at most one CONFIRMED booking per seat, no seat is listed twice. */
  lemma {:induction false} BookedSeatsDistinct(bs: seq<Booking>, flightId: int)
    requires SeatsUnique(bs)
    ensures var r := BookedSeats(bs, flightId); forall i, j :: 0 <= i < j < |r| ==> r[i] != r[j]
  {
    if bs != [] {
      var p := bs[..|bs| - 1];
      var b := bs[|bs| - 1];
      assert SeatsUnique(p);
      BookedSeatsDistinct(p, flightId);
      if Holds(b, flightId) {
        BookedSeatsExactly(p, flightId, b.seatNumber);
      }
    }
  }

  /** In a consistent state the booked seats and the free seats add up to the capacity. */
  lemma BookedSeatsAccountForCapacity(t: Tables, k: int)
    requires Consistent(t) && 0 <= k < |t.flights|
    ensures |BookedSeats(t.bookings, t.flights[k].id)| + t.flights[k].availableSeats == t.flights[k].totalSeats
  {
  }

  // ===========================================================================
  // createFlight
  // ===========================================================================

  /** The request body of createFlight; `None` is a missing field. */
  datatype NewFlight = NewFlight(
    flightNumber: Option<string>, airlineName: Option<string>,
    departureCity: Option<string>, arrivalCity: Option<string>,
    departureTime: Option<int>, arrivalTime: Option<int>,
    totalSeats: Option<int>, price: Option<real>)

  /** Every field truthy: strings non-empty, times given, `totalSeats` and `price` given and non-zero. */
  predicate AllFieldsGiven(n: NewFlight) {
    Validation.Present(n.flightNumber) && Validation.Present(n.airlineName) &&
    Validation.Present(n.departureCity) && Validation.Present(n.arrivalCity) &&
    n.departureTime.Some? && n.arrivalTime.Some? &&
    n.totalSeats.Some? && n.totalSeats.value != 0 &&
    n.price.Some? && n.price.value != 0.0
  }

  predicate FlightNumberTaken(fs: seq<Flight>, flightNumber: string) {
    exists i :: 0 <= i < |fs| && fs[i].flightNumber == flightNumber
  }

  /** The checks of createFlight, in order. */
  function CreateFlightRejection(t: Tables, n: NewFlight): (r: Option<Error>)
    ensures r.None? <==> AllFieldsGiven(n) && n.totalSeats.value > 0 && n.price.value > 0.0 &&
                         !FlightNumberTaken(t.flights, n.flightNumber.value)
    ensures r == Some(FlightFieldsRequired) <==> !AllFieldsGiven(n)
    ensures r == Some(TotalSeatsNotPositive) <==> AllFieldsGiven(n) && n.totalSeats.value < 0
    ensures r == Some(PriceNotPositive) <==>
      AllFieldsGiven(n) && n.totalSeats.value > 0 && n.price.value < 0.0
    ensures r == Some(FlightNumberExists) <==>
      AllFieldsGiven(n) && n.totalSeats.value > 0 && n.price.value > 0.0 &&
      FlightNumberTaken(t.flights, n.flightNumber.value)
  {
    if !AllFieldsGiven(n) then Some(FlightFieldsRequired)
    else if n.totalSeats.value <= 0 then Some(TotalSeatsNotPositive)
    else if n.price.value <= 0.0 then Some(PriceNotPositive)
    else if FlightNumberTaken(t.flights, n.flightNumber.value) then Some(FlightNumberExists)
    else None
  }

  /** Zero seats and a zero price count as missing fields, not as non-positive ones. */
  lemma ZeroIsMissing(t: Tables, n: NewFlight)
    requires n.totalSeats == Some(0) || n.price == Some(0.0)
    ensures CreateFlightRejection(t, n) == Some(FlightFieldsRequired)
  {
  }

  /** The INSERT: a new id, every seat free, status ACTIVE. */
  function CommitFlight(t: Tables, n: NewFlight): Tables
    requires CreateFlightRejection(t, n).None?
  {
    var f := Flight(t.nextFlightId, n.flightNumber.value, n.airlineName.value,
      n.departureCity.value, n.arrivalCity.value, n.departureTime.value, n.arrivalTime.value,
      n.totalSeats.value, n.totalSeats.value, n.price.value, Active);
    t.(flights := t.flights + [f], nextFlightId := t.nextFlightId + 1)
  }

  /** `SELECT flight_id FROM flights WHERE flight_number = :flightNumber`, first row. */
  function FlightNumberIndex(fs: seq<Flight>, flightNumber: string): (r: Option<nat>)
    ensures r.Some? ==> r.value < |fs| && fs[r.value].flightNumber == flightNumber
    ensures r.None? <==> !FlightNumberTaken(fs, flightNumber)
  {
    if fs == [] then None
    else if fs[0].flightNumber == flightNumber then Some(0)
    else match FlightNumberIndex(fs[1..], flightNumber)
      case None =>
        assert forall i :: 1 <= i < |fs| ==> fs[i] == fs[1..][i - 1];
        None
      case Some(k) => Some(k + 1)
  }

  /**
   * A created flight establishes the seat invariant (all seats free, no
   * bookings) and keeps the rest of `Consistent`.
   */
  lemma CreateFlightPreservesConsistency(t: Tables, n: NewFlight)
    requires Consistent(t) && CreateFlightRejection(t, n).None?
    ensures Consistent(CommitFlight(t, n))
  {
    CreateFlightKeepsFlights(t, n);
    CreateFlightKeepsBookings(t, n);
    CreateFlightKeepsSeats(t, n);
  }

  lemma CreateFlightKeepsFlights(t: Tables, n: NewFlight)
    requires Consistent(t) && CreateFlightRejection(t, n).None?
    ensures FlightsWellFormed(CommitFlight(t, n))
  {
    var t' := CommitFlight(t, n);
    var m := |t.flights|;
    forall i, j | 0 <= i < j < |t'.flights|
      ensures t'.flights[i].id < t'.flights[j].id && t'.flights[i].flightNumber != t'.flights[j].flightNumber
    {
      assert t'.flights[i] == t.flights[i];
      if j < m {
        assert t'.flights[j] == t.flights[j];
      }
    }
  }

  lemma CreateFlightKeepsBookings(t: Tables, n: NewFlight)
    requires Consistent(t) && CreateFlightRejection(t, n).None?
    ensures BookingsWellFormed(CommitFlight(t, n))
  {
    var t' := CommitFlight(t, n);
    forall i | 0 <= i < |t'.bookings| ensures HasFlight(t'.flights, t'.bookings[i].flightId) {
      var j :| 0 <= j < |t.flights| && t.flights[j].id == t.bookings[i].flightId;
      assert t'.flights[j] == t.flights[j];
    }
  }

  lemma CreateFlightKeepsSeats(t: Tables, n: NewFlight)
    requires Consistent(t) && CreateFlightRejection(t, n).None?
    ensures SeatsAccounted(CommitFlight(t, n))
  {
    var t' := CommitFlight(t, n);
    var m := |t.flights|;
    forall i | 0 <= i < |t.bookings| ensures t.bookings[i].flightId != t.nextFlightId {
      var j :| 0 <= j < m && t.flights[j].id == t.bookings[i].flightId;
    }
    ConfirmedOnAbsent(t.bookings, t.nextFlightId);
    forall i | 0 <= i < |t'.flights|
      ensures 0 <= t'.flights[i].availableSeats &&
              t'.flights[i].availableSeats + ConfirmedOn(t'.bookings, t'.flights[i].id) == t'.flights[i].totalSeats
    {
      if i < m {
        assert t'.flights[i] == t.flights[i];
      }
    }
  }

  /** After the INSERT the re-read by flight number and then by id yields the new row. */
  lemma CreatedFlightReadBack(t: Tables, n: NewFlight)
    requires Consistent(t) && CreateFlightRejection(t, n).None?
    ensures var fs := CommitFlight(t, n).flights;
      && FlightNumberIndex(fs, n.flightNumber.value) == Some(|t.flights|)
      && GetFlightById(fs, t.nextFlightId) == Ok(fs[|t.flights|])
  {
    var fs := CommitFlight(t, n).flights;
    var k := FlightNumberIndex(fs, n.flightNumber.value);
    assert FlightNumberTaken(fs, n.flightNumber.value) by {
      assert fs[|t.flights|].flightNumber == n.flightNumber.value;
    }
    assert k.value == |t.flights|;
    CreateFlightPreservesConsistency(t, n);
    FlightIndexOf(fs, |t.flights|);
  }

  /**
   * createFlight: the checks, the INSERT, and the re-read by flight number and
   * id. A rejection writes nothing.
   */
  method CreateFlight(db: Database, n: NewFlight) returns (r: Result<Flight, Error>)
    requires db.Valid()
    modifies db
    ensures db.Valid()
    ensures r.Err? <==> CreateFlightRejection(old(db.State()), n).Some?
    ensures r.Err? ==> CreateFlightRejection(old(db.State()), n) == Some(r.error) && db.State() == old(db.State())
    ensures r.Ok? ==> db.State() == CommitFlight(old(db.State()), n)
    ensures r.Ok? ==> r.value.id == old(db.nextFlightId) && r.value.flightNumber == n.flightNumber.value &&
                      r.value.availableSeats == r.value.totalSeats == n.totalSeats.value &&
                      r.value.status == Active
  {
    var rejection := CreateFlightRejection(db.State(), n);
    if rejection.Some? {
      return Err(rejection.value);
    }
    ghost var before := db.State();
    ghost var after := CommitFlight(before, n);
    CreateFlightPreservesConsistency(before, n);
    CreatedFlightReadBack(before, n);
    var row := Flight(db.nextFlightId, n.flightNumber.value, n.airlineName.value,
      n.departureCity.value, n.arrivalCity.value, n.departureTime.value, n.arrivalTime.value,
      n.totalSeats.value, n.totalSeats.value, n.price.value, Active);
    db.flights := db.flights + [row];
    db.nextFlightId := db.nextFlightId + 1;
    assert db.State() == after;
    var k := FlightNumberIndex(db.flights, n.flightNumber.value);
    assert k == Some(|before.flights|) && db.flights[k.value] == row;
    r := GetFlightById(db.flights, db.flights[k.value].id);
  }

  // ===========================================================================
  // updateFlight
  // ===========================================================================

  /** The body of updateFlight; `None` is a field left undefined. */
  datatype FlightUpdate = FlightUpdate(airlineName: Option<string>, price: Option<real>, status: Option<string>)

  /** One `column = :value` item of the SET list. */
  datatype FlightChange = SetAirline(airline: string) | SetPrice(price: real) | SetStatus(status: FlightStatus)

  function StatusName(s: FlightStatus): string {
    match s
    case Active => "ACTIVE"
    case Cancelled => "CANCELLED"
    case Delayed => "DELAYED"
  }

  /** `['ACTIVE', 'CANCELLED', 'DELAYED'].includes(status)`, case-sensitive. */
  function ParseStatus(s: string): (r: Option<FlightStatus>)
    ensures r.Some? ==> StatusName(r.value) == s
  {
    if s == "ACTIVE" then Some(Active)
    else if s == "CANCELLED" then Some(FlightStatus.Cancelled)
    else if s == "DELAYED" then Some(Delayed)
    else None
  }

  /** The three status names, and only they, are accepted. */
  lemma ParseStatusName(st: FlightStatus)
    ensures ParseStatus(StatusName(st)) == Some(st)
  {
  }

  /** The checks of updateFlight, in order; none of them reads the table. */
  function UpdateRejection(u: FlightUpdate): (r: Option<Error>)
    ensures r.None? <==>
      (u.price.Some? ==> u.price.value > 0.0) &&
      (u.status.Some? ==> u.status.value in {"ACTIVE", "CANCELLED", "DELAYED"}) &&
      (u.airlineName.Some? || u.price.Some? || u.status.Some?)
  {
    if u.price.Some? && u.price.value <= 0.0 then Some(PriceNotPositive)
    else if u.status.Some? && ParseStatus(u.status.value).None? then Some(InvalidFlightStatus)
    else if u.airlineName.None? && u.price.None? && u.status.None? then Some(NoFieldsToUpdate)
    else None
  }

  /** The SET list the accepted update builds, in the order its fields are examined. */
  function Changes(u: FlightUpdate): seq<FlightChange>
    requires UpdateRejection(u).None?
  {
    (if u.airlineName.Some? then [SetAirline(u.airlineName.value)] else []) +
    (if u.price.Some? then [SetPrice(u.price.value)] else []) +
    (if u.status.Some? then [SetStatus(ParseStatus(u.status.value).value)] else [])
  }

  function ApplyChange(f: Flight, c: FlightChange): Flight {
    match c
    case SetAirline(a) => f.(airlineName := a)
    case SetPrice(p) => f.(price := p)
    case SetStatus(s) => f.(status := s)
  }

  /** Applying a SET list never touches the id, the route, the times or the seat counts. */
  function ApplyChanges(f: Flight, cs: seq<FlightChange>): (r: Flight)
    ensures r.id == f.id && r.flightNumber == f.flightNumber
    ensures r.departureCity == f.departureCity && r.arrivalCity == f.arrivalCity
    ensures r.departureTime == f.departureTime && r.arrivalTime == f.arrivalTime
    ensures r.totalSeats == f.totalSeats && r.availableSeats == f.availableSeats
    decreases cs
  {
    if cs == [] then f else ApplyChanges(ApplyChange(f, cs[0]), cs[1..])
  }

  /** `UPDATE flights SET ... WHERE flight_id = :flightId` */
  function UpdateRows(fs: seq<Flight>, flightId: int, cs: seq<FlightChange>): (r: seq<Flight>)
    ensures |r| == |fs|
    ensures forall i :: 0 <= i < |fs| ==> r[i] == if fs[i].id == flightId then ApplyChanges(fs[i], cs) else fs[i]
  {
    seq(|fs|, i requires 0 <= i < |fs| => if fs[i].id == flightId then ApplyChanges(fs[i], cs) else fs[i])
  }

  /**
   * The updated row carries each supplied field's new value and keeps every
   * other field, seat counts included.
   */
  lemma UpdateChangesOnlySupplied(f: Flight, u: FlightUpdate)
    requires UpdateRejection(u).None?
    ensures var g := ApplyChanges(f, Changes(u));
      && g.airlineName == (if u.airlineName.Some? then u.airlineName.value else f.airlineName)
      && g.price == (if u.price.Some? then u.price.value else f.price)
      && g.status == (if u.status.Some? then ParseStatus(u.status.value).value else f.status)
      && g == f.(airlineName := g.airlineName, price := g.price, status := g.status)
  {
    var a := if u.airlineName.Some? then [SetAirline(u.airlineName.value)] else [];
    var p := if u.price.Some? then [SetPrice(u.price.value)] else [];
    var s := if u.status.Some? then [SetStatus(ParseStatus(u.status.value).value)] else [];
    var f1 := ApplyChanges(f, a);
    var f2 := ApplyChanges(f1, p);
    ApplyChangesAppend(f, a, p);
    ApplyChangesAppend(f, a + p, s);
    assert Changes(u) == a + p + s;
  }

  lemma {:induction false} ApplyChangesAppend(f: Flight, cs: seq<FlightChange>, ds: seq<FlightChange>)
    ensures ApplyChanges(f, cs + ds) == ApplyChanges(ApplyChanges(f, cs), ds)
    decreases cs
  {
    if cs != [] {
      assert (cs + ds)[1..] == cs[1..] + ds;
      ApplyChangesAppend(ApplyChange(f, cs[0]), cs[1..], ds);
    } else {
      assert cs + ds == ds;
    }
  }

  /** An update of an id no row has changes nothing. */
  lemma UpdateUnknownChangesNothing(fs: seq<Flight>, flightId: int, cs: seq<FlightChange>)
    requires !HasFlight(fs, flightId)
    ensures UpdateRows(fs, flightId, cs) == fs
  {
    assert forall i :: 0 <= i < |fs| ==> fs[i].id != flightId;
  }

  /** An update keeps `Consistent`: it never touches ids, flight numbers or seats. */
  lemma UpdatePreservesConsistency(t: Tables, flightId: int, cs: seq<FlightChange>)
    requires Consistent(t)
    ensures Consistent(t.(flights := UpdateRows(t.flights, flightId, cs)))
  {
    var t' := t.(flights := UpdateRows(t.flights, flightId, cs));
    assert SameFlightKeys(t.flights, t'.flights);
    SameFlightKeysWellFormed(t, t');
    assert SameBookingKeys(t.bookings, t'.bookings);
    SameKeysBookingsWellFormed(t, t');
  }

  /**
   * updateFlight: builds the SET list field by field, rejecting a non-positive
   * price, then an unknown status, then an empty list; runs the UPDATE; reads
   * the row back, which fails with 'Flight not found' for an unknown id.
   */
  method UpdateFlight(db: Database, flightId: int, u: FlightUpdate) returns (r: Result<Flight, Error>)
    requires db.Valid()
    modifies db
    ensures db.Valid()
    ensures db.State() == old(db.State()).(flights := db.flights)
    ensures UpdateRejection(u).Some? ==> r == Err(UpdateRejection(u).value) && db.flights == old(db.flights)
    ensures UpdateRejection(u).None? ==> db.flights == UpdateRows(old(db.flights), flightId, Changes(u))
    ensures UpdateRejection(u).None? ==> r == GetFlightById(db.flights, flightId)
    ensures !HasFlight(old(db.flights), flightId) ==> r.Err? && db.flights == old(db.flights)
  {
    var updates: seq<FlightChange> := [];
    if u.airlineName.Some? {
      updates := updates + [SetAirline(u.airlineName.value)];
    }
    if u.price.Some? {
      if u.price.value <= 0.0 {
        return Err(PriceNotPositive);
      }
      updates := updates + [SetPrice(u.price.value)];
    }
    if u.status.Some? {
      var status := ParseStatus(u.status.value);
      if status.None? {
        return Err(InvalidFlightStatus);
      }
      updates := updates + [SetStatus(status.value)];
    }
    if |updates| == 0 {
      return Err(NoFieldsToUpdate);
    }
    assert updates == Changes(u);
    var t := db.State();
    var rows := UpdateRows(db.flights, flightId, updates);
    UpdatePreservesConsistency(t, flightId, updates);
    if !HasFlight(db.flights, flightId) {
      UpdateUnknownChangesNothing(db.flights, flightId, updates);
    }
    db.flights := rows;
    assert db.State() == t.(flights := rows);
    r := GetFlightById(db.flights, flightId);
  }
}
