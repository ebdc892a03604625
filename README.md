# Flight reservation backend: a Dafny model of its booking core

This project models the server side of a flight reservation system. Users register and log in, browse and search flights, book a seat and cancel a booking. Administrators create and update flights. All data lives in three tables: `users`, `flights` and `bookings`.

The model follows the controllers and the validation middleware one module at a time:

| module | file | what it models |
|---|---|---|
| `Wrappers` | `wrappers.dfy` | `Option` and `Result` |
| `Validation` | `validation.dfy` | the five request validators, the seat, username and e-mail patterns, JavaScript truthiness |
| `Schema` | `schema.dfy` | the row types, the tables as one value (`Tables`), the errors the controllers throw, row lookups, and the invariant `Consistent` |
| `Store` | `store.dfy` | the database as a `Database` object whose three tables the controllers reassign, and the rollback of a transaction |
| `Bookings` | `bookings.dfy` | `createBooking`, `cancelBooking`, `getBookingById`, `getUserBookings`, `getFlightBookingStats` |
| `Flights` | `flights.dfy` | `getAllFlights`, `getFlightById`, `searchFlights`, `createFlight`, `updateFlight`, `getBookedSeats` |
| `Users` | `users.dfy` | `registerUser`, `loginUser`, `getUserProfile`, `updateUserProfile`, `changePassword` |

### Operations

Each operation that writes is split in three:
- a pure function listing its checks in the order the source runs them (`BookingRejection`, `CancelRejection`, `CreateFlightRejection`, `RegistrationRejection`, ...);
- a pure function giving the committed effect on the tables (`CommitBooking`, `CommitCancel`, `CommitFlight`, `CommitRegistration`, `UpdateRows`, `SetPasswordHash`, ...);
- a method on `Database` that runs the statements step by step and is proved to do exactly that.

### Transactions

`createBooking` and `cancelBooking` run inside `executeTransaction`. There, the unit of work (`BookSeat`, `CancelWork`) may fail halfway, and the caller then calls `Database.Rollback` with the state saved when the transaction began. The outer methods (`CreateBooking`, `CancelBooking`) are proved all-or-nothing:
- a failure leaves every table and counter as it was;
- a success leaves exactly the committed effect.

The other writing operations issue a single statement after all their checks, so a rejection never writes.

### Invariant

The invariant `Consistent` holds in the empty database and after every committed operation. It covers:
- identity ids, which ascend along each table;
- the unique constraints on username, e-mail and flight number;
- foreign keys from bookings to users and flights;
- booking dates in insertion order;
- at most one CONFIRMED booking per (flight, seat);
- `availableSeats + #CONFIRMED(flight) == totalSeats`, with `availableSeats >= 0`.

### Opaque parts

- Password hashing (`bcrypt.hash`) is a parameter: the hash the statement stores.
- Password comparison (`bcrypt.compare`) is a function parameter `matches(password, hash)`.
- Timestamps (`SYSTIMESTAMP`) are an abstract counter `clock`, which only orders bookings.

## Model

| member | source | states |
|---|---|---|
| Validation.UsernameCheck | backend/middleware/validation.js:16-24 | at most one username error: missing, then shorter than 3, then longer than 50, then outside `[A-Za-z0-9_-]`; no error iff the username is accepted |
| Validation.EmailCheck | backend/middleware/validation.js:27-31 | 'required' iff missing or empty; 'invalid' iff present and not matching the e-mail pattern; no error iff accepted |
| Validation.PasswordCheck | backend/middleware/validation.js:34-40 | at most one password error: missing, then shorter than 8, then longer than 255; no error iff the length is within 8..255 |
| Validation.EmailPatternCharacterized | backend/middleware/validation.js:28 | a string matches `^[^\s@]+@[^\s@]+\.[^\s@]+$` iff it has no whitespace, exactly one `@`, a non-empty local part, and a domain holding a `.` that is neither its first nor its last character |
| Validation.LowerAscii | backend/middleware/validation.js:116 | case folding keeps the length and lowers exactly the capitals A-Z |
| Validation.ValidateUserRegistration | backend/middleware/validation.js:9-50 | errors are gathered from all three fields, one per field at most; the request proceeds iff username, e-mail and password are all accepted; each error is reported iff its condition holds |
| Validation.ValidateUserLogin | backend/middleware/validation.js:63-85 | only presence is checked; proceeds iff both fields are present; otherwise the list names exactly the missing fields in order |
| Validation.ValidateFlightSearch | backend/middleware/validation.js:98-128 | each city is required and at most 50 long; 'same cities' is reported iff both are present and equal ignoring case; proceeds iff no error |
| Validation.ValidateBooking | backend/middleware/validation.js:141-167 | proceeds iff the flight id is a positive number and the seat matches `^[A-Z]\d+$`; each of the four errors is reported iff its condition holds |
| Validation.ValidateNumericId | backend/middleware/validation.js:180-191 | passes iff the id is truthy, numeric and positive; otherwise 'Invalid ID parameter' |
| Validation.NumericIdGuard | backend/middleware/validation.js:180-191 | on a route, the guard passes iff the route has a parameter of the name it reads and that parameter is truthy, numeric and positive |
| Validation.StatsRouteGuard | backend/routes/bookings.js:106 | as routed, the stats guard refuses every request with 'Invalid ID parameter', whatever the flight id |
| Validation.StatsRouteGuardFixed | backend/routes/bookings.js:106 | reading the `flightId` segment, the guard passes iff the flight id is truthy, numeric and positive |
| Validation.StatsRouteRefusesValidId | backend/routes/bookings.js:106 | flight id 42 is a valid id, yet the routed guard refuses it and the corrected one lets it through |
| Validation.NumericIdAccepted | backend/middleware/validation.js:184 | a textual route id passes iff it is a non-empty run of digits that are not all `0` |
| Validation.DecimalPositive | backend/middleware/validation.js:184 | a digit string denotes a positive number iff some digit is not `0` |
| Validation.SeatExamples | backend/tests/api.test.js:218-229 | `"invalid"` is not a seat number; `"A1"` and `"B12"` are |
| Schema.AdjustSeats | backend/controllers/bookingController.js:102-106 | the seat UPDATE changes `availableSeats` by the delta on the rows with the id and leaves every other row alone |
| Schema.AdjustSeatsInverse | backend/controllers/bookingController.js:233-237 | taking a seat and giving it back restores the flights table exactly |
| Schema.AdjustSeatsAt | backend/controllers/bookingController.js:102-106 | with ascending ids, the seat UPDATE on a flight's id changes that one row's free seats and no other row |
| Schema.ConfirmedOnUpdate | backend/controllers/bookingController.js:226-230 | replacing one booking row changes a flight's CONFIRMED count by the difference of the two rows' contributions |
| Schema.ConfirmedOnAbsent | backend/controllers/flightController.js:170-176 | a flight that no booking refers to has no CONFIRMED booking |
| Store.Database.Rollback | backend/oracle-connection.js:218-229 | the three tables are back to the state saved when the transaction began; identity sequences and the clock keep their values |
| Bookings.JoinedOwnedIndex | backend/controllers/bookingController.js:126-134 | the first booking with this id and owner that joins to a flight; none when no booking has all three |
| Bookings.GetBookingById | backend/controllers/bookingController.js:124-138 | returns a row only when a booking has both the id and the owner and joins to a flight; otherwise 'Booking not found'; the row is that booking joined with its flight |
| Bookings.GetBookingByIdFinds | backend/controllers/bookingController.js:124-138 | in a consistent state every booking is found by its own id and owner |
| Bookings.NewestFirstMembers | backend/controllers/bookingController.js:168-177 | a detail is listed iff some booking of the user joins to it |
| Bookings.UserBookingsExactly | backend/controllers/bookingController.js:166-177 | getUserBookings returns exactly the user's bookings joined with their flights |
| Bookings.NewestFirstOrdered | backend/controllers/bookingController.js:175 | rows stored in ascending booking date come back in strictly descending booking date |
| Bookings.UserBookingsNewestFirst | backend/controllers/bookingController.js:166-177 | in a consistent state getUserBookings lists newest first |
| Bookings.FlightBookingStats | backend/controllers/bookingController.js:252-281 | total is the number of the flight's bookings, and confirmed, cancelled and pending are the numbers of them in each status (CountFlight, CountStatus); total = confirmed + cancelled + pending; confirmed is the CONFIRMED count the seat invariant uses; the total is 0 iff no booking refers to the flight |
| Bookings.CountAppend | backend/controllers/bookingController.js:252-281 | appending a booking adds one to the flight's count iff it refers to the flight, and to a status count iff it also has that status |
| Bookings.StatsMatchSeats | backend/controllers/bookingController.js:254-261 | in a consistent state the confirmed count equals total seats minus available seats |
| Bookings.ActiveFlightIndex | backend/controllers/bookingController.js:41-50 | finds a flight with the id that is ACTIVE, or reports that none exists |
| Bookings.RejectionReasons | backend/controllers/bookingController.js:28-69 | for well-formed input: 'user not found' iff the user is absent; 'flight not found or inactive' iff the user exists and no ACTIVE flight has the id; an accepted request has a user, an ACTIVE flight with a free seat, and a free seat number |
| Bookings.SeatRejectionReasons | backend/controllers/bookingController.js:54-69 | with unique flight ids: 'No seats available' iff the user exists and the ACTIVE flight has no free seat; 'Seat already booked' iff the user exists, the ACTIVE flight has a free seat and the seat is held by a CONFIRMED booking; accepted iff the user exists, the ACTIVE flight has a free seat and the seat is free |
| Bookings.LatestConfirmed | backend/controllers/bookingController.js:84-99 | the re-read finds nothing iff no CONFIRMED booking matches (user, flight, seat); otherwise it returns the id of a matching booking with no matching booking after it, the newest |
| Bookings.ReReadFindsNewBooking | backend/controllers/bookingController.js:84-99 | after the INSERT the new row is the only CONFIRMED booking matching (user, flight, seat), so the re-read returns the new id |
| Bookings.BookingKeepsFlightsAndBookings | backend/controllers/bookingController.js:72-81 | a booking keeps ids, foreign keys and booking-date order well formed |
| Bookings.BookingKeepsSeatsUnique | backend/controllers/bookingController.js:60-69 | a booking keeps at most one CONFIRMED booking per (flight, seat) |
| Bookings.BookingKeepsSeatsAccounted | backend/controllers/bookingController.js:102-106 | a booking keeps `availableSeats + #CONFIRMED == totalSeats` for every flight |
| Bookings.BookingPreservesConsistency | backend/controllers/bookingController.js:26-111 | a committed booking preserves `Consistent` |
| Bookings.BookingEffect | backend/controllers/bookingController.js:72-106 | a successful booking appends exactly one CONFIRMED row priced at the flight's current price, lowers that flight's free seats by exactly one, and changes nothing else |
| Bookings.SeatCannotBeBookedTwice | backend/controllers/bookingController.js:59-69 | once a seat is booked, every later request for it, by anyone, is rejected |
| Bookings.LastSeatGoesOnce | backend/controllers/bookingController.js:54-57 | after the last seat is taken, a valid request from a known user on that flight fails with 'No seats available' |
| Bookings.CommittedBookingVisible | backend/controllers/bookingController.js:113-114 | after the commit, getBookingById with the new id and the user returns the new booking joined with its flight |
| Bookings.BookSeat | backend/controllers/bookingController.js:26-111 | the unit of work fails with the first failing check, or commits exactly `CommitBooking` and returns the new id; on failure it leaves the id sequence and clock alone |
| Bookings.CreateBooking | backend/controllers/bookingController.js:12-119 | fails iff a check fails, with that check's error and every table unchanged; otherwise the state is exactly `CommitBooking` and the result is the new CONFIRMED booking for that user, flight and seat; the invariant holds after |
| Bookings.OwnedIndex | backend/controllers/bookingController.js:208-217 | the first booking with both the id and the owner, or none |
| Bookings.SetCancelled | backend/controllers/bookingController.js:226-230 | the UPDATE sets CANCELLED on the rows with the id and changes nothing else, prices included |
| Bookings.CancelTouchesOneRow | backend/controllers/bookingController.js:221-230 | in a consistent state an accepted cancellation changes exactly the owned row, which was CONFIRMED |
| Bookings.CancelKeepsFlightsAndBookings | backend/controllers/bookingController.js:226-237 | a cancellation keeps ids, foreign keys and date order well formed |
| Bookings.CancelKeepsSeatsUnique | backend/controllers/bookingController.js:226-230 | a cancellation keeps at most one CONFIRMED booking per (flight, seat) |
| Bookings.CancelKeepsSeatsAccounted | backend/controllers/bookingController.js:226-237 | a cancellation keeps `availableSeats + #CONFIRMED == totalSeats` for every flight |
| Bookings.CancelPreservesConsistency | backend/controllers/bookingController.js:203-240 | a committed cancellation preserves `Consistent` |
| Bookings.CancelTwiceFails | backend/controllers/bookingController.js:221-223 | cancelling the same booking again fails with 'Booking is already cancelled' |
| Bookings.CancelUndoesBooking | backend/controllers/bookingController.js:226-237 | cancelling a booking just made restores the flights table exactly; the booking stays, CANCELLED |
| Bookings.CancelWork | backend/controllers/bookingController.js:206-240 | the unit of work fails with 'Booking not found' or 'already cancelled', or commits exactly `CommitCancel` |
| Bookings.CancelBooking | backend/controllers/bookingController.js:203-247 | fails iff a check fails, with every table unchanged; otherwise the state is exactly `CommitCancel`; the invariant holds after |
| Flights.GetFlightById | backend/controllers/flightController.js:42-54 | 'Flight not found' iff no row has the id; otherwise a row of the table with that id |
| Flights.Select | backend/controllers/flightController.js:14-16 | a row is selected iff it is in the table and satisfies the WHERE clause; each selected row appears as many times as in the table, and no more rows come back than the table holds |
| Flights.InsertByDeparture | backend/controllers/flightController.js:17 | the insertion adds exactly that row, one more row in all, and the head is either the new row or the old head |
| Flights.InsertByDepartureOrdered | backend/controllers/flightController.js:17 | inserting into a list ordered by departure time keeps it ordered |
| Flights.SortByDeparture | backend/controllers/flightController.js:17 | the result is ordered by departure time and is a permutation of the input |
| Flights.AllFlightsActiveAndOrdered | backend/controllers/flightController.js:10-32 | getAllFlights returns every ACTIVE flight and nothing else, as many times as the table holds it, by departure time |
| Flights.SearchFlights | backend/controllers/flightController.js:80-86 | 'cities are required' iff either city is missing or empty |
| Flights.SearchFlightsExactly | backend/controllers/flightController.js:88-104 | a flight is a result iff it is ACTIVE, has a free seat and matches both cities ignoring case, as many times as the table holds it; results ascend by departure time |
| Flights.SearchIgnoresCase | backend/controllers/flightController.js:93-94 | cities differing only in case give the same results |
| Flights.BookedSeats | backend/controllers/flightController.js:245-253 | as many seat numbers as the flight has CONFIRMED bookings |
| Flights.BookedSeatsExactly | backend/controllers/flightController.js:247-253 | a seat is listed iff a CONFIRMED booking of the flight holds it |
| Flights.BookedSeatsDistinct | backend/controllers/flightController.js:247-253 | with one CONFIRMED booking per seat, no seat is listed twice |
| Flights.BookedSeatsAccountForCapacity | backend/controllers/flightController.js:247-253 | in a consistent state booked seats plus free seats equal the capacity |
| Flights.CreateFlightRejection | backend/controllers/flightController.js:143-167 | in the source's order: 'fields required' iff a field is missing or falsy (0 seats and 0 price included); 'total seats' iff the seats are negative; 'price' iff the seats are positive and the price negative; 'flight number exists' iff all that passes and the number is taken; accepted iff every check passes |
| Flights.ZeroIsMissing | backend/controllers/flightController.js:144-147 | zero seats or a zero price is reported as a missing field, not as a non-positive one |
| Flights.FlightNumberIndex | backend/controllers/flightController.js:160-163 | finds a row with the flight number; none iff the number is unused |
| Flights.CreateFlightKeepsFlights | backend/controllers/flightController.js:170-176 | the new flight keeps ids ascending and flight numbers unique |
| Flights.CreateFlightKeepsBookings | backend/controllers/flightController.js:170-176 | the new flight keeps the bookings' foreign keys valid |
| Flights.CreateFlightKeepsSeats | backend/controllers/flightController.js:174 | the new flight starts with `availableSeats == totalSeats` and no bookings, so the seat invariant holds for it |
| Flights.CreateFlightPreservesConsistency | backend/controllers/flightController.js:170-176 | a created flight preserves `Consistent` |
| Flights.CreatedFlightReadBack | backend/controllers/flightController.js:178-186 | the re-read by flight number and then by id yields the new row |
| Flights.CreateFlight | backend/controllers/flightController.js:130-191 | fails iff a check fails, writing nothing; otherwise the state is exactly `CommitFlight`, and the result is the new ACTIVE flight with a new id and every seat free |
| Flights.ParseStatus | backend/controllers/flightController.js:216-219 | a recognised status string is the name of the status it parses to |
| Flights.ParseStatusName | backend/controllers/flightController.js:217 | each status name parses back to its status |
| Flights.UpdateRejection | backend/controllers/flightController.js:208-226 | accepted iff a given price is positive, a given status is one of ACTIVE, CANCELLED, DELAYED, and some field is given |
| Flights.ApplyChanges | backend/controllers/flightController.js:198-230 | a SET list never changes the id, the flight number, the route, the times or the seat counts |
| Flights.ApplyChangesAppend | backend/controllers/flightController.js:230 | applying two SET lists in turn is applying their concatenation |
| Flights.UpdateRows | backend/controllers/flightController.js:230-231 | the UPDATE rewrites the rows with the id and leaves the others alone |
| Flights.UpdateChangesOnlySupplied | backend/controllers/flightController.js:198-230 | the updated row carries each supplied field's new value and keeps every other field |
| Flights.UpdateUnknownChangesNothing | backend/controllers/flightController.js:228-235 | an update of an unknown id changes nothing |
| Flights.UpdatePreservesConsistency | backend/controllers/flightController.js:196-235 | an update preserves `Consistent` |
| Flights.UpdateFlight | backend/controllers/flightController.js:196-240 | a rejected update returns its error and writes nothing; otherwise only the flights table changes, by exactly `UpdateRows`, and the row is read back; an unknown id fails and changes nothing |
| Users.OrNull | backend/controllers/userController.js:56 | `value \|\| null` keeps a non-empty value and turns a missing or empty one into null |
| Users.RegistrationRejection | backend/controllers/userController.js:20-49 | in the source's order: 'fields required' iff a field is missing or empty; then 'invalid e-mail' iff the e-mail fails the pattern; then 'password too short' iff it is under 8; then 'username exists' iff it is taken; then 'e-mail registered' iff it is taken; accepted iff every check passes |
| Users.UsernameIndex | backend/controllers/userController.js:59-62 | finds a row with the username; none iff the username is unused |
| Users.RegistrationPreservesConsistency | backend/controllers/userController.js:33-57 | a registration preserves `Consistent`, including unique usernames and e-mails |
| Users.RegistrationKeepsUsers | backend/controllers/userController.js:33-57 | the new row keeps ids ascending, usernames and e-mails unique, and every stored e-mail holding an `@` |
| Users.RegisteredUserReadBack | backend/controllers/userController.js:59-66 | the re-read by username finds the new row, so 'Failed to retrieve' cannot happen |
| Users.RegisterUser | backend/controllers/userController.js:16-89 | fails iff a check fails, inserting nothing; otherwise the state is exactly `CommitRegistration`, and the result carries the new id, the username, the e-mail and the names stored with `\|\| null` |
| Users.LoginIndex | backend/controllers/userController.js:100-105 | the first user whose username or e-mail equals the login, or none |
| Users.LoginUser | backend/controllers/userController.js:94-116 | only 'fields required' or 'Invalid username or password' can fail; 'fields required' iff either field is missing; a success is a user named by username or e-mail whose hash matches the password |
| Users.LoginFailuresIndistinguishable | backend/controllers/userController.js:107-116 | an unknown login and a wrong password give the same error |
| Users.RegisteredUserLogsIn | backend/controllers/userController.js:53-57 | a newly registered user logs in with their username and password |
| Users.GetUserProfile | backend/controllers/userController.js:143-154 | 'User not found' iff no row has the id; otherwise that user's profile |
| Users.ProfileChanges | backend/controllers/userController.js:183-200 | the SET list is empty iff no field is supplied |
| Users.ApplyProfileChanges | backend/controllers/userController.js:204 | a profile update never changes the id, the username, the e-mail or the password hash |
| Users.ApplyProfileChangesAppend | backend/controllers/userController.js:204 | applying two SET lists in turn is applying their concatenation |
| Users.ProfileUpdateChangesOnlySupplied | backend/controllers/userController.js:183-205 | the updated row carries each supplied field's value, null included, and keeps every other field |
| Users.UpdateUserRows | backend/controllers/userController.js:204-205 | the UPDATE rewrites the row with the id and leaves the others alone |
| Users.UpdateUnknownUserChangesNothing | backend/controllers/userController.js:204-207 | an update of an unknown id changes nothing |
| Users.SameUserKeysConsistent | backend/controllers/userController.js:204-205 | rewriting user rows without touching ids, usernames or e-mails preserves `Consistent` |
| Users.UpdateUserProfile | backend/controllers/userController.js:176-212 | no field gives 'No fields to update' with nothing changed; otherwise only the users table changes, by exactly `UpdateUserRows`, and the profile is read back; an unknown id fails and changes nothing |
| Users.SetPasswordHash | backend/controllers/userController.js:240-243 | only that user's `password_hash` is replaced |
| Users.PasswordChangeReasons | backend/controllers/userController.js:219-236 | 'too short' iff the new password is missing, empty or shorter than 8; then 'User not found' iff the id is unknown; an accepted change names an existing user whose hash matches the old password |
| Users.PasswordChangeAccepted | backend/controllers/userController.js:219-236 | with unique user ids, for a known user: accepted iff the new password has at least 8 characters and the old one matches the user's hash; 'Current password is incorrect' iff the new password is valid and the old one does not match |
| Users.ChangedPasswordLogsIn | backend/controllers/userController.js:232-243 | after the change the user logs in with the new password |
| Users.ChangePassword | backend/controllers/userController.js:217-252 | fails iff a check fails, in order, with the hash unchanged; otherwise only that user's hash is replaced; the invariant holds after |

## Left out

- Oracle connection and pool management, and query execution: this is I/O. Only the commit-or-rollback effect of `executeTransaction` is kept.
- Row locks (`FOR UPDATE`) and concurrent requests: every operation runs atomically and in sequence, which is the serial view the locks provide.
- bcrypt and jsonwebtoken: the stored hash is a parameter, the comparison is a function parameter, and tokens are not produced.
- Routes, Express setup, HTTP status codes, logging and the whole frontend. The one exception is the guard of the booking-statistics route, which is modelled under "## Findings".
- Timestamps: `created_at` and `updated_at` are not modelled. `booking_date` is an abstract counter that rises with every booking, so ties between booking dates do not occur.
- Flights.SearchFlights: the optional `departureDate` filter (`TRUNC(departure_time) = TRUNC(:departureDate)`) is not modelled, because times are abstract.
- Flights.SortByDeparture: `ORDER BY` leaves the order of equal departure times unspecified. The model picks one order (the stable one), and its lemmas state only what SQL promises: ordered, and a permutation.
- Validation.LowerAscii: folds only ASCII capitals, whereas `toLowerCase()` and Oracle's `LOWER` also fold non-ASCII letters.
- Validation.UsernameCheck, Validation.PasswordCheck: lengths are counted in characters, not in UTF-16 code units as `String.length` does.
- Validation.ValidateFlightSearch: the 50-character maximum on each city name is counted in characters, not UTF-16 code units.
- Users.RegistrationRejection: the 8-character minimum on the password is counted in characters, not UTF-16 code units.
- Users.PasswordChangeRejection: the 8-character minimum on the new password is counted in characters, not UTF-16 code units.
- Validation.NumericValue: text is read only as plain decimal digits. JavaScript's `Number` also accepts signs, blanks, fractions, exponents and hex, and non-integer or NaN numbers are not represented.
- Prices are `real`, and totals are copied, never summed. Rounding is not modelled.
- Request bodies whose fields have the wrong JSON type are out of scope: a number where a string is expected, `null` for the price or status of `updateFlight`, or `undefined` as the old password of `changePassword`.
- Flights.CreateFlightRejection: `departureTime` and `arrivalTime` are abstract numbers (`Option<int>`), so the empty string that `!departureTime` rejects cannot be written. A missing time is `None`, and the model rejects it the same way.
- Flights.UpdateFlight: `airlineName` is `Option<string>`, so a JSON `null` cannot be written. The source lets `null` through `airlineName !== undefined` and runs `SET airline_name = NULL`; the model has no NULL airline name.
- Oracle stores an empty string as NULL. `updateFlight` and `updateUserProfile` store a supplied empty string as given.
- Users.LoginUser: when the login string equals one user's username and another user's e-mail, SQL returns the two rows in no particular order. The model takes the first row in table order. This cannot arise through the registration validator, which forbids `@` in usernames.
- Flights.CreateFlight and Users.RegisterUser: the check for an existing flight number, username or e-mail and the INSERT are separate statements outside a transaction. The model runs them atomically, so the race between them is not captured.
- The 'Failed to retrieve newly created user' branch of `registerUser` and the re-read of the new booking id in `createBooking` are proved never to fail. They are not modelled as error paths.
- The `stats.length === 0` branch of `getFlightBookingStats` cannot be reached, because an aggregate query always returns one row. Its zeros are the zeros of an empty count.

## Findings

| source | as written | input that shows it | evidently intended | confidence | as-written member | corrected member |
|---|---|---|---|---|---|---|
| backend/routes/bookings.js:106 | `validateNumericId` guards `/flight/:flightId/stats`, but it reads `req.params.id` (backend/middleware/validation.js:182), which that route does not have, so every request gets 400 'Invalid ID parameter' and `getFlightBookingStats` is never reached | `GET /api/bookings/flight/42/stats` | the guard checks the `flightId` segment, so a positive flight id reaches the controller | high; not executed | Validation.StatsRouteGuard | Validation.StatsRouteGuardFixed |
