/**
 * Request validators of the HTTP layer (backend/middleware/validation.js) and the
 * string patterns the controllers reuse: the seat-number pattern, the e-mail
 * pattern and the username character class.
 *
 * A validator inspects a request body, gathers one error list across all fields
 * and either passes the request on (`next()`) or answers 400 with the list.
 */
module Validation {

  import opened Wrappers

  /** A JSON scalar as it may arrive for an id: missing, a number, or text. */
  datatype Scalar = Absent | Num(n: int) | Text(s: string)

  datatype ValidationError =
    | UsernameRequired | UsernameTooShort | UsernameTooLong | UsernameInvalidChars
    | EmailRequired | EmailInvalid
    | PasswordRequired | PasswordTooShort | PasswordTooLong
    | LoginRequired | LoginPasswordRequired
    | DepartureCityRequired | DepartureCityTooLong
    | ArrivalCityRequired | ArrivalCityTooLong | SameCities
    | FlightIdRequired | FlightIdNotPositive
    | SeatNumberRequired | SeatNumberInvalid

  /** What the middleware does with the request. */
  datatype Response =
    | Proceed                                        // next()
    | ValidationFailed(errors: seq<ValidationError>) // 400 'Validation failed'
    | InvalidIdParameter                             // 400 'Invalid ID parameter'

  predicate Reports(resp: Response, e: ValidationError) {
    resp.ValidationFailed? && e in resp.errors
  }

  // ---------------------------------------------------------------------------
  // JavaScript truthiness and character classes
  // ---------------------------------------------------------------------------

  /** `!!s` for a string field: present and not the empty string. */
  predicate Present(s: Option<string>) {
    s.Some? && s.value != ""
  }

  /** `!!v` for a scalar: 0, "" and undefined are falsy. */
  predicate Truthy(v: Scalar) {
    match v
    case Absent => false
    case Num(n) => n != 0
    case Text(s) => s != ""
  }

  predicate IsDigit(c: char) { '0' <= c <= '9' }

  predicate IsUpper(c: char) { 'A' <= c <= 'Z' }

  predicate IsLower(c: char) { 'a' <= c <= 'z' }

  /** The JavaScript `\s` class: ASCII blanks plus the Unicode space separators. */
  predicate IsJsWhitespace(c: char) {
    var n := c as int;
    (9 <= n <= 13) || n == 32 || n == 0xA0 || n == 0x1680 || (0x2000 <= n <= 0x200A)
    || n == 0x2028 || n == 0x2029 || n == 0x202F || n == 0x205F || n == 0x3000 || n == 0xFEFF
  }

  /** `[a-zA-Z0-9_-]` */
  predicate IsUsernameChar(c: char) {
    IsLower(c) || IsUpper(c) || IsDigit(c) || c == '_' || c == '-'
  }

  // ---------------------------------------------------------------------------
  // Patterns
  // ---------------------------------------------------------------------------

  /** `^[A-Z]\d+$`: one upper-case letter followed by one or more digits. */
  predicate IsSeatNumber(s: string) {
    |s| >= 2 && IsUpper(s[0]) && forall i :: 1 <= i < |s| ==> IsDigit(s[i])
  }

  /** `^[a-zA-Z0-9_-]+$` */
  predicate IsUsernameText(s: string) {
    |s| >= 1 && forall i :: 0 <= i < |s| ==> IsUsernameChar(s[i])
  }

  /** `[^\s@]+` for a whole string. */
  predicate NoSpaceOrAt(s: string) {
    |s| >= 1 && forall i :: 0 <= i < |s| ==> !IsJsWhitespace(s[i]) && s[i] != '@'
  }

  /**
   * `^[^\s@]+@[^\s@]+\.[^\s@]+$`, read literally: the string splits at an `@` and
   * a later `.` into three non-empty runs free of blanks and `@`.
   */
  predicate MatchesEmailPattern(s: string) {
    exists a, d :: 0 < a < d < |s| && EmailSplit(s, a, d)
  }

  /** `s[a]` is the `@` and `s[d]` the `.` of a match of the e-mail pattern. */
  predicate EmailSplit(s: string, a: int, d: int) {
    0 < a < d < |s| && s[a] == '@' && s[d] == '.' &&
    NoSpaceOrAt(s[..a]) && NoSpaceOrAt(s[a + 1..d]) && NoSpaceOrAt(s[d + 1..])
  }

  function AtCount(s: string): (n: nat)
    ensures n <= |s|
  {
    if s == [] then 0 else AtCount(s[..|s| - 1]) + (if s[|s| - 1] == '@' then 1 else 0)
  }

  /**
   * The same language described field by field: no blank anywhere, exactly one
   * `@`, a non-empty local part, and a domain holding a `.` that is neither its
   * first nor its last character.
   */
  predicate IsWellFormedEmail(s: string) {
    (forall i :: 0 <= i < |s| ==> !IsJsWhitespace(s[i])) &&
    AtCount(s) == 1 &&
    exists a, d :: 0 < a && a + 1 < d && d + 1 < |s| && s[a] == '@' && s[d] == '.'
  }

  lemma {:induction false} AtCountAppend(x: string, y: string)
    ensures AtCount(x + y) == AtCount(x) + AtCount(y)
    decreases |y|
  {
    if y == [] {
      assert x + y == x;
    } else {
      assert (x + y)[..|x + y| - 1] == x + y[..|y| - 1];
      AtCountAppend(x, y[..|y| - 1]);
    }
  }

  lemma {:induction false} AtCountZero(s: string)
    ensures AtCount(s) == 0 <==> forall i :: 0 <= i < |s| ==> s[i] != '@'
  {
    if s != [] {
      AtCountZero(s[..|s| - 1]);
      assert forall i :: 0 <= i < |s| - 1 ==> s[..|s| - 1][i] == s[i];
    }
  }

  /** Splits `s` around position `a` for counting. */
  lemma AtCountAround(s: string, a: int)
    requires 0 <= a < |s|
    ensures AtCount(s) == AtCount(s[..a]) + (if s[a] == '@' then 1 else 0) + AtCount(s[a + 1..])
  {
    var x, c, y := s[..a], s[a], s[a + 1..];
    assert s == (x + [c]) + y;
    AtCountAppend(x + [c], y);
    AtCountAppend(x, [c]);
    AtCountOne(c);
  }

  lemma AtCountOne(c: char)
    ensures AtCount([c]) == if c == '@' then 1 else 0
  {
    assert [c][..0] == [];
  }

  lemma CleanSlice(s: string, lo: int, hi: int)
    requires 0 <= lo < hi <= |s|
    requires forall k :: lo <= k < hi ==> !IsJsWhitespace(s[k]) && s[k] != '@'
    ensures NoSpaceOrAt(s[lo..hi])
  {
    forall i | 0 <= i < hi - lo ensures s[lo..hi][i] == s[lo + i] { }
  }

  lemma PatternIsWellFormed(s: string)
    requires MatchesEmailPattern(s)
    ensures IsWellFormedEmail(s)
  {
    var a, d :| 0 < a < d < |s| && EmailSplit(s, a, d);
    SplitHasNoSpace(s, a, d);
    SplitHasOneAt(s, a, d);
    assert 0 < a && a + 1 < d && d + 1 < |s| && s[a] == '@' && s[d] == '.';
  }

  /** The three runs of a match are free of blanks, and so is the whole string. */
  lemma SplitHasNoSpace(s: string, a: int, d: int)
    requires EmailSplit(s, a, d)
    ensures forall i :: 0 <= i < |s| ==> !IsJsWhitespace(s[i])
  {
    forall i | 0 <= i < |s| ensures !IsJsWhitespace(s[i]) {
      if i < a { assert s[i] == s[..a][i]; }
      else if a < i < d { assert s[i] == s[a + 1..d][i - a - 1]; }
      else if d < i { assert s[i] == s[d + 1..][i - d - 1]; }
    }
  }

  /** The `@` of a match is the only one. */
  lemma SplitHasOneAt(s: string, a: int, d: int)
    requires EmailSplit(s, a, d)
    ensures AtCount(s) == 1
  {
    AtCountAround(s, a);
    AtCountZero(s[..a]);
    AtCountAround(s[a + 1..], d - a - 1);
    assert s[a + 1..][..d - a - 1] == s[a + 1..d];
    assert s[a + 1..][d - a - 1 + 1..] == s[d + 1..];
    AtCountZero(s[a + 1..d]);
    AtCountZero(s[d + 1..]);
  }

  lemma WellFormedIsPattern(s: string)
    requires IsWellFormedEmail(s)
    ensures MatchesEmailPattern(s)
  {
    var a, d :| 0 < a && a + 1 < d && d + 1 < |s| && s[a] == '@' && s[d] == '.';
    AtCountAround(s, a);
    AtCountZero(s[..a]);
    AtCountZero(s[a + 1..]);
    forall k | 0 <= k < |s| && k != a ensures s[k] != '@' {
      if k < a { assert s[..a][k] == s[k]; } else { assert s[a + 1..][k - a - 1] == s[k]; }
    }
    CleanSlice(s, 0, a);
    CleanSlice(s, a + 1, d);
    CleanSlice(s, d + 1, |s|);
    assert EmailSplit(s, a, d);
  }

  /** The regular expression and the field-by-field description accept the same strings. */
  lemma EmailPatternCharacterized(s: string)
    ensures MatchesEmailPattern(s) <==> IsWellFormedEmail(s)
  {
    if MatchesEmailPattern(s) { PatternIsWellFormed(s); }
    if IsWellFormedEmail(s) { WellFormedIsPattern(s); }
  }

  /** ASCII case folding standing in for `toLowerCase()`. */
  function LowerAscii(s: string): (r: string)
    ensures |r| == |s|
    ensures forall i :: 0 <= i < |s| ==> r[i] == (if IsUpper(s[i]) then (s[i] as int + 32) as char else s[i])
  {
    if s == [] then [] else
      [if IsUpper(s[0]) then (s[0] as int + 32) as char else s[0]] + LowerAscii(s[1..])
  }

  /** Two strings equal ignoring ASCII case. */
  predicate SameIgnoringCase(x: string, y: string) {
    LowerAscii(x) == LowerAscii(y)
  }

  // ---------------------------------------------------------------------------
  // Numbers written as text (route parameters and JSON strings)
  // ---------------------------------------------------------------------------

  predicate IsDecimalText(s: string) {
    |s| >= 1 && forall i :: 0 <= i < |s| ==> IsDigit(s[i])
  }

  function DecimalValue(s: string): nat
    requires forall i :: 0 <= i < |s| ==> IsDigit(s[i])
  {
    if s == [] then 0
    else
      var c := s[|s| - 1];
      assert IsDigit(c);
      DecimalValue(s[..|s| - 1]) * 10 + (c as int - '0' as int)
  }

  /** A decimal string denotes a positive number iff some digit is not `0`. */
  lemma {:induction false} DecimalPositive(s: string)
    requires forall i :: 0 <= i < |s| ==> IsDigit(s[i])
    ensures DecimalValue(s) > 0 <==> exists i :: 0 <= i < |s| && s[i] != '0'
  {
    if s != [] {
      var p := s[..|s| - 1];
      DecimalPositive(p);
      assert forall i :: 0 <= i < |p| ==> p[i] == s[i];
      if exists i :: 0 <= i < |s| && s[i] != '0' {
        var i :| 0 <= i < |s| && s[i] != '0';
        if i < |p| { assert p[i] != '0'; }
      }
    }
  }

  /** `Number(v)` unless it is NaN; text is read as a decimal integer. */
  function NumericValue(v: Scalar): Option<int> {
    match v
    case Absent => None
    case Num(n) => Some(n)
    case Text(s) => if IsDecimalText(s) then Some(DecimalValue(s)) else None
  }

  /** `!(!v || isNaN(v) || v <= 0)` */
  predicate PositiveId(v: Scalar) {
    Truthy(v) && NumericValue(v).Some? && NumericValue(v).value > 0
  }

  /**
   * A route parameter (always text) passes `validateNumericId` iff it is a
   * non-empty run of digits not all of which are `0`.
   */
  lemma NumericIdAccepted(s: string)
    ensures PositiveId(Text(s)) <==> IsDecimalText(s) && exists i :: 0 <= i < |s| && s[i] != '0'
  {
    if IsDecimalText(s) { DecimalPositive(s); }
  }

  // ---------------------------------------------------------------------------
  // Field acceptance
  // ---------------------------------------------------------------------------

  predicate UsernameAccepted(u: Option<string>) {
    Present(u) && 3 <= |u.value| <= 50 && IsUsernameText(u.value)
  }

  predicate EmailAccepted(e: Option<string>) {
    Present(e) && MatchesEmailPattern(e.value)
  }

  predicate PasswordAccepted(p: Option<string>) {
    Present(p) && 8 <= |p.value| <= 255
  }

  predicate CityAccepted(c: Option<string>) {
    Present(c) && |c.value| <= 50
  }

  // ---------------------------------------------------------------------------
  // The middleware
  // ---------------------------------------------------------------------------

  /** The username block of validateUserRegistration: first failing rule only. */
  function UsernameCheck(username: Option<string>): (errors: seq<ValidationError>)
    ensures |errors| <= 1
    ensures errors == [] <==> UsernameAccepted(username)
    ensures UsernameRequired in errors <==> !Present(username)
    ensures UsernameTooShort in errors <==> Present(username) && |username.value| < 3
    ensures UsernameTooLong in errors <==> Present(username) && |username.value| > 50
    ensures UsernameInvalidChars in errors <==>
      Present(username) && 3 <= |username.value| <= 50 && !IsUsernameText(username.value)
    ensures forall e :: e in errors ==> e.UsernameRequired? || e.UsernameTooShort? || e.UsernameTooLong? || e.UsernameInvalidChars?
  {
    if !Present(username) then [UsernameRequired]
    else if |username.value| < 3 then [UsernameTooShort]
    else if |username.value| > 50 then [UsernameTooLong]
    else if !IsUsernameText(username.value) then [UsernameInvalidChars]
    else []
  }

  /** The e-mail block of validateUserRegistration. */
  function EmailCheck(email: Option<string>): (errors: seq<ValidationError>)
    ensures |errors| <= 1
    ensures errors == [] <==> EmailAccepted(email)
    ensures EmailRequired in errors <==> !Present(email)
    ensures EmailInvalid in errors <==> Present(email) && !MatchesEmailPattern(email.value)
    ensures forall e :: e in errors ==> e.EmailRequired? || e.EmailInvalid?
  {
    if !Present(email) then [EmailRequired]
    else if !MatchesEmailPattern(email.value) then [EmailInvalid]
    else []
  }

  /** The password block of validateUserRegistration. */
  function PasswordCheck(password: Option<string>): (errors: seq<ValidationError>)
    ensures |errors| <= 1
    ensures errors == [] <==> PasswordAccepted(password)
    ensures PasswordRequired in errors <==> !Present(password)
    ensures PasswordTooShort in errors <==> Present(password) && |password.value| < 8
    ensures PasswordTooLong in errors <==> Present(password) && |password.value| > 255
    ensures forall e :: e in errors ==> e.PasswordRequired? || e.PasswordTooShort? || e.PasswordTooLong?
  {
    if !Present(password) then [PasswordRequired]
    else if |password.value| < 8 then [PasswordTooShort]
    else if |password.value| > 255 then [PasswordTooLong]
    else []
  }

  /** Where the username errors of a registration come from: the username block alone. */
  lemma UsernameErrorsOnly(username: Option<string>, email: Option<string>, password: Option<string>)
    ensures var errs := UsernameCheck(username) + EmailCheck(email) + PasswordCheck(password);
      && (UsernameRequired in errs <==> !Present(username))
      && (UsernameTooShort in errs <==> Present(username) && |username.value| < 3)
      && (UsernameTooLong in errs <==> Present(username) && |username.value| > 50)
      && (UsernameInvalidChars in errs <==>
            Present(username) && 3 <= |username.value| <= 50 && !IsUsernameText(username.value))
  {
    var e, p := EmailCheck(email), PasswordCheck(password);
    assert UsernameRequired !in e && UsernameTooShort !in e && UsernameTooLong !in e && UsernameInvalidChars !in e;
    assert UsernameRequired !in p && UsernameTooShort !in p && UsernameTooLong !in p && UsernameInvalidChars !in p;
  }

  /** The e-mail errors of a registration come from the e-mail block alone. */
  lemma EmailErrorsOnly(username: Option<string>, email: Option<string>, password: Option<string>)
    ensures var errs := UsernameCheck(username) + EmailCheck(email) + PasswordCheck(password);
      && (EmailRequired in errs <==> !Present(email))
      && (EmailInvalid in errs <==> Present(email) && !MatchesEmailPattern(email.value))
  {
    var u, p := UsernameCheck(username), PasswordCheck(password);
    assert EmailRequired !in u && EmailInvalid !in u;
    assert EmailRequired !in p && EmailInvalid !in p;
  }

  /** The password errors of a registration come from the password block alone. */
  lemma PasswordErrorsOnly(username: Option<string>, email: Option<string>, password: Option<string>)
    ensures var errs := UsernameCheck(username) + EmailCheck(email) + PasswordCheck(password);
      && (PasswordRequired in errs <==> !Present(password))
      && (PasswordTooShort in errs <==> Present(password) && |password.value| < 8)
      && (PasswordTooLong in errs <==> Present(password) && |password.value| > 255)
  {
    var front := UsernameCheck(username) + EmailCheck(email);
    assert PasswordRequired !in front && PasswordTooShort !in front && PasswordTooLong !in front;
  }

  /** validateUserRegistration: at most one error per field, every field checked. */
  method ValidateUserRegistration(username: Option<string>, email: Option<string>, password: Option<string>)
    returns (resp: Response)
    ensures resp.Proceed? <==> UsernameAccepted(username) && EmailAccepted(email) && PasswordAccepted(password)
    ensures !resp.InvalidIdParameter?
    ensures resp.ValidationFailed? ==> 1 <= |resp.errors| <= 3
    ensures Reports(resp, UsernameRequired) <==> !Present(username)
    ensures Reports(resp, UsernameTooShort) <==> Present(username) && |username.value| < 3
    ensures Reports(resp, UsernameTooLong) <==> Present(username) && |username.value| > 50
    ensures Reports(resp, UsernameInvalidChars) <==>
      Present(username) && 3 <= |username.value| <= 50 && !IsUsernameText(username.value)
    ensures Reports(resp, EmailRequired) <==> !Present(email)
    ensures Reports(resp, EmailInvalid) <==> Present(email) && !MatchesEmailPattern(email.value)
    ensures Reports(resp, PasswordRequired) <==> !Present(password)
    ensures Reports(resp, PasswordTooShort) <==> Present(password) && |password.value| < 8
    ensures Reports(resp, PasswordTooLong) <==> Present(password) && |password.value| > 255
  {
    var errors := UsernameCheck(username);
    errors := errors + EmailCheck(email);
    errors := errors + PasswordCheck(password);
    UsernameErrorsOnly(username, email, password);
    EmailErrorsOnly(username, email, password);
    PasswordErrorsOnly(username, email, password);
    if |errors| > 0 {
      return ValidationFailed(errors);
    }
    return Proceed;
  }

  /** validateUserLogin: presence of both fields only. */
  method ValidateUserLogin(username: Option<string>, password: Option<string>) returns (resp: Response)
    ensures resp.Proceed? <==> Present(username) && Present(password)
    ensures !resp.InvalidIdParameter?
    ensures resp.ValidationFailed? ==>
      resp.errors == (if Present(username) then [] else [LoginRequired]) +
                     (if Present(password) then [] else [LoginPasswordRequired])
  {
    var errors: seq<ValidationError> := [];
    if !Present(username) {
      errors := errors + [LoginRequired];
    }
    if !Present(password) {
      errors := errors + [LoginPasswordRequired];
    }
    if |errors| > 0 {
      return ValidationFailed(errors);
    }
    return Proceed;
  }

  /** validateFlightSearch: both cities present, at most 50 long, and different ignoring case. */
  method ValidateFlightSearch(departureCity: Option<string>, arrivalCity: Option<string>) returns (resp: Response)
    ensures resp.Proceed? <==>
      CityAccepted(departureCity) && CityAccepted(arrivalCity) &&
      !SameIgnoringCase(departureCity.value, arrivalCity.value)
    ensures !resp.InvalidIdParameter?
    ensures Reports(resp, DepartureCityRequired) <==> !Present(departureCity)
    ensures Reports(resp, DepartureCityTooLong) <==> Present(departureCity) && |departureCity.value| > 50
    ensures Reports(resp, ArrivalCityRequired) <==> !Present(arrivalCity)
    ensures Reports(resp, ArrivalCityTooLong) <==> Present(arrivalCity) && |arrivalCity.value| > 50
    ensures Reports(resp, SameCities) <==>
      Present(departureCity) && Present(arrivalCity) && SameIgnoringCase(departureCity.value, arrivalCity.value)
  {
    var errors: seq<ValidationError> := [];
    if !Present(departureCity) {
      errors := errors + [DepartureCityRequired];
    } else if |departureCity.value| > 50 {
      errors := errors + [DepartureCityTooLong];
    }
    if !Present(arrivalCity) {
      errors := errors + [ArrivalCityRequired];
    } else if |arrivalCity.value| > 50 {
      errors := errors + [ArrivalCityTooLong];
    }
    if Present(departureCity) && Present(arrivalCity) && SameIgnoringCase(departureCity.value, arrivalCity.value) {
      errors := errors + [SameCities];
    }
    if |errors| > 0 {
      return ValidationFailed(errors);
    }
    return Proceed;
  }

  /** validateBooking: a positive flight id and a seat matching `^[A-Z]\d+$`. */
  method ValidateBooking(flightId: Scalar, seatNumber: Option<string>) returns (resp: Response)
    ensures resp.Proceed? <==> PositiveId(flightId) && Present(seatNumber) && IsSeatNumber(seatNumber.value)
    ensures !resp.InvalidIdParameter?
    ensures Reports(resp, FlightIdRequired) <==> !Truthy(flightId)
    ensures Reports(resp, FlightIdNotPositive) <==> Truthy(flightId) && !PositiveId(flightId)
    ensures Reports(resp, SeatNumberRequired) <==> !Present(seatNumber)
    ensures Reports(resp, SeatNumberInvalid) <==> Present(seatNumber) && !IsSeatNumber(seatNumber.value)
  {
    var errors: seq<ValidationError> := [];
    if !Truthy(flightId) {
      errors := errors + [FlightIdRequired];
    } else if NumericValue(flightId).None? || NumericValue(flightId).value <= 0 {
      errors := errors + [FlightIdNotPositive];
    }
    if !Present(seatNumber) {
      errors := errors + [SeatNumberRequired];
    } else if !IsSeatNumber(seatNumber.value) {
      errors := errors + [SeatNumberInvalid];
    }
    if |errors| > 0 {
      return ValidationFailed(errors);
    }
    return Proceed;
  }

  /** validateNumericId: one check, no error list. */
  method ValidateNumericId(id: Scalar) returns (resp: Response)
    ensures resp == Proceed || resp == InvalidIdParameter
    ensures resp.Proceed? <==> PositiveId(id)
  {
    if !Truthy(id) || NumericValue(id).None? || NumericValue(id).value <= 0 {
      return InvalidIdParameter;
    }
    return Proceed;
  }

  // ---------------------------------------------------------------------------
  // validateNumericId on a route: it reads the parameter named `id`
  // ---------------------------------------------------------------------------

  /** `req.params`: the named segments of the route's path. */
  type RouteParams = map<string, Scalar>

  /** `req.params[name]`, `undefined` when the route has no segment of that name. */
  function Param(ps: RouteParams, name: string): Scalar {
    if name in ps then ps[name] else Absent
  }

  /** validateNumericId run against the parameter `name` of a route. */
  function NumericIdGuard(ps: RouteParams, name: string): (r: Response)
    ensures r == Proceed || r == InvalidIdParameter
    ensures r.Proceed? <==> name in ps && PositiveId(ps[name])
  {
    if PositiveId(Param(ps, name)) then Proceed else InvalidIdParameter
  }

  /**
   * `GET /flight/:flightId/stats` as routed: the segment is named `flightId`,
   * but the guard reads `id`, which is `undefined` there, so every request
   * is refused.
   */
  function StatsRouteGuard(flightId: Scalar): (r: Response)
    ensures r == InvalidIdParameter
  {
    NumericIdGuard(map["flightId" := flightId], "id")
  }

  /** The same route with the guard reading the segment it declares. */
  function StatsRouteGuardFixed(flightId: Scalar): (r: Response)
    ensures r.Proceed? <==> PositiveId(flightId)
    ensures r.InvalidIdParameter? <==> !PositiveId(flightId)
  {
    NumericIdGuard(map["flightId" := flightId], "flightId")
  }

  /** Flight 42 passes the intended guard and is refused by the routed one. */
  lemma StatsRouteRefusesValidId()
    ensures PositiveId(Text("42"))
    ensures StatsRouteGuard(Text("42")) == InvalidIdParameter
    ensures StatsRouteGuardFixed(Text("42")) == Proceed
  {
    DecimalPositive("42");
  }

  /** The seat `"invalid"` is rejected and the documented examples are accepted. */
  lemma SeatExamples()
    ensures !IsSeatNumber("invalid")
    ensures IsSeatNumber("A1") && IsSeatNumber("B12")
  {
  }
}
