/**
 * The user controller (backend/controllers/userController.js): registration,
 * login, reading and updating a profile, and changing a password.
 *
 * Hashing and comparing passwords (bcrypt) are outside the model: the hash a
 * statement stores is a parameter, and the comparison is a function parameter
 * `matches(password, hash)`. Tokens (jsonwebtoken) are left out.
 */
module Users {

  import opened Wrappers
  import opened Schema
  import opened Store
  import Validation

  /** What registration and login return, without the token. */
  datatype Account = Account(userId: int, username: string, email: string,
                             firstName: Option<string>, lastName: Option<string>)

  /** What getUserProfile returns, without `created_at`. */
  datatype Profile = Profile(userId: int, username: string, email: string,
                             firstName: Option<string>, lastName: Option<string>, phoneNumber: Option<string>)

  function AccountOf(u: User): Account {
    Account(u.id, u.username, u.email, u.firstName, u.lastName)
  }

  function ProfileOf(u: User): Profile {
    Profile(u.id, u.username, u.email, u.firstName, u.lastName, u.phoneNumber)
  }

  // ===========================================================================
  // registerUser
  // ===========================================================================

  /** The request body of registerUser; `None` is a missing field. */
  datatype Registration = Registration(
    username: Option<string>, email: Option<string>, password: Option<string>,
    firstName: Option<string>, lastName: Option<string>, phoneNumber: Option<string>)

  /** `value || null`: an empty string is stored as null. */
  function OrNull(s: Option<string>): (r: Option<string>)
    ensures r.Some? <==> Validation.Present(s)
    ensures r.Some? ==> r == s
  {
    if Validation.Present(s) then s else None
  }

  predicate UsernameTaken(us: seq<User>, username: string) {
    exists i :: 0 <= i < |us| && us[i].username == username
  }

  predicate EmailTaken(us: seq<User>, email: string) {
    exists i :: 0 <= i < |us| && us[i].email == email
  }

  /** The checks of registerUser, in order. */
  function RegistrationRejection(t: Tables, reg: Registration): (r: Option<Error>)
    ensures r.None? <==> Validation.Present(reg.username) && Validation.Present(reg.email) &&
                         Validation.Present(reg.password) && Validation.MatchesEmailPattern(reg.email.value) &&
                         |reg.password.value| >= 8 &&
                         !UsernameTaken(t.users, reg.username.value) && !EmailTaken(t.users, reg.email.value)
    ensures r == Some(RegistrationFieldsRequired) <==>
      !Validation.Present(reg.username) || !Validation.Present(reg.email) || !Validation.Present(reg.password)
    ensures r == Some(InvalidEmailFormat) <==>
      Validation.Present(reg.username) && Validation.Present(reg.email) && Validation.Present(reg.password) &&
      !Validation.MatchesEmailPattern(reg.email.value)
    ensures r == Some(PasswordTooShort) <==>
      Validation.Present(reg.username) && Validation.Present(reg.email) && Validation.Present(reg.password) &&
      Validation.MatchesEmailPattern(reg.email.value) && |reg.password.value| < 8
    ensures r == Some(UsernameExists) <==>
      Validation.Present(reg.username) && Validation.Present(reg.email) && Validation.Present(reg.password) &&
      Validation.MatchesEmailPattern(reg.email.value) && |reg.password.value| >= 8 &&
      UsernameTaken(t.users, reg.username.value)
    ensures r == Some(EmailRegistered) <==>
      Validation.Present(reg.username) && Validation.Present(reg.email) && Validation.Present(reg.password) &&
      Validation.MatchesEmailPattern(reg.email.value) && |reg.password.value| >= 8 &&
      !UsernameTaken(t.users, reg.username.value) && EmailTaken(t.users, reg.email.value)
  {
    if !Validation.Present(reg.username) || !Validation.Present(reg.email) || !Validation.Present(reg.password) then
      Some(RegistrationFieldsRequired)
    else if !Validation.MatchesEmailPattern(reg.email.value) then Some(InvalidEmailFormat)
    else if |reg.password.value| < 8 then Some(PasswordTooShort)
    else if UsernameTaken(t.users, reg.username.value) then Some(UsernameExists)
    else if EmailTaken(t.users, reg.email.value) then Some(EmailRegistered)
    else None
  }

  /** The row the INSERT writes, with `passwordHash` standing for `bcrypt.hash(password)`. */
  function NewUser(t: Tables, reg: Registration, passwordHash: string): User
    requires RegistrationRejection(t, reg).None?
  {
    User(t.nextUserId, reg.username.value, reg.email.value, passwordHash,
         OrNull(reg.firstName), OrNull(reg.lastName), OrNull(reg.phoneNumber))
  }

  function CommitRegistration(t: Tables, reg: Registration, passwordHash: string): Tables
    requires RegistrationRejection(t, reg).None?
  {
    t.(users := t.users + [NewUser(t, reg, passwordHash)], nextUserId := t.nextUserId + 1)
  }

  /** `SELECT ... FROM users WHERE username = :username`, first row. */
  function UsernameIndex(us: seq<User>, username: string): (r: Option<nat>)
    ensures r.Some? ==> r.value < |us| && us[r.value].username == username
    ensures r.None? <==> !UsernameTaken(us, username)
  {
    if us == [] then None
    else if us[0].username == username then Some(0)
    else match UsernameIndex(us[1..], username)
      case None =>
        assert forall i :: 1 <= i < |us| ==> us[i] == us[1..][i - 1];
        None
      case Some(k) => Some(k + 1)
  }

  /** A registration keeps `Consistent`: the new username and e-mail are unique. */
  lemma RegistrationPreservesConsistency(t: Tables, reg: Registration, passwordHash: string)
    requires Consistent(t) && RegistrationRejection(t, reg).None?
    ensures Consistent(CommitRegistration(t, reg, passwordHash))
  {
    RegistrationKeepsUsers(t, reg, passwordHash);
    RegistrationKeepsBookings(t, reg, passwordHash);
  }

  /** The new row has the next id, an unused username and an unused e-mail holding an `@`. */
  lemma RegistrationKeepsUsers(t: Tables, reg: Registration, passwordHash: string)
    requires UsersWellFormed(t) && RegistrationRejection(t, reg).None?
    ensures UsersWellFormed(CommitRegistration(t, reg, passwordHash))
  {
    var t' := CommitRegistration(t, reg, passwordHash);
    var m := |t.users|;
    var e := reg.email.value;
    var a, d :| 0 < a < d < |e| && Validation.EmailSplit(e, a, d);
    assert e[a] == '@';
    forall i, j | 0 <= i < j < |t'.users|
      ensures t'.users[i].id < t'.users[j].id
      ensures t'.users[i].username != t'.users[j].username && t'.users[i].email != t'.users[j].email
    {
      assert t'.users[i] == t.users[i];
      if j < m {
        assert t'.users[j] == t.users[j];
      }
    }
  }

  /** Every booking's user is still there after a registration. */
  lemma RegistrationKeepsBookings(t: Tables, reg: Registration, passwordHash: string)
    requires BookingsWellFormed(t) && RegistrationRejection(t, reg).None?
    ensures BookingsWellFormed(CommitRegistration(t, reg, passwordHash))
  {
    var t' := CommitRegistration(t, reg, passwordHash);
    var m := |t.users|;
    forall i | 0 <= i < |t'.bookings| ensures HasUser(t'.users, t'.bookings[i].userId) {
      var j :| 0 <= j < m && t.users[j].id == t.bookings[i].userId;
      assert t'.users[j] == t.users[j];
    }
  }

  /**
   * After the INSERT the re-read by username finds the new row, so the
   * 'Failed to retrieve newly created user' branch cannot be taken.
   */
  lemma RegisteredUserReadBack(t: Tables, reg: Registration, passwordHash: string)
    requires Consistent(t) && RegistrationRejection(t, reg).None?
    ensures UsernameIndex(CommitRegistration(t, reg, passwordHash).users, reg.username.value) == Some(|t.users|)
  {
    var us := CommitRegistration(t, reg, passwordHash).users;
    assert us[|t.users|].username == reg.username.value;
    var k := UsernameIndex(us, reg.username.value);
    assert k.Some?;
  }

  /**
   * registerUser: the checks, the INSERT with `firstName || null` and the
   * like, and the re-read by username. A rejection inserts nothing.
   */
  method RegisterUser(db: Database, reg: Registration, passwordHash: string) returns (r: Result<Account, Error>)
    requires db.Valid()
    modifies db
    ensures db.Valid()
    ensures r.Err? <==> RegistrationRejection(old(db.State()), reg).Some?
    ensures r.Err? ==> RegistrationRejection(old(db.State()), reg) == Some(r.error) && db.State() == old(db.State())
    ensures r.Ok? ==> db.State() == CommitRegistration(old(db.State()), reg, passwordHash)
    ensures r.Ok? ==> r.value == Account(old(db.nextUserId), reg.username.value, reg.email.value,
                                         OrNull(reg.firstName), OrNull(reg.lastName))
  {
    var rejection := RegistrationRejection(db.State(), reg);
    if rejection.Some? {
      return Err(rejection.value);
    }
    ghost var before := db.State();
    RegistrationPreservesConsistency(before, reg, passwordHash);
    RegisteredUserReadBack(before, reg, passwordHash);
    db.users := db.users + [User(db.nextUserId, reg.username.value, reg.email.value, passwordHash,
                                 OrNull(reg.firstName), OrNull(reg.lastName), OrNull(reg.phoneNumber))];
    db.nextUserId := db.nextUserId + 1;
    var k := UsernameIndex(db.users, reg.username.value);
    return Ok(AccountOf(db.users[k.value]));
  }

  // ===========================================================================
  // loginUser
  // ===========================================================================

  /** `WHERE username = :login OR email = :login`, first row. */
  function LoginIndex(us: seq<User>, login: string): (r: Option<nat>)
    ensures r.Some? ==> r.value < |us| && (us[r.value].username == login || us[r.value].email == login)
    ensures r.Some? ==> forall j :: 0 <= j < r.value ==> us[j].username != login && us[j].email != login
    ensures r.None? ==> forall j :: 0 <= j < |us| ==> us[j].username != login && us[j].email != login
  {
    if us == [] then None
    else if us[0].username == login || us[0].email == login then Some(0)
    else match LoginIndex(us[1..], login)
      case None => None
      case Some(k) => Some(k + 1)
  }

  /**
   * loginUser: the login string names a user by username or by e-mail, and
   * the password must match that user's hash. An unknown login and a wrong
   * password give the same error.
   */
  function LoginUser(us: seq<User>, login: Option<string>, password: Option<string>,
                     matches: (string, string) -> bool): (r: Result<Account, Error>)
    ensures r.Err? ==> r.error in {LoginFieldsRequired, InvalidCredentials}
    ensures r.Err? && r.error == LoginFieldsRequired <==>
      !Validation.Present(login) || !Validation.Present(password)
    ensures r.Ok? ==> exists i :: (0 <= i < |us| && AccountOf(us[i]) == r.value &&
      (us[i].username == login.value || us[i].email == login.value) && matches(password.value, us[i].passwordHash))
  {
    if !Validation.Present(login) || !Validation.Present(password) then Err(LoginFieldsRequired)
    else match LoginIndex(us, login.value)
      case None => Err(InvalidCredentials)
      case Some(k) =>
        if !matches(password.value, us[k].passwordHash) then Err(InvalidCredentials)
        else Ok(AccountOf(us[k]))
  }

  /** Nobody can tell an unknown login from a known one with a wrong password. */
  lemma LoginFailuresIndistinguishable(us: seq<User>, login: string, password: string,
                                       matches: (string, string) -> bool)
    requires login != "" && password != ""
    requires forall i :: 0 <= i < |us| && (us[i].username == login || us[i].email == login) ==>
               !matches(password, us[i].passwordHash)
    ensures LoginUser(us, Some(login), Some(password), matches) == Err(InvalidCredentials)
  {
    match LoginIndex(us, login)
    case None =>
    case Some(k) => assert !matches(password, us[k].passwordHash);
  }

  /**
   * A user who has just registered, with a username free of `@` as the
   * registration validator demands, logs in with that username and the
   * password the stored hash was made from.
   */
  lemma RegisteredUserLogsIn(t: Tables, reg: Registration, passwordHash: string,
                             matches: (string, string) -> bool)
    requires Consistent(t) && RegistrationRejection(t, reg).None?
    requires '@' !in reg.username.value
    requires matches(reg.password.value, passwordHash)
    ensures LoginUser(CommitRegistration(t, reg, passwordHash).users, reg.username, reg.password, matches)
            == Ok(Account(t.nextUserId, reg.username.value, reg.email.value, OrNull(reg.firstName), OrNull(reg.lastName)))
  {
    var us := CommitRegistration(t, reg, passwordHash).users;
    var login := reg.username.value;
    RegistrationPreservesConsistency(t, reg, passwordHash);
    assert us[|t.users|].username == login;
    var k := LoginIndex(us, login);
    assert k.Some?;
    assert k.value == |t.users|;
  }

  // ===========================================================================
  // getUserProfile
  // ===========================================================================

  /** `SELECT ... WHERE user_id = :userId`; 'User not found' when no row has the id. */
  function GetUserProfile(us: seq<User>, userId: int): (r: Result<Profile, Error>)
    ensures r.Err? <==> !HasUser(us, userId)
    ensures r.Err? ==> r.error == UserNotFound
    ensures r.Ok? ==> exists i :: 0 <= i < |us| && us[i].id == userId && ProfileOf(us[i]) == r.value
  {
    match UserIndex(us, userId)
    case None => Err(UserNotFound)
    case Some(k) =>
      assert us[k].id == userId;
      Ok(ProfileOf(us[k]))
  }

  // ===========================================================================
  // updateUserProfile
  // ===========================================================================

  /**
   * The body of updateUserProfile: the outer `None` is a field left
   * undefined, `Some(None)` an explicit null.
   */
  datatype ProfileUpdate = ProfileUpdate(
    firstName: Option<Option<string>>, lastName: Option<Option<string>>, phoneNumber: Option<Option<string>>)

  /** One `column = :value` item of the SET list. */
  datatype ProfileChange =
    | SetFirstName(firstName: Option<string>)
    | SetLastName(lastName: Option<string>)
    | SetPhoneNumber(phoneNumber: Option<string>)

  /** The SET list, in the order the fields are examined. */
  function ProfileChanges(u: ProfileUpdate): (cs: seq<ProfileChange>)
    ensures |cs| == 0 <==> u.firstName.None? && u.lastName.None? && u.phoneNumber.None?
  {
    (if u.firstName.Some? then [SetFirstName(u.firstName.value)] else []) +
    (if u.lastName.Some? then [SetLastName(u.lastName.value)] else []) +
    (if u.phoneNumber.Some? then [SetPhoneNumber(u.phoneNumber.value)] else [])
  }

  function ApplyProfileChange(u: User, c: ProfileChange): User {
    match c
    case SetFirstName(v) => u.(firstName := v)
    case SetLastName(v) => u.(lastName := v)
    case SetPhoneNumber(v) => u.(phoneNumber := v)
  }

  /** A SET list of profile fields never touches the id, the login names or the hash. */
  function ApplyProfileChanges(u: User, cs: seq<ProfileChange>): (r: User)
    ensures r.id == u.id && r.username == u.username && r.email == u.email && r.passwordHash == u.passwordHash
    decreases cs
  {
    if cs == [] then u else ApplyProfileChanges(ApplyProfileChange(u, cs[0]), cs[1..])
  }

  lemma {:induction false} ApplyProfileChangesAppend(u: User, cs: seq<ProfileChange>, ds: seq<ProfileChange>)
    ensures ApplyProfileChanges(u, cs + ds) == ApplyProfileChanges(ApplyProfileChanges(u, cs), ds)
    decreases cs
  {
    if cs != [] {
      assert (cs + ds)[1..] == cs[1..] + ds;
      ApplyProfileChangesAppend(ApplyProfileChange(u, cs[0]), cs[1..], ds);
    } else {
      assert cs + ds == ds;
    }
  }

  /** The updated row carries each supplied field's value and keeps every other field. */
  lemma ProfileUpdateChangesOnlySupplied(usr: User, u: ProfileUpdate)
    ensures var v := ApplyProfileChanges(usr, ProfileChanges(u));
      && v.firstName == (if u.firstName.Some? then u.firstName.value else usr.firstName)
      && v.lastName == (if u.lastName.Some? then u.lastName.value else usr.lastName)
      && v.phoneNumber == (if u.phoneNumber.Some? then u.phoneNumber.value else usr.phoneNumber)
      && v == usr.(firstName := v.firstName, lastName := v.lastName, phoneNumber := v.phoneNumber)
  {
    var a := if u.firstName.Some? then [SetFirstName(u.firstName.value)] else [];
    var b := if u.lastName.Some? then [SetLastName(u.lastName.value)] else [];
    var c := if u.phoneNumber.Some? then [SetPhoneNumber(u.phoneNumber.value)] else [];
    ApplyProfileChangesAppend(usr, a, b);
    ApplyProfileChangesAppend(usr, a + b, c);
    assert ProfileChanges(u) == a + b + c;
  }

  /** `UPDATE users SET ... WHERE user_id = :userId` */
  function UpdateUserRows(us: seq<User>, userId: int, cs: seq<ProfileChange>): (r: seq<User>)
    ensures |r| == |us|
    ensures forall i :: 0 <= i < |us| ==> r[i] == if us[i].id == userId then ApplyProfileChanges(us[i], cs) else us[i]
  {
    seq(|us|, i requires 0 <= i < |us| => if us[i].id == userId then ApplyProfileChanges(us[i], cs) else us[i])
  }

  /** An update of an id no row has changes nothing. */
  lemma UpdateUnknownUserChangesNothing(us: seq<User>, userId: int, cs: seq<ProfileChange>)
    requires !HasUser(us, userId)
    ensures UpdateUserRows(us, userId, cs) == us
  {
    assert forall i :: 0 <= i < |us| ==> us[i].id != userId;
  }

  /** Rewriting rows while keeping ids, usernames and e-mails keeps `Consistent`. */
  lemma SameUserKeysConsistent(t: Tables, us': seq<User>)
    requires Consistent(t) && |us'| == |t.users|
    requires forall i :: 0 <= i < |t.users| ==>
      us'[i].id == t.users[i].id && us'[i].username == t.users[i].username && us'[i].email == t.users[i].email
    ensures Consistent(t.(users := us'))
  {
    var t' := t.(users := us');
    forall i | 0 <= i < |t'.bookings| ensures HasUser(us', t'.bookings[i].userId) {
      var j :| 0 <= j < |t.users| && t.users[j].id == t.bookings[i].userId;
      assert us'[j].id == t.bookings[i].userId;
    }
  }

  /**
   * updateUserProfile: builds the SET list from the supplied fields, refuses
   * an empty one before touching the table, runs the UPDATE and reads the
   * profile back ('User not found' for an unknown id, with nothing changed).
   */
  method UpdateUserProfile(db: Database, userId: int, u: ProfileUpdate) returns (r: Result<Profile, Error>)
    requires db.Valid()
    modifies db
    ensures db.Valid()
    ensures db.State() == old(db.State()).(users := db.users)
    ensures |ProfileChanges(u)| == 0 ==> r == Err(NoFieldsToUpdate) && db.users == old(db.users)
    ensures |ProfileChanges(u)| > 0 ==> db.users == UpdateUserRows(old(db.users), userId, ProfileChanges(u))
    ensures |ProfileChanges(u)| > 0 ==> r == GetUserProfile(db.users, userId)
    ensures !HasUser(old(db.users), userId) ==> r.Err? && db.users == old(db.users)
  {
    var updates: seq<ProfileChange> := [];
    if u.firstName.Some? {
      updates := updates + [SetFirstName(u.firstName.value)];
    }
    if u.lastName.Some? {
      updates := updates + [SetLastName(u.lastName.value)];
    }
    if u.phoneNumber.Some? {
      updates := updates + [SetPhoneNumber(u.phoneNumber.value)];
    }
    if |updates| == 0 {
      return Err(NoFieldsToUpdate);
    }
    assert updates == ProfileChanges(u);
    var t := db.State();
    var rows := UpdateUserRows(db.users, userId, updates);
    SameUserKeysConsistent(t, rows);
    if !HasUser(db.users, userId) {
      UpdateUnknownUserChangesNothing(db.users, userId, updates);
    }
    db.users := rows;
    assert db.State() == t.(users := rows);
    r := GetUserProfile(db.users, userId);
  }

  // ===========================================================================
  // changePassword
  // ===========================================================================

  /** The checks of changePassword, in order; the first one reads nothing. */
  function PasswordChangeRejection(us: seq<User>, userId: int, oldPassword: string, newPassword: Option<string>,
                                   matches: (string, string) -> bool): Option<Error>
  {
    if !Validation.Present(newPassword) || |newPassword.value| < 8 then Some(NewPasswordTooShort)
    else match UserIndex(us, userId)
      case None => Some(UserNotFound)
      case Some(k) => if !matches(oldPassword, us[k].passwordHash) then Some(CurrentPasswordIncorrect) else None
  }

  /** `UPDATE users SET password_hash = :passwordHash WHERE user_id = :userId` */
  function SetPasswordHash(us: seq<User>, userId: int, passwordHash: string): (r: seq<User>)
    ensures |r| == |us|
    ensures forall i :: 0 <= i < |us| ==> r[i] == if us[i].id == userId then us[i].(passwordHash := passwordHash) else us[i]
  {
    seq(|us|, i requires 0 <= i < |us| => if us[i].id == userId then us[i].(passwordHash := passwordHash) else us[i])
  }

  /** What each rejection of changePassword means. */
  lemma PasswordChangeReasons(us: seq<User>, userId: int, oldPassword: string, newPassword: Option<string>,
                              matches: (string, string) -> bool)
    ensures PasswordChangeRejection(us, userId, oldPassword, newPassword, matches) == Some(NewPasswordTooShort)
            <==> !Validation.Present(newPassword) || |newPassword.value| < 8
    ensures PasswordChangeRejection(us, userId, oldPassword, newPassword, matches) == Some(UserNotFound)
            <==> Validation.Present(newPassword) && |newPassword.value| >= 8 && !HasUser(us, userId)
    ensures PasswordChangeRejection(us, userId, oldPassword, newPassword, matches).None? ==>
            exists i :: 0 <= i < |us| && us[i].id == userId && matches(oldPassword, us[i].passwordHash)
  {
    if UserIndex(us, userId).Some? {
      assert us[UserIndex(us, userId).value].id == userId;
    }
  }

  /**
   * With user ids unique, a valid new password for a known user is refused
   * iff the current password does not match that user's hash, and accepted
   * iff it does.
   */
  lemma PasswordChangeAccepted(us: seq<User>, k: int, oldPassword: string, newPassword: Option<string>,
                               matches: (string, string) -> bool)
    requires forall i, j :: 0 <= i < j < |us| ==> us[i].id < us[j].id
    requires 0 <= k < |us|
    ensures PasswordChangeRejection(us, us[k].id, oldPassword, newPassword, matches).None? <==>
            Validation.Present(newPassword) && |newPassword.value| >= 8 && matches(oldPassword, us[k].passwordHash)
    ensures PasswordChangeRejection(us, us[k].id, oldPassword, newPassword, matches) == Some(CurrentPasswordIncorrect) <==>
            Validation.Present(newPassword) && |newPassword.value| >= 8 && !matches(oldPassword, us[k].passwordHash)
  {
    UserIndexOf(us, k);
  }

  /** After a password change the user logs in with the new password, by username or e-mail. */
  lemma ChangedPasswordLogsIn(t: Tables, k: int, oldPassword: string, newPassword: string, newHash: string,
                              login: string, matches: (string, string) -> bool)
    requires Consistent(t) && 0 <= k < |t.users|
    requires PasswordChangeRejection(t.users, t.users[k].id, oldPassword, Some(newPassword), matches).None?
    requires matches(newPassword, newHash)
    requires login == t.users[k].username || login == t.users[k].email
    requires login != "" && newPassword != ""
    requires forall j :: 0 <= j < k ==> t.users[j].username != login && t.users[j].email != login
    ensures LoginUser(SetPasswordHash(t.users, t.users[k].id, newHash), Some(login), Some(newPassword), matches)
            == Ok(AccountOf(t.users[k]))
  {
    var us' := SetPasswordHash(t.users, t.users[k].id, newHash);
    assert us'[k] == t.users[k].(passwordHash := newHash);
    forall j | 0 <= j < k ensures us'[j].username != login && us'[j].email != login {
      assert t.users[j].id < t.users[k].id;
    }
    var i := LoginIndex(us', login);
    assert i.Some? && i.value == k;
  }

  /**
   * changePassword: rejects a short new password before any lookup, then an
   * unknown user, then a wrong current password, leaving the hash alone in
   * every case; on success only that user's `password_hash` is replaced.
   */
  method ChangePassword(db: Database, userId: int, oldPassword: string, newPassword: Option<string>,
                        newHash: string, matches: (string, string) -> bool) returns (r: Result<(), Error>)
    requires db.Valid()
    modifies db
    ensures db.Valid()
    ensures db.State() == old(db.State()).(users := db.users)
    ensures r.Err? <==> PasswordChangeRejection(old(db.users), userId, oldPassword, newPassword, matches).Some?
    ensures r.Err? ==> PasswordChangeRejection(old(db.users), userId, oldPassword, newPassword, matches) == Some(r.error)
    ensures r.Err? ==> db.users == old(db.users)
    ensures r.Ok? ==> db.users == SetPasswordHash(old(db.users), userId, newHash)
  {
    if !Validation.Present(newPassword) || |newPassword.value| < 8 {
      return Err(NewPasswordTooShort);
    }
    var k := UserIndex(db.users, userId);
    if k.None? {
      return Err(UserNotFound);
    }
    if !matches(oldPassword, db.users[k.value].passwordHash) {
      return Err(CurrentPasswordIncorrect);
    }
    SameUserKeysConsistent(db.State(), SetPasswordHash(db.users, userId, newHash));
    db.users := SetPasswordHash(db.users, userId, newHash);
    return Ok(());
  }
}
