/** Registration and login. The user table is changed only by registration,
    a method of `UserStore`; login only reads it. Password hashing, its
    comparison and token signing are collaborators passed in: a `hash`
    function standing for the hashing the user schema applies when a user is
    saved, a `compare` function standing for the password check, and a
    `Signer`. */
module AuthController {
  import opened Wrappers
  import opened Http
  import opened ObjectIds
  import opened Jwt
  import opened UserModel

  const AllFieldsRequired: string := "All fields are required"
  const EmailExists: string := "Email already exists"
  const UsernameExists: string := "Username already exists"
  const UserRegistered: string := "User registered successfully"
  const EmailAndPasswordRequired: string := "Email and password are required"
  const InvalidCredentials: string := "Invalid credentials"
  const LoginSuccessful: string := "Login successful"

  /** `expiresIn: "7d"`, in seconds. */
  const TokenLifetime: int := 7 * SecondsPerDay

  /** The registration request body. */
  datatype Registration = Registration(
    username: Option<string>,
    email: Option<string>,
    password: Option<string>,
    fullName: Option<string>,
    gender: Option<string>)

  /** The login request body. */
  datatype Credentials = Credentials(email: Option<string>, password: Option<string>)

  /** The `data` of a successful registration or login. */
  datatype AuthData = AuthData(user: UserSummary, token: string)

  /** The payload of a token issued at `now`: the user id only, with the
      issue time and an expiry seven days later. */
  function IssueClaims(userId: string, now: int): Claims {
    Claims(userId, now, now + TokenLifetime)
  }

  /** `generateToken`. */
  function GenerateToken(signer: Signer, userId: string, now: int): string {
    signer.sign(IssueClaims(userId, now))
  }

  /** A token issued at `issuedAt` verifies, to the user it was issued for,
      exactly while `now` is less than seven days later. */
  lemma TokenValidForSevenDays(signer: Signer, userId: string, issuedAt: int, now: int)
    requires Sound(signer)
    ensures Verify(signer, GenerateToken(signer, userId, issuedAt), now) ==
      if now < issuedAt + TokenLifetime then Some(userId) else None
  {
    VerifySigned(signer, IssueClaims(userId, issuedAt), now);
  }

  /** Accepted six days after issue, rejected eight days after. */
  lemma TokenSixAndEightDays(signer: Signer, userId: string, issuedAt: int)
    requires Sound(signer)
    ensures Verify(signer, GenerateToken(signer, userId, issuedAt), issuedAt + 6 * SecondsPerDay) == Some(userId)
    ensures Verify(signer, GenerateToken(signer, userId, issuedAt), issuedAt + 8 * SecondsPerDay) == None
  {
    TokenValidForSevenDays(signer, userId, issuedAt, issuedAt + 6 * SecondsPerDay);
    TokenValidForSevenDays(signer, userId, issuedAt, issuedAt + 8 * SecondsPerDay);
  }

  // ---------------------------------------------------------------------
  // Registration

  predicate AllGiven(body: Registration) {
    Given(body.username) && Given(body.email) && Given(body.password) && Given(body.fullName) && Given(body.gender)
  }

  /** `{$or: [{username}, {email}]}`. */
  predicate Collides(u: User, username: string, email: string) {
    u.username == username || u.email == email
  }

  /** The duplicate check of registration: the first user with the same
      username or the same email decides the message, "Email already exists"
      when that user's email is the one supplied and "Username already
      exists" otherwise; no message when nobody collides. */
  function ConflictMessage(users: seq<User>, username: string, email: string): (r: Option<string>)
    ensures r.None? <==> forall i | 0 <= i < |users| :: !Collides(users[i], username, email)
    ensures r == Some(EmailExists) ==> exists i | 0 <= i < |users| :: users[i].email == email
    ensures r == Some(UsernameExists) ==>
      exists i | 0 <= i < |users| :: users[i].username == username && users[i].email != email
    ensures r.Some? ==> r == Some(EmailExists) || r == Some(UsernameExists)
    ensures r.Some? && (forall i | 0 <= i < |users| :: users[i].email != email) ==> r == Some(UsernameExists)
    ensures (forall i | 0 <= i < |users| :: users[i].username != username) && r.Some? ==> r == Some(EmailExists)
  {
    match FindFirst(users, (u: User) => Collides(u, username, email))
    case None => None
    case Some(i) => Some(if users[i].email == email then EmailExists else UsernameExists)
  }

  /** When the username is taken by one user and the email by a later one,
      the message names the username: the first colliding user decides, and
      the email does not take precedence. */
  lemma FirstCollisionDecides()
    ensures var users := [
        User("000000000000000000000001", "alice", "alice@x.com", "h1", "Alice", "female"),
        User("000000000000000000000002", "bob", "bob@x.com", "h2", "Bob", "male")];
      && WellFormedUsers(users)
      && ConflictMessage(users, "alice", "bob@x.com") == Some(UsernameExists)
  {
    var users := [
        User("000000000000000000000001", "alice", "alice@x.com", "h1", "Alice", "female"),
        User("000000000000000000000002", "bob", "bob@x.com", "h2", "Bob", "male")];
    DigitsAreCanonical(users[0].id);
    DigitsAreCanonical(users[1].id);
    assert Collides(users[0], "alice", "bob@x.com");
    assert users[0].email != "bob@x.com";
  }

  /** The user table, changed only by registration. */
  class UserStore {
    var users: seq<User>

    ghost predicate Valid()
      reads this
    {
      && WellFormedUsers(users)
      && forall i | 0 <= i < |users| :: users[i].username != "" && users[i].email != ""
    }

    constructor ()
      ensures Valid() && users == []
    {
      users := [];
    }

    /** `registerUser`: every field is required (400); a username or email
        already in use is a 409 whose message comes from `ConflictMessage`;
        otherwise the user is stored with the hash of the password and the
        id the database assigns, and the response carries the user summary
        (never the password) and a token for the new user. */
    method Register(body: Registration, newId: string, hash: string -> string, signer: Signer, now: int)
      returns (r: Reply<AuthData>)
      requires Valid()
      requires IsCanonical(newId) && forall i | 0 <= i < |users| :: users[i].id != newId
      modifies this
      ensures Valid()
      ensures !AllGiven(body) ==> r == Failure(BAD_REQUEST, AllFieldsRequired) && users == old(users)
      ensures AllGiven(body) && ConflictMessage(old(users), body.username.value, body.email.value).Some? ==>
        && r == Failure(CONFLICT, ConflictMessage(old(users), body.username.value, body.email.value).value)
        && users == old(users)
      ensures AllGiven(body) && ConflictMessage(old(users), body.username.value, body.email.value).None? ==>
        var u := User(newId, body.username.value, body.email.value, hash(body.password.value), body.fullName.value, body.gender.value);
        && users == old(users) + [u]
        && r == Success(CREATED, Some(UserRegistered), AuthData(Summary(u), GenerateToken(signer, newId, now)))
    {
      if !AllGiven(body) {
        return Failure(BAD_REQUEST, AllFieldsRequired);
      }
      var username, email := body.username.value, body.email.value;
      var conflict := ConflictMessage(users, username, email);
      if conflict.Some? {
        return Failure(CONFLICT, conflict.value);
      }
      var u := User(newId, username, email, hash(body.password.value), body.fullName.value, body.gender.value);
      users := users + [u];
      r := Success(CREATED, Some(UserRegistered), AuthData(Summary(u), GenerateToken(signer, newId, now)));
    }
  }

  // ---------------------------------------------------------------------
  // Login

  /** `findOne({email})`. */
  function FindByEmail(users: seq<User>, email: string): Option<nat> {
    FindFirst(users, (u: User) => u.email == email)
  }

  /** `loginUser`: email and password are required (400); an unknown email
      and a wrong password both give the same 401; otherwise a 200 with the
      user summary and a fresh token. `compare(password, hash)` is the
      password check. */
  function Login(users: seq<User>, body: Credentials, compare: (string, string) -> bool, signer: Signer, now: int)
    : Reply<AuthData>
  {
    if !Given(body.email) || !Given(body.password) then
      Failure(BAD_REQUEST, EmailAndPasswordRequired)
    else match FindByEmail(users, body.email.value)
      case None => Failure(UNAUTHORIZED, InvalidCredentials)
      case Some(i) =>
        if !compare(body.password.value, users[i].passwordHash) then
          Failure(UNAUTHORIZED, InvalidCredentials)
        else
          Success(OK, Some(LoginSuccessful), AuthData(Summary(users[i]), GenerateToken(signer, users[i].id, now)))
  }

  /** Login outcomes: a 400 exactly when a field is missing; a 401 exactly
      when no user has the email or the password does not match that user's
      hash, and then always the same response; otherwise a 200 for the user
      with that email, whose password matched, with a token issued to that
      user now. */
  lemma LoginOutcomes(users: seq<User>, body: Credentials, compare: (string, string) -> bool, signer: Signer, now: int)
    ensures var r := Login(users, body, compare, signer, now);
      && (r.code == BAD_REQUEST <==> !Given(body.email) || !Given(body.password))
      && (r.code == UNAUTHORIZED <==>
            && Given(body.email) && Given(body.password)
            && forall i | 0 <= i < |users| && users[i].email == body.email.value ::
                 !compare(body.password.value, users[i].passwordHash) || exists k | 0 <= k < i :: users[k].email == body.email.value)
      && (r.code == UNAUTHORIZED ==> r == Failure(UNAUTHORIZED, InvalidCredentials))
      && (r.Success? ==>
            exists i | 0 <= i < |users| ::
              && users[i].email == body.email.value
              && compare(body.password.value, users[i].passwordHash)
              && r == Success(OK, Some(LoginSuccessful), AuthData(Summary(users[i]), GenerateToken(signer, users[i].id, now))))
  {
    var r := Login(users, body, compare, signer, now);
    if Given(body.email) && Given(body.password) {
      var found := FindByEmail(users, body.email.value);
      if found.Some? {
        var i := found.value;
        if compare(body.password.value, users[i].passwordHash) {
          assert r.code == OK;
        }
      }
    }
  }

  /** No information leak: logging in with an email nobody has, and logging
      in as an existing user with a wrong password, give identical responses. */
  lemma UnknownEmailLooksLikeWrongPassword(
    users: seq<User>, email: string, password: string, other: seq<User>,
    compare: (string, string) -> bool, signer: Signer, now: int)
    requires email != "" && password != ""
    requires forall i | 0 <= i < |users| :: users[i].email != email
    requires WellFormedUsers(other)
    requires exists i | 0 <= i < |other| :: other[i].email == email && !compare(password, other[i].passwordHash)
    ensures Login(users, Credentials(Some(email), Some(password)), compare, signer, now)
         == Login(other, Credentials(Some(email), Some(password)), compare, signer, now)
         == Failure(UNAUTHORIZED, InvalidCredentials)
  {
    var i :| 0 <= i < |other| && other[i].email == email && !compare(password, other[i].passwordHash);
    var found := FindByEmail(other, email);
    assert found.Some?;
    assert found.value == i;
  }

  /** Registration and login fit together: once a user has been added with no
      collision, logging in with that email and a password that matches the
      stored hash succeeds for that user. */
  lemma RegisteredUserCanLogIn(
    users: seq<User>, u: User, password: string,
    compare: (string, string) -> bool, signer: Signer, now: int)
    requires ConflictMessage(users, u.username, u.email).None?
    requires u.email != "" && password != ""
    requires compare(password, u.passwordHash)
    ensures Login(users + [u], Credentials(Some(u.email), Some(password)), compare, signer, now)
         == Success(OK, Some(LoginSuccessful), AuthData(Summary(u), GenerateToken(signer, u.id, now)))
  {
    var all := users + [u];
    assert all[|users|] == u;
    assert forall k | 0 <= k < |users| :: all[k] == users[k] && !Collides(users[k], u.username, u.email);
    var found := FindByEmail(all, u.email);
    assert found == Some(|users|);
  }
}
