/** The user search: find a user by username or by email, and answer with
    that user without the password. */
module UserController {
  import opened Wrappers
  import opened Http
  import opened UserModel

  const ProvideUsernameOrEmail: string := "Provide username or email"
  const UserNotFound: string := "User not found"

  /** The query string of the search; either field may be absent. */
  datatype UserQuery = UserQuery(username: Option<string>, email: Option<string>)

  /** `{$or: [{username}, {email}]}`: a supplied username equals the user's,
      or a supplied email equals the user's. An absent field matches nobody. */
  predicate Selects(q: UserQuery, u: User) {
    (q.username.Some? && u.username == q.username.value) || (q.email.Some? && u.email == q.email.value)
  }

  /** `getUser`: 400 when neither username nor email is given; 404 when
      nobody matches; otherwise 200 with the first matching user, read
      without the password. */
  function GetUser(users: seq<User>, q: UserQuery): Reply<PublicUser> {
    if !Given(q.username) && !Given(q.email) then
      Failure(BAD_REQUEST, ProvideUsernameOrEmail)
    else match FindFirst(users, (u: User) => Selects(q, u))
      case None => Failure(NOT_FOUND, UserNotFound)
      case Some(i) => Success(OK, None, PublicView(users[i]))
  }

  /** The three outcomes of the search, each in both directions: the 400
      exactly when no identifier is given, the 404 exactly when an
      identifier is given and no user matches, and on a 200 the data is a
      matching user's public view, the first in table order. */
  lemma GetUserOutcomes(users: seq<User>, q: UserQuery)
    ensures var r := GetUser(users, q);
      && (r == Failure(BAD_REQUEST, ProvideUsernameOrEmail) <==> !Given(q.username) && !Given(q.email))
      && (r == Failure(NOT_FOUND, UserNotFound) <==>
            (Given(q.username) || Given(q.email)) && forall i | 0 <= i < |users| :: !Selects(q, users[i]))
      && (r.Success? <==>
            (Given(q.username) || Given(q.email)) && exists i | 0 <= i < |users| :: Selects(q, users[i]))
      && (r.Success? ==>
            && r.code == OK
            && exists i | 0 <= i < |users| ::
                 && Selects(q, users[i]) && r.data == PublicView(users[i])
                 && forall k | 0 <= k < i :: !Selects(q, users[k]))
  {
    var r := GetUser(users, q);
    if Given(q.username) || Given(q.email) {
      var found := FindFirst(users, (u: User) => Selects(q, u));
      if found.Some? {
        assert r.data == PublicView(users[found.value]);
      }
    }
  }

  /** In a well-formed table a search by one username alone finds that user. */
  lemma GetUserByUsername(users: seq<User>, i: nat)
    requires WellFormedUsers(users) && i < |users| && users[i].username != ""
    ensures GetUser(users, UserQuery(Some(users[i].username), None)) == Success(OK, None, PublicView(users[i]))
  {
    var q := UserQuery(Some(users[i].username), None);
    var found := FindFirst(users, (u: User) => Selects(q, u));
    assert Selects(q, users[i]);
    assert found == Some(i);
  }

  /** The answer never depends on password hashes: two tables that differ
      only in them give the same response. */
  lemma GetUserIgnoresPasswords(a: seq<User>, b: seq<User>, q: UserQuery)
    requires SameButPasswords(a, b)
    ensures GetUser(a, q) == GetUser(b, q)
  {
    FindFirstIgnoresPasswords(a, b, (u: User) => Selects(q, u));
    var found := FindFirst(a, (u: User) => Selects(q, u));
    if found.Some? {
      assert PublicView(a[found.value]) == PublicView(b[found.value]);
    }
  }
}
