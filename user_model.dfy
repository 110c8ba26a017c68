/** The user records the handlers read and write, the projections of a user
    that responses may carry, and `findOne` over the user table. */
module UserModel {
  import opened Wrappers
  import opened ObjectIds

  /** A stored user; `passwordHash` is the salted hash of the password. */
  datatype User = User(
    id: string,
    username: string,
    email: string,
    passwordHash: string,
    fullName: string,
    gender: string)

  /** A user selected without the password. */
  datatype PublicUser = PublicUser(id: string, username: string, email: string, fullName: string, gender: string)

  /** The user summary in the register and login responses. */
  datatype UserSummary = UserSummary(id: string, username: string, email: string, fullName: string)

  /** `select("-password")`. */
  function PublicView(u: User): PublicUser {
    PublicUser(u.id, u.username, u.email, u.fullName, u.gender)
  }

  function Summary(u: User): UserSummary {
    UserSummary(u.id, u.username, u.email, u.fullName)
  }

  /** `findOne(filter)` without a sort: the first user in table order that
      satisfies `p`, if any. */
  function FindFirst(users: seq<User>, p: User -> bool): (r: Option<nat>)
    ensures r.Some? ==> r.value < |users| && p(users[r.value])
    ensures r.Some? ==> forall k | 0 <= k < r.value :: !p(users[k])
    ensures r.None? <==> forall k | 0 <= k < |users| :: !p(users[k])
  {
    if users == [] then None
    else if p(users[0]) then Some(0)
    else match FindFirst(users[1..], p)
      case None => None
      case Some(i) => Some(i + 1)
  }

  /** `findById(id)`: ids are compared in their stored form. */
  function FindById(users: seq<User>, id: string): Option<nat>
    requires IsValidId(id)
  {
    FindFirst(users, (u: User) => u.id == Canonical(id))
  }

  /** The user-table invariant the registration handler keeps: stored-form
      ids, no two users with the same id, username or email. */
  predicate WellFormedUsers(users: seq<User>) {
    && (forall i | 0 <= i < |users| :: IsCanonical(users[i].id))
    && (forall i, j | 0 <= i < j < |users| ::
          users[i].id != users[j].id && users[i].username != users[j].username && users[i].email != users[j].email)
  }

  /** In a well-formed table, looking a user up by its own id finds it. */
  lemma FindByOwnId(users: seq<User>, i: nat)
    requires WellFormedUsers(users) && i < |users|
    ensures IsValidId(users[i].id) && FindById(users, users[i].id) == Some(i)
  {
    CanonicalOfCanonical(users[i].id);
  }

  /** Two tables that agree on everything but the password hashes. */
  predicate SameButPasswords(a: seq<User>, b: seq<User>) {
    |a| == |b| && forall i | 0 <= i < |a| :: PublicView(a[i]) == PublicView(b[i])
  }

  /** A search that does not look at password hashes finds the same position
      in two tables that differ only in them. */
  lemma FindFirstIgnoresPasswords(a: seq<User>, b: seq<User>, p: User -> bool)
    requires SameButPasswords(a, b)
    requires forall u: User, v: User :: PublicView(u) == PublicView(v) ==> p(u) == p(v)
    ensures FindFirst(a, p) == FindFirst(b, p)
  {
    assert forall k | 0 <= k < |a| :: p(a[k]) == p(b[k]);
  }
}
