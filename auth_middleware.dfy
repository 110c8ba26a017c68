/** The guard in front of every task handler and the user search: it takes
    the token from the `Authorization` header, verifies it, loads the user it
    names, and either records that user on the request and passes control on
    exactly once, or answers 401 and stops. */
module AuthMiddleware {
  import opened Wrappers
  import opened Http
  import opened Text
  import opened ObjectIds
  import opened Jwt
  import opened UserModel
  import opened AuthController

  const NoToken: string := "Not authorized, no token"
  const TokenFailed: string := "Not authorized, token failed"
  const UserNotFound: string := "Not authorized, user not found"

  const Bearer: string := "Bearer"

  /** The token of an `Authorization` header: when the header is present,
      non-empty and starts with "Bearer", the second of its space-separated
      pieces, if that piece exists and is non-empty. */
  function ExtractToken(authorization: Option<string>): (r: Option<string>)
    ensures r.Some? ==> Given(authorization) && IsPrefix(Bearer, authorization.value)
    ensures r.Some? ==> r.value != "" && ' ' !in r.value && r.value in Split(authorization.value, ' ')
  {
    if !Given(authorization) || !IsPrefix(Bearer, authorization.value) then None
    else
      var pieces := Split(authorization.value, ' ');
      if |pieces| >= 2 && pieces[1] != "" then Some(pieces[1]) else None
  }

  /** The general rule: a header made of a first word starting with "Bearer",
      one space, a word `t`, and then nothing or text starting with a space,
      yields `t` when `t` is non-empty and no token when it is empty. */
  lemma ExtractTokenRule(p: string, t: string, rest: string)
    requires IsPrefix(Bearer, p) && ' ' !in p && ' ' !in t
    requires rest == "" || rest[0] == ' '
    ensures ExtractToken(Some(p + " " + t + rest)) == if t == "" then None else Some(t)
  {
    var header := p + " " + t + rest;
    assert header == p + [' '] + (t + rest);
    assert header[..|Bearer|] == p[..|Bearer|];
    SplitAtFirstSeparator(p, ' ', t + rest);
    if rest == "" {
      assert t + rest == t;
      SplitWithoutSeparator(t, ' ');
    } else {
      assert t + rest == t + [' '] + rest[1..];
      SplitAtFirstSeparator(t, ' ', rest[1..]);
    }
  }

  /** A header starting with "Bearer" but holding no space carries no token:
      `split(" ")` gives it a single piece. */
  lemma ExtractTokenNeedsSpace(h: string)
    requires IsPrefix(Bearer, h) && ' ' !in h
    ensures ExtractToken(Some(h)) == None
  {
    SplitWithoutSeparator(h, ' ');
  }

  /** The usual header `"Bearer " + token`, possibly followed by more
      space-separated text, yields the token. */
  lemma BearerHeaderYieldsToken(token: string, rest: Option<string>)
    requires token != "" && ' ' !in token
    ensures var header := Bearer + " " + token + (if rest.Some? then " " + rest.value else "");
      ExtractToken(Some(header)) == Some(token)
  {
    var tail := token + (if rest.Some? then " " + rest.value else "");
    var header := Bearer + " " + token + (if rest.Some? then " " + rest.value else "");
    assert header == Bearer + [' '] + tail;
    assert IsPrefix(Bearer, header);
    SplitAtFirstSeparator(Bearer, ' ', tail);
    if rest.Some? {
      assert tail == token + [' '] + rest.value;
      SplitAtFirstSeparator(token, ' ', rest.value);
    } else {
      assert tail == token;
      SplitWithoutSeparator(token, ' ');
    }
  }

  /** The prefix test has no space after "Bearer": any header starting with
      it and followed by a space and a token yields that token, for instance
      "Bearerish tok". */
  lemma LooseBearerPrefix(word: string, token: string)
    requires ' ' !in word && token != "" && ' ' !in token
    ensures ExtractToken(Some(Bearer + word + " " + token)) == Some(token)
  {
    var header := Bearer + word + " " + token;
    assert header == (Bearer + word) + [' '] + token;
    assert header[..|Bearer|] == Bearer;
    SplitAtFirstSeparator(Bearer + word, ' ', token);
    SplitWithoutSeparator(token, ' ');
  }

  /** Headers that carry no token: none at all, "Bearer" alone, a second
      space in place of the token, and another scheme. */
  lemma NoTokenHeaders(token: string)
    ensures ExtractToken(None) == None
    ensures ExtractToken(Some("")) == None
    ensures ExtractToken(Some(Bearer)) == None
    ensures ExtractToken(Some(Bearer + "  " + token)) == None
    ensures ExtractToken(Some("Basic " + token)) == None
  {
    assert IsPrefix(Bearer, Bearer);
    ExtractTokenNeedsSpace(Bearer);
    assert Bearer + "  " + token == Bearer + " " + "" + (" " + token);
    ExtractTokenRule(Bearer, "", " " + token);
    assert ("Basic " + token)[..|Bearer|] != Bearer by {
      assert ("Basic " + token)[0] == 'B' && ("Basic " + token)[1] == 'a' && ("Basic " + token)[2] == 's';
    }
  }

  /** What the guard decides for a request: admit it as a user, read without
      the password, or reject it with a 401 message. */
  datatype Decision = Admit(user: PublicUser) | Reject(reason: string)

  /** The rejection ladder: no token; a token that does not verify, or whose
      id is not an identifier (the lookup then fails to cast it); no user
      with that id; otherwise the user, without the password. */
  function Authenticate(authorization: Option<string>, users: seq<User>, signer: Signer, now: int): Decision {
    match ExtractToken(authorization)
    case None => Reject(NoToken)
    case Some(token) =>
      match Verify(signer, token, now)
      case None => Reject(TokenFailed)
      case Some(id) =>
        if !IsValidId(id) then Reject(TokenFailed)
        else match FindById(users, id)
          case None => Reject(UserNotFound)
          case Some(i) => Admit(PublicView(users[i]))
  }

  /** Each rung of the ladder, in both directions. */
  lemma AuthenticateLadder(authorization: Option<string>, users: seq<User>, signer: Signer, now: int)
    ensures var d := Authenticate(authorization, users, signer, now);
      && (d == Reject(NoToken) <==> ExtractToken(authorization).None?)
      && (d == Reject(TokenFailed) <==>
            && ExtractToken(authorization).Some?
            && var id := Verify(signer, ExtractToken(authorization).value, now);
               id.None? || !IsValidId(id.value))
      && (d == Reject(UserNotFound) <==>
            && ExtractToken(authorization).Some?
            && var id := Verify(signer, ExtractToken(authorization).value, now);
               && id.Some? && IsValidId(id.value)
               && forall i | 0 <= i < |users| :: users[i].id != Canonical(id.value))
      && (d.Admit? ==>
            && ExtractToken(authorization).Some?
            && var id := Verify(signer, ExtractToken(authorization).value, now);
               && id.Some? && IsValidId(id.value)
               && exists i | 0 <= i < |users| :: users[i].id == Canonical(id.value) && d.user == PublicView(users[i]))
      && (d.Reject? ==> d.reason in {NoToken, TokenFailed, UserNotFound})
  {
    var d := Authenticate(authorization, users, signer, now);
    var token := ExtractToken(authorization);
    if token.Some? {
      var id := Verify(signer, token.value, now);
      if id.Some? && IsValidId(id.value) {
        var found := FindById(users, id.value);
        if found.Some? {
          assert d == Admit(PublicView(users[found.value]));
        }
      }
    }
  }

  /** End to end: the token a login issues, sent as "Bearer " + token before
      it expires, admits the user it was issued to; after it expires it is
      rejected as a failed token. */
  lemma IssuedTokenAdmitsItsUser(users: seq<User>, i: nat, signer: Signer, issuedAt: int, now: int)
    requires Sound(signer) && WellFormedUsers(users) && i < |users|
    ensures var header := Some(Bearer + " " + GenerateToken(signer, users[i].id, issuedAt));
      Authenticate(header, users, signer, now) ==
        if now < issuedAt + TokenLifetime then Admit(PublicView(users[i])) else Reject(TokenFailed)
  {
    var token := GenerateToken(signer, users[i].id, issuedAt);
    BearerHeaderYieldsToken(token, None);
    assert Bearer + " " + token + "" == Bearer + " " + token;
    TokenValidForSevenDays(signer, users[i].id, issuedAt, now);
    FindByOwnId(users, i);
  }

  /** The decision never depends on password hashes: two user tables that
      differ only in them admit and reject the same requests alike. */
  lemma AuthenticateIgnoresPasswords(authorization: Option<string>, a: seq<User>, b: seq<User>, signer: Signer, now: int)
    requires SameButPasswords(a, b)
    ensures Authenticate(authorization, a, signer, now) == Authenticate(authorization, b, signer, now)
  {
    var token := ExtractToken(authorization);
    if token.Some? {
      var id := Verify(signer, token.value, now);
      if id.Some? && IsValidId(id.value) {
        var key := Canonical(id.value);
        FindFirstIgnoresPasswords(a, b, (u: User) => u.id == key);
        var found := FindById(a, id.value);
        if found.Some? {
          assert PublicView(a[found.value]) == PublicView(b[found.value]);
        }
      }
    }
  }

  /** One request passing through the guard: the header it arrived with, the
      user the guard attaches to it, the response written if it is refused,
      and how many times the next handler has been called. */
  class Exchange {
    const authorization: Option<string>
    var user: Option<PublicUser>
    var response: Option<Reply<()>>
    var nextCalls: nat

    /** A request that has not been through the guard yet. */
    constructor (authorization: Option<string>)
      ensures this.authorization == authorization
      ensures user == None && response == None && nextCalls == 0
    {
      this.authorization := authorization;
      user := None;
      response := None;
      nextCalls := 0;
    }

    /** `protect`: when `Authenticate` admits the request, the user is
        attached and the next handler is called exactly once, and no response
        is written; otherwise a 401 with the rejection message is written,
        no user is attached and the next handler is not called. */
    method Protect(users: seq<User>, signer: Signer, now: int)
      modifies this
      ensures var d := Authenticate(authorization, users, signer, now);
        && (d.Admit? ==> user == Some(d.user) && nextCalls == old(nextCalls) + 1 && response == old(response))
        && (d.Reject? ==>
              && response == Some(Failure(UNAUTHORIZED, d.reason))
              && user == old(user) && nextCalls == old(nextCalls))
    {
      var d := Authenticate(authorization, users, signer, now);
      match d
      case Admit(u) =>
        user := Some(u);
        nextCalls := nextCalls + 1;
      case Reject(reason) =>
        response := Some(Failure(UNAUTHORIZED, reason));
    }
  }
}
