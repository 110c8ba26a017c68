/** The signed, time-limited identity tokens, with the signing library and
    its secret key left abstract: a `Signer` turns claims into a token string
    and decodes a token string back into claims when its signature is the
    key's; `Verify` adds the expiry check. Times are in seconds. */
module Jwt {
  import opened Wrappers

  const SecondsPerDay: int := 24 * 60 * 60

  /** A token's payload: the user id, the issue time and the expiry time. */
  datatype Claims = Claims(id: string, iat: int, exp: int)

  /** The signing library bound to the process-wide secret key. `decode`
      yields `None` for a malformed token or a bad signature. */
  datatype Signer = Signer(sign: Claims -> string, decode: string -> Option<Claims>)

  /** What the model assumes of the signing library: a signed token decodes
      to the claims it was made from, and is a non-empty string without
      spaces (so it can be carried in an `Authorization` header). */
  ghost predicate Sound(s: Signer) {
    forall c: Claims :: s.decode(s.sign(c)) == Some(c) && s.sign(c) != "" && ' ' !in s.sign(c)
  }

  /** Token verification: the token decodes and the current time is before
      its expiry; the result is the user id it carries. */
  function Verify(s: Signer, token: string, now: int): Option<string> {
    match s.decode(token)
    case None => None
    case Some(c) => if now < c.exp then Some(c.id) else None
  }

  /** A token from a sound signer is accepted exactly until its expiry, and
      then yields the id it was issued for. */
  lemma VerifySigned(s: Signer, c: Claims, now: int)
    requires Sound(s)
    ensures Verify(s, s.sign(c), now) == if now < c.exp then Some(c.id) else None
  {
  }
}
