/**
 * A stand-in for the jsonwebtoken library (JSON Web Tokens, RFC 7519).
 * A token the server signs carries its claims, the key it was signed with and
 * its issue time in seconds; anything else a client presents is an opaque
 * string. Two tokens signed with the same claims and key in the same second
 * are the same token. Expiry is not modelled.
 */
module Jwt {
  import opened Wrappers
  import opened Text

  type UserId = nat

  /** The payloads the controller signs: `{_id, email, username, fullName}` and `{_id}`. */
  datatype Claims =
    | AccessClaims(id: UserId, email: Option<string>, username: Option<string>, fullName: Option<string>)
    | RefreshClaims(id: UserId)

  datatype Token =
    | Signed(claims: Claims, key: string, iat: nat)
    | Opaque(text: string)

  /** A presented token that is truthy: present and not the empty string. */
  predicate Present(t: Option<Token>) {
    t.Some? && t.value != Opaque("")
  }

  /** `jwt.sign(claims, secret)` at time `now`; it throws when the secret is missing or empty. */
  function Sign(claims: Claims, secret: Option<string>, now: nat): (r: Option<Token>)
    ensures r.Some? <==> Truthy(secret)
    ensures r.Some? ==> Present(r)
  {
    if Truthy(secret) then Some(Signed(claims, secret.value, now)) else None
  }

  /** `jwt.verify(t, secret)`: the claims when `t` was signed with `secret`, nothing when it throws. */
  function Verify(t: Token, secret: Option<string>): (r: Option<Claims>)
    ensures r.Some? <==> t.Signed? && Truthy(secret) && t.key == secret.value
    ensures r.Some? ==> r.value == t.claims
  {
    match t
    case Signed(claims, key, _) => if Truthy(secret) && secret.value == key then Some(claims) else None
    case Opaque(_) => None
  }

  /** Verifying with the signing key gives back the signed claims. */
  lemma VerifySigned(claims: Claims, secret: Option<string>, now: nat)
    requires Truthy(secret)
    ensures Verify(Sign(claims, secret, now).value, secret) == Some(claims)
  {
  }

  /** Only a token signed with `secret` verifies under it. */
  lemma VerifyOnlySigned(t: Token, secret: Option<string>, claims: Claims)
    requires Verify(t, secret) == Some(claims)
    ensures Truthy(secret) && t == Signed(claims, secret.value, t.iat)
  {
  }
}
