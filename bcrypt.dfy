/**
 * A stand-in for the bcrypt library: `hash(plain, 10)` and `compare(plain, hash)`.
 * The digest is modelled as the cost prefix followed by the plaintext, a
 * deterministic and injective transform; salting and one-wayness are not modelled.
 */
module Bcrypt {

  /** The cost factor every call in the source passes. */
  const SaltRounds: nat := 10

  /** A cost factor as the two decimal digits a digest writes it with. */
  function CostDigits(cost: nat): (d: string)
    requires cost < 100
    ensures |d| == 2 && '0' <= d[0] <= '9' && '0' <= d[1] <= '9'
    ensures (d[0] as int - '0' as int) * 10 + (d[1] as int - '0' as int) == cost
  {
    [(cost / 10 + '0' as int) as char, (cost % 10 + '0' as int) as char]
  }

  /** The bcrypt version tag and the cost factor, as they open every digest: `$2b$10$`. */
  const Prefix: string := "$2b$" + CostDigits(SaltRounds) + "$"

  /** `bcrypt.hash(plain, SaltRounds)`. */
  function Hash(plain: string): (h: string)
    ensures |h| == |plain| + |Prefix| && h[..|Prefix|] == Prefix
  {
    Prefix + plain
  }

  /** `bcrypt.compare(plain, h)` on two present arguments. */
  predicate Compare(plain: string, h: string) {
    h == Hash(plain)
  }

  /** A password always matches its own digest. */
  lemma CompareHash(plain: string)
    ensures Compare(plain, Hash(plain))
  {
  }

  /** A digest accepts its own password and no other. */
  lemma CompareOnlyOwnHash(p: string, q: string)
    ensures Compare(p, Hash(q)) <==> p == q
  {
    if Hash(q) == Hash(p) {
      assert p == Hash(p)[|Prefix|..];
      assert q == Hash(q)[|Prefix|..];
    }
  }

  /** A digest never equals the password it was made from. */
  lemma HashIsNotPlain(p: string)
    ensures Hash(p) != p
  {
  }
}
