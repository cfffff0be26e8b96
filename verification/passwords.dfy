/**
 * Password hashing as the fallback store uses it: `generate_password_hash`
 * when a user registers and `check_password_hash` when a user logs in.
 *
 * The real functions come from a foreign library and draw a random salt.
 * Here the salt is an explicit argument (the caller supplies the random
 * value), and the digest is an injective stand-in. The one fact the rest of
 * the model relies on is `CheckHash`: a hash checks against the password it
 * was made from and against no other.
 */
module Passwords {

  /** A stored hash: the salt it was made with and the digest of salt and password. */
  datatype PasswordHash = PasswordHash(salt: string, digest: string)

  /** Stand-in for the keyed digest; only its injectivity in `password` matters. */
  function Digest(salt: string, password: string): string
  {
    salt + password
  }

  /** `generate_password_hash(password)` with the salt it happened to draw. */
  function Hash(salt: string, password: string): PasswordHash
  {
    PasswordHash(salt, Digest(salt, password))
  }

  /** `check_password_hash(hash, password)`: digest again with the stored salt and compare. */
  predicate Check(hash: PasswordHash, password: string)
  {
    hash.digest == Digest(hash.salt, password)
  }

  /** Two passwords digested with the same salt collide only if they are equal. */
  lemma DigestInjective(salt: string, p: string, q: string)
    ensures Digest(salt, p) == Digest(salt, q) ==> p == q
  {
    if Digest(salt, p) == Digest(salt, q) {
      assert p == Digest(salt, p)[|salt|..];
      assert q == Digest(salt, q)[|salt|..];
    }
  }

  /** Checking a hash succeeds exactly for the password it was generated from. */
  lemma CheckHash(salt: string, p: string, q: string)
    ensures Check(Hash(salt, p), q) <==> p == q
  {
    DigestInjective(salt, p, q);
  }
}
