/**
 * The bcrypt library, a foreign component. The store only hashes a password
 * (inside `NewUser::create`) and verifies a cleartext against a stored hash
 * (`bcrypt::verify`); both are functions the store is configured with.
 */
module Bcrypt {
  import opened Rows

  /**
   * `hash` is the salted one-way function applied at registration; `isHash`
   * says whether a stored string parses as a bcrypt hash at all; `verify`
   * is `bcrypt::verify`: None for an engine failure, otherwise whether the
   * cleartext matches the stored hash.
   */
  datatype Hasher = Hasher(
    hash: string -> string,
    isHash: string -> bool,
    verify: (string, string) -> Option<bool>)
  {
    /**
     * What the store relies on: every hash produced parses again, a password
     * verifies against its own hash, and verification fails as an engine
     * error exactly on a string that is not a hash.
     */
    ghost predicate Sound() {
      && (forall p :: isHash(hash(p)))
      && (forall p :: verify(p, hash(p)) == Some(true))
      && (forall p, s :: verify(p, s).None? <==> !isHash(s))
    }
  }

  /** A password verifies against its own hash, and a stored hash never makes verification fail. */
  lemma VerifyOwnHash(h: Hasher, password: string, stored: string)
    requires h.Sound()
    ensures h.verify(password, h.hash(password)) == Some(true)
    ensures h.isHash(stored) ==> h.verify(password, stored).Some?
  {
  }
}
