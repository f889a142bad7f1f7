/**
 * The password hashing library, kept abstract: a hash function and a verifier
 * are parameters of the services that use them. Verifying may fault, as the
 * library does on a stored hash it cannot parse.
 */
module Hashing {

  datatype Verified = Verified(ok: bool) | VerifyFault(message: string)

  datatype Hasher = Hasher(hash: string -> string, verify: (string, string) -> Verified)

  /** The one law the services rely on: a password verifies against its own hash. */
  ghost predicate SoundHasher(h: Hasher) {
    forall p :: h.verify(p, h.hash(p)) == Verified(true)
  }
}
