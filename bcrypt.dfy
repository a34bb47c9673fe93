/**
 * bcryptjs as the handlers use it. The library is foreign, so its two
 * operations are a value of the handlers' environment: `hash` takes the
 * password and the random salt bcrypt.hash draws at cost factor 10, and
 * `compare` answers bcrypt.compare.
 */
module Bcrypt {

  /** The salt a call to bcrypt.hash draws. */
  type Salt = nat

  datatype Hasher = Hasher(hash: (string, Salt) -> string, compare: (string, string) -> bool)

  /** The one fact relied on: a password matches every hash made of it. */
  ghost predicate Sound(h: Hasher) {
    forall password, salt :: h.compare(password, h.hash(password, salt))
  }
}
