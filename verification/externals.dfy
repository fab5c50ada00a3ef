/**
 * The collaborators the PHP code calls but does not implement: byte strings,
 * the clock's timestamps, `filter_var(..., FILTER_VALIDATE_EMAIL)`,
 * `password_hash` and `password_verify`. They are kept uninterpreted: an
 * `Env` carries them as function values, and the only fact assumed about
 * them is `HashAxiom` (a password verifies against any hash made of it).
 */
module Externals {

  /** PHP strings are byte strings; `strlen` counts bytes. */
  newtype byte = b: int | 0 <= b < 256

  type Bytes = seq<byte>

  /** `strlen($s)` */
  function Strlen(s: Bytes): nat
  {
    |s|
  }

  /**
   * A point in time (the database's `NOW()` or the application's
   * `new \DateTime()`). Only its total order matters to the model.
   */
  type Timestamp = int

  /**
   * The random salt `password_hash` draws on each call; two calls with the
   * same password generally differ because their salts differ.
   */
  type Salt = nat

  /** The uninterpreted primitives the repository delegates to. */
  datatype Env = Env(
    isEmail: Bytes -> bool,             // filter_var($e, FILTER_VALIDATE_EMAIL) is truthy
    hash: (Bytes, Salt) -> Bytes,       // password_hash($p, PASSWORD_BCRYPT) drawing salt s
    verify: (Bytes, Bytes) -> bool      // password_verify($p, $hash)
  )

  /** The one property assumed of the hashing pair. */
  ghost predicate HashAxiom(env: Env)
  {
    forall p, s :: env.verify(p, env.hash(p, s))
  }
}
