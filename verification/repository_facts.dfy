/**
 * Properties that relate several repository operations: the round trips
 * the integration tests exercise, and what the UNIQUE email column and the
 * hashing axiom buy.
 */
module RepositoryFacts {
  import opened Wrappers
  import opened Externals
  import opened Users
  import opened UserRepository

  /** Because emails are unique, looking a row up by its email finds that same row. */
  lemma FindByEmailAgreesWithFindById(t: Table, id: int)
    requires id in t.rows
    ensures FindByEmail(t, t.rows[id].email) == FindById(t, id)
  {
  }

  /** An id the counter has not handed out yet, or a non-positive one, finds nothing. */
  lemma UnusedIdNotFound(t: Table, id: int)
    requires id < 1 || id >= t.nextId
    ensures FindById(t, id) == None
  {
  }

  /**
   * A user just created can log in with the password it was created with,
   * and the hash in the returned record verifies too, although it is a
   * different `password_hash` call from the stored one.
   */
  lemma CreatedUserValidates(t: Table, env: Env, email: Bytes, password: Bytes, now: Timestamp,
                             storedSalt: Salt, returnedSalt: Salt, clock: Timestamp)
    requires HashAxiom(env)
    requires Create(t, env, email, password, now, storedSalt, returnedSalt, clock).result.Success?
    ensures var s := Create(t, env, email, password, now, storedSalt, returnedSalt, clock);
            && ValidateCredentials(s.table, env, email, password)
            && env.verify(password, s.result.value.password)
  {
  }

  /** After a successful create, looking the email up finds the new user's stored row. */
  lemma CreateThenFindByEmail(t: Table, env: Env, email: Bytes, password: Bytes, now: Timestamp,
                              storedSalt: Salt, returnedSalt: Salt, clock: Timestamp)
    requires Create(t, env, email, password, now, storedSalt, returnedSalt, clock).result.Success?
    ensures var s := Create(t, env, email, password, now, storedSalt, returnedSalt, clock);
            FindByEmail(s.table, email) == Some(User(s.result.value.id, email, env.hash(password, storedSalt), now))
  {
  }

  /** `update` reads only the id and the email of the record it is given. */
  lemma UpdateIgnoresPasswordAndCreatedAt(t: Table, u: User, password: Bytes, createdAt: Timestamp)
    ensures Update(t, u.(password := password, createdAt := createdAt)) == Update(t, u)
  {
  }

  /**
   * Changing a created user's email to a free address and updating it makes
   * `findById` report the new email, with the stored hash and creation time
   * untouched.
   */
  lemma UpdateThenFindById(t: Table, u: User, email: Bytes)
    requires FindById(t, u.id).Some?
    requires !EmailTaken(t, email)
    ensures var s := Update(t, u.(email := email));
            && s.result == Success(())
            && FindById(s.table, u.id) == Some(User(u.id, email, t.rows[u.id].passwordHash, t.rows[u.id].createdAt))
  {
  }

  /** AUTOINCREMENT never hands a deleted id out again. */
  lemma DeletedIdNotReused(t: Table, id: int, env: Env, email: Bytes, password: Bytes, now: Timestamp,
                           storedSalt: Salt, returnedSalt: Salt, clock: Timestamp)
    requires FindById(t, id).Some?
    ensures var s := Create(Delete(t, id).table, env, email, password, now, storedSalt, returnedSalt, clock);
            s.result.Success? ==> s.result.value.id != id
  {
  }

  /** Creating three users with distinct valid emails on an empty table leaves three rows. */
  lemma ThreeCreatesCountThree(env: Env, e1: Bytes, e2: Bytes, e3: Bytes, password: Bytes, now: Timestamp,
                               salt: Salt, clock: Timestamp)
    requires env.isEmail(e1) && env.isEmail(e2) && env.isEmail(e3)
    requires e1 != e2 && e1 != e3 && e2 != e3
    requires Strlen(password) >= MinPasswordLength
    ensures var s1 := Create(Empty, env, e1, password, now, salt, salt, clock);
            var s2 := Create(s1.table, env, e2, password, now, salt, salt, clock);
            var s3 := Create(s2.table, env, e3, password, now, salt, salt, clock);
            && s1.result.Success? && s2.result.Success? && s3.result.Success?
            && Count(s3.table) == 3
  {
  }

  /**
   * On SQLite, every create that passes validation fails at the INSERT: the
   * create that succeeds on an engine with `NOW()` leaves the SQLite table
   * without the row, so `count` stays where it was.
   */
  lemma SqliteRejectsEveryValidCreate(t: Table, env: Env, email: Bytes, password: Bytes, now: Timestamp,
                                      storedSalt: Salt, returnedSalt: Salt, clock: Timestamp)
    requires Create(t, env, email, password, now, storedSalt, returnedSalt, clock).result.Success?
    ensures CreateOnSqlite(t, env, email, password) == Step(t, Failure(StorageError(NoSuchFunctionNowMessage)))
    ensures Count(Create(t, env, email, password, now, storedSalt, returnedSalt, clock).table) == Count(t) + 1
    ensures Count(CreateOnSqlite(t, env, email, password).table) == Count(t)
  {
  }
}
