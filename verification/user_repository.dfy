/**
 * The user repository as a state machine over an abstract `users` table.
 * Each SQL statement becomes an operation on a map from id to row; the
 * auto-increment counter and the UNIQUE email column are carried as the
 * table's invariant. Every mutating operation returns the next table
 * together with its result, and a failed one returns the table unchanged.
 */
module UserRepository {
  import opened Wrappers
  import opened Externals
  import opened Users

  const MinPasswordLength: nat := 6
  const InvalidEmailMessage: string := "Invalid email format"
  const ShortPasswordMessage: string := "Password must be at least 6 characters"

  datatype RepoError =
    | InvalidArgument(message: string)  // \InvalidArgumentException from create's validation
    | UniqueViolation                   // the storage engine rejects a duplicate email
    | StorageError(message: string)     // any other PDOException the engine throws

  /** One row of `users`; the `id` column is the key it is stored under. */
  datatype Row = Row(email: Bytes, passwordHash: Bytes, createdAt: Timestamp)

  datatype Store = Store(rows: map<int, Row>, nextId: int) {

    /**
     * What the schema guarantees: AUTOINCREMENT ids are positive and below
     * the next id to hand out, and no two rows share an email.
     */
    predicate Valid()
    {
      && 1 <= nextId
      && (forall id :: id in rows ==> 1 <= id < nextId)
      && (forall a, b :: a in rows && b in rows && rows[a].email == rows[b].email ==> a == b)
    }
  }

  type Table = s: Store | s.Valid() witness Store(map[], 1)

  /** A freshly created `users` table. */
  const Empty: Table := Store(map[], 1)

  /** The table after a statement, and what the PHP method returned or threw. */
  datatype Step<T> = Step(table: Table, result: Result<T, RepoError>)

  /** The row a user record is persisted as; the inverse of `Hydrate`. */
  function Dehydrate(u: User): Row
  {
    Row(u.email, u.password, u.createdAt)
  }

  /** `hydrateUser($row)`: the record carries the row's columns unchanged. */
  function Hydrate(id: int, row: Row): (u: User)
    ensures u.id == id
    ensures Dehydrate(u) == row
  {
    User(id, row.email, row.passwordHash, row.createdAt)
  }

  /** True when some row already holds `email`. */
  predicate EmailTaken(t: Table, email: Bytes)
  {
    exists id :: id in t.rows && t.rows[id].email == email
  }

  /** `findById($id)`: `SELECT * FROM users WHERE id = ?`. */
  function FindById(t: Table, id: int): (r: Option<User>)
    ensures r.Some? <==> id in t.rows
    ensures r.Some? ==> r.value.id == id && Dehydrate(r.value) == t.rows[id]
  {
    if id in t.rows then Some(Hydrate(id, t.rows[id])) else None
  }

  /**
   * `findByEmail($email)`: `SELECT * FROM users WHERE email = ?`. The UNIQUE
   * column makes the matching row, if any, the only one.
   */
  function FindByEmail(t: Table, email: Bytes): (r: Option<User>)
    ensures r.None? <==> !EmailTaken(t, email)
    ensures r.Some? ==> r.value.email == email && FindById(t, r.value.id) == r
  {
    if EmailTaken(t, email) then
      var id :| id in t.rows && t.rows[id].email == email;
      Some(Hydrate(id, t.rows[id]))
    else
      None
  }

  /**
   * `count()`: `SELECT COUNT(*) FROM users`. The contract only says when the
   * count is zero; its exact value is tied to the rows by `FindAll` (one
   * entry per row, `Count` entries in all) and by the +1 and -1 clauses of
   * `Create` and `Delete`.
   */
  function Count(t: Table): (n: nat)
    ensures n == 0 <==> forall id :: FindById(t, id).None?
  {
    if t.rows.Keys == {} then
      assert t.rows == map[];
      0
    else
      assert FindById(t, PickOne(t.rows.Keys)).Some?;
      |t.rows|
  }

  /**
   * The checks `create` makes before touching the database: the email
   * first, then the password length. None means both passed.
   */
  function CreateValidation(env: Env, email: Bytes, password: Bytes): (e: Option<RepoError>)
    ensures !env.isEmail(email) ==> e == Some(InvalidArgument(InvalidEmailMessage))
    ensures env.isEmail(email) && Strlen(password) < MinPasswordLength
        ==> e == Some(InvalidArgument(ShortPasswordMessage))
    ensures e.None? <==> env.isEmail(email) && Strlen(password) >= MinPasswordLength
  {
    if !env.isEmail(email) then Some(InvalidArgument(InvalidEmailMessage))
    else if Strlen(password) < MinPasswordLength then Some(InvalidArgument(ShortPasswordMessage))
    else None
  }

  /**
   * `create($email, $password)` on an engine that provides `NOW()`. The email is checked first, then the
   * password length, and only then is the row inserted. `now` is the
   * database's `NOW()`, `storedSalt` the salt of the hash that is stored,
   * and `returnedSalt` and `clock` those of the second `password_hash` call
   * and of the `new \DateTime()` in the returned record.
   */
  function Create(t: Table, env: Env, email: Bytes, password: Bytes, now: Timestamp,
                  storedSalt: Salt, returnedSalt: Salt, clock: Timestamp): (r: Step<User>)
    ensures !env.isEmail(email) ==> r == Step(t, Failure(InvalidArgument(InvalidEmailMessage)))
    ensures env.isEmail(email) && Strlen(password) < MinPasswordLength
        ==> r == Step(t, Failure(InvalidArgument(ShortPasswordMessage)))
    ensures env.isEmail(email) && Strlen(password) >= MinPasswordLength && EmailTaken(t, email)
        ==> r == Step(t, Failure(UniqueViolation))
    ensures r.result.Success?
        <==> env.isEmail(email) && Strlen(password) >= MinPasswordLength && !EmailTaken(t, email)
    ensures r.result.Success? ==>
        var u := r.result.value;
        && FindById(t, u.id).None?
        && FindById(r.table, u.id) == Some(User(u.id, email, env.hash(password, storedSalt), now))
        && (forall id :: id != u.id ==> FindById(r.table, id) == FindById(t, id))
        && Count(r.table) == Count(t) + 1
        && u == User(u.id, email, env.hash(password, returnedSalt), clock)
  {
    if CreateValidation(env, email, password).Some? then
      Step(t, Failure(CreateValidation(env, email, password).value))
    else if EmailTaken(t, email) then
      Step(t, Failure(UniqueViolation))
    else
      var id := t.nextId;
      var rows' := t.rows[id := Row(email, env.hash(password, storedSalt), now)];
      assert rows'.Keys == t.rows.Keys + {id};
      var t': Table := Store(rows', id + 1);
      Step(t', Success(User(id, email, env.hash(password, returnedSalt), clock)))
  }

  /** What SQLite reports when a statement calls a function it does not define. */
  const NoSuchFunctionNowMessage: string := "no such function: NOW"

  /**
   * `create($email, $password)` as written, run on SQLite, the engine the
   * integration tests connect to. Validation happens as before, but SQLite
   * defines no `NOW()`, so preparing the INSERT throws and no row is ever
   * written, whatever the input.
   */
  function CreateOnSqlite(t: Table, env: Env, email: Bytes, password: Bytes): (r: Step<User>)
    ensures r.table == t && r.result.Failure?
    ensures !env.isEmail(email) ==> r.result.error == InvalidArgument(InvalidEmailMessage)
    ensures env.isEmail(email) && Strlen(password) < MinPasswordLength
        ==> r.result.error == InvalidArgument(ShortPasswordMessage)
    ensures env.isEmail(email) && Strlen(password) >= MinPasswordLength
        ==> r.result.error == StorageError(NoSuchFunctionNowMessage)
  {
    match CreateValidation(env, email, password)
    case Some(e) => Step(t, Failure(e))
    case None => Step(t, Failure(StorageError(NoSuchFunctionNowMessage)))
  }

  /** True when a row other than `id` holds `email`. */
  predicate EmailHeldByOther(t: Table, id: int, email: Bytes)
  {
    exists other :: other in t.rows && other != id && t.rows[other].email == email
  }

  /**
   * `update($user)`: `UPDATE users SET email = ? WHERE id = ?`. Only the
   * email column is written; the record's password and creation time are
   * ignored. No matching row is a silent no-op.
   */
  function Update(t: Table, u: User): (r: Step<()>)
    ensures r.result.Failure? <==> u.id in t.rows && EmailHeldByOther(t, u.id, u.email)
    ensures r.result.Failure? ==> r == Step(t, Failure(UniqueViolation))
    ensures FindById(t, u.id).None? ==> r == Step(t, Success(()))
    ensures r.result.Success? && FindById(t, u.id).Some?
        ==> FindById(r.table, u.id) == Some(FindById(t, u.id).value.(email := u.email))
    ensures forall id :: id != u.id ==> FindById(r.table, id) == FindById(t, id)
    ensures Count(r.table) == Count(t)
  {
    if u.id !in t.rows then
      Step(t, Success(()))
    else if EmailHeldByOther(t, u.id, u.email) then
      Step(t, Failure(UniqueViolation))
    else
      var rows' := t.rows[u.id := t.rows[u.id].(email := u.email)];
      assert rows'.Keys == t.rows.Keys;
      var t': Table := Store(rows', t.nextId);
      Step(t', Success(()))
  }

  /**
   * `delete($id)`: `DELETE FROM users WHERE id = ?`. The method returns
   * what `execute` returns, which is true whether or not a row matched.
   */
  function Delete(t: Table, id: int): (r: Step<bool>)
    ensures r.result == Success(true)
    ensures FindById(r.table, id).None?
    ensures forall other :: other != id ==> FindById(r.table, other) == FindById(t, other)
    ensures Count(r.table) == if FindById(t, id).Some? then Count(t) - 1 else Count(t)
    ensures r.table.nextId == t.nextId
  {
    var rows' := t.rows - {id};
    assert id in t.rows ==> rows'.Keys + {id} == t.rows.Keys;
    var t': Table := Store(rows', t.nextId);
    Step(t', Success(true))
  }

  /**
   * `validateCredentials($email, $password)`: false when no user has the
   * email, otherwise whatever `password_verify` says about the stored hash.
   */
  function ValidateCredentials(t: Table, env: Env, email: Bytes, password: Bytes): (ok: bool)
    ensures !EmailTaken(t, email) ==> !ok
    ensures forall id :: id in t.rows && t.rows[id].email == email ==>
              (ok <==> env.verify(password, t.rows[id].passwordHash))
  {
    match FindByEmail(t, email)
    case None => false
    case Some(u) => env.verify(password, u.password)
  }

  /** True when `id` has the latest creation time among `ids`. */
  predicate IsLatest(rows: map<int, Row>, ids: set<int>, id: int)
    requires ids <= rows.Keys && id in rows
  {
    forall other :: other in ids ==> rows[other].createdAt <= rows[id].createdAt
  }

  /** A non-empty set has an element. */
  lemma NonEmptyHasElement(s: set<int>)
    requires s != {}
    ensures exists x :: x in s
  {
    if forall x :: x !in s {
      assert false;
    }
  }

  /** Some element of a non-empty set. */
  ghost function PickOne(s: set<int>): (x: int)
    requires s != {}
    ensures x in s
  {
    NonEmptyHasElement(s);
    var x :| x in s; x
  }

  lemma {:induction false} LatestExists(rows: map<int, Row>, ids: set<int>)
    requires ids != {} && ids <= rows.Keys
    ensures exists id :: id in ids && IsLatest(rows, ids, id)
    decreases ids
  {
    var x := PickOne(ids);
    if ids != {x} {
      var rest := ids - {x};
      LatestExists(rows, rest);
      var y :| y in rest && IsLatest(rows, rest, y);
      if rows[x].createdAt <= rows[y].createdAt {
        assert IsLatest(rows, ids, y);
      } else {
        assert IsLatest(rows, ids, x);
      }
    } else {
      assert IsLatest(rows, ids, x);
    }
  }

  /**
   * `users` lists, newest first and each once, exactly the rows outside
   * `rest`, and none of them is older than a row still in `rest`.
   */
  ghost predicate Listed(t: Table, users: seq<User>, rest: set<int>)
  {
    && rest <= t.rows.Keys
    && |users| + |rest| == |t.rows|
    && (forall i :: 0 <= i < |users| ==> FindById(t, users[i].id) == Some(users[i]) && users[i].id !in rest)
    && (forall i, j :: 0 <= i < j < |users| ==> users[i].id != users[j].id)
    && (forall id :: id in t.rows && id !in rest ==> exists i :: 0 <= i < |users| && users[i].id == id)
    && (forall i, j :: 0 <= i < j < |users| ==> users[i].createdAt >= users[j].createdAt)
    && (forall i, id :: 0 <= i < |users| && id in rest ==> users[i].createdAt >= t.rows[id].createdAt)
  }

  /** Appending the latest remaining row keeps the listing invariant. */
  lemma ListedStep(t: Table, users: seq<User>, rest: set<int>, id: int)
    requires Listed(t, users, rest)
    requires id in rest && IsLatest(t.rows, rest, id)
    ensures Listed(t, users + [Hydrate(id, t.rows[id])], rest - {id})
  {
    var users' := users + [Hydrate(id, t.rows[id])];
    var rest' := rest - {id};
    assert users'[|users|].id == id;
    assert forall i :: 0 <= i < |users| ==> users'[i] == users[i];
    forall other | other in t.rows && other !in rest'
      ensures exists i :: 0 <= i < |users'| && users'[i].id == other
    {
      if other == id {
        assert users'[|users|].id == other;
      } else {
        var i :| 0 <= i < |users| && users[i].id == other;
        assert users'[i].id == other;
      }
    }
  }

  /**
   * `findAll()`: `SELECT * FROM users ORDER BY created_at DESC`. Every row
   * appears exactly once, newest first; rows with equal creation times come
   * in an unspecified order.
   */
  method FindAll(t: Table) returns (users: seq<User>)
    ensures |users| == Count(t)
    ensures forall i :: 0 <= i < |users| ==> FindById(t, users[i].id) == Some(users[i])
    ensures forall i, j :: 0 <= i < j < |users| ==> users[i].id != users[j].id
    ensures forall id :: id in t.rows ==> exists i :: 0 <= i < |users| && users[i].id == id
    ensures forall i, j :: 0 <= i < j < |users| ==> users[i].createdAt >= users[j].createdAt
  {
    users := [];
    var rest := t.rows.Keys;
    while rest != {}
      invariant Listed(t, users, rest)
      decreases |rest|
    {
      LatestExists(t.rows, rest);
      var id :| id in rest && IsLatest(t.rows, rest, id);
      ListedStep(t, users, rest, id);
      users := users + [Hydrate(id, t.rows[id])];
      rest := rest - {id};
    }
  }
}
