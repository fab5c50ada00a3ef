# Calculator and user repository, modelled in Dafny

This project models the two units of a small PHP code base.

- **Calculator.** Integer `sum`, `subtract` and `multiply`, a `divide`, and a recursive
  `factorial` that rejects negative input.
- **User and UserRepository.** A `User` record with a `toArray` projection that leaves the password out. A
  repository performs create, find by id, find by email, find all, update, delete, count and
  credential validation on a `users` table.

Layout:

- `wrappers.dfy`: `Option` (PHP's `null` result) and `Result` (a value, or the exception thrown).
- `externals.dfy`: what the code calls but does not implement.
  - Byte strings: PHP strings are bytes, and `strlen` counts bytes.
  - Timestamps and salts.
  - An `Env` holding three uninterpreted primitives: the `FILTER_VALIDATE_EMAIL` predicate,
    `password_hash` with an explicit salt argument, and `password_verify`.
  - `HashAxiom`, the single assumption `verify(p, hash(p, s))`.
- `calculator.dfy`: module `Calculator`.
  - PHP `int` is 64-bit, and the file declares `strict_types=1`. When `+`, `-` or `*` leave that
    range, PHP produces a float, and returning a float from a function declared `: int` throws a
    `TypeError`. The model returns `Failure(ReturnTypeError)` in that case.
  - As a result, `factorial(n)` succeeds exactly for `0 <= n <= 20`. The model proves this against
    the mathematical `Fact`.
- `user.dfy`: module `Users`, with the `User` record and `toArray` as an ordered key/value list.
  - The PHP constructor only promotes its four parameters to properties. A datatype constructor does
    the same, so it needs no separate member.
- `user_repository.dfy`: module `UserRepository`, a state machine over a `Table`.
  - A `Table` maps ids to `Row(email, passwordHash, createdAt)` and holds an auto-increment counter.
  - `Table` is a subset type. It carries the schema's guarantees: ids lie in `[1, nextId)`, and no
    two rows share an email (the test schema declares `email` UNIQUE).
  - Each mutating operation returns the next table together with its result. A failure returns the
    table unchanged.
  - `create` checks the email, then the password length (at least 6 bytes), and only then inserts
    (`CreateValidation` holds the two checks).
  - An insert, or an update that would duplicate another row's email, fails with `UniqueViolation`.
  - `update` writes only the email column. An unknown id is a silent no-op.
  - `delete` always returns `true`, because it returns `execute`'s result whether or not a row matched.
  - `findAll` is a method that repeatedly selects the latest remaining row. Ties are broken arbitrarily.
- `repository_facts.dfy`: module `RepositoryFacts`, with lemmas that relate several operations.

Clock readings are parameters of `create`. `now` stands for the database's `NOW()`, and `clock` for the
`new \DateTime()` in the returned record. The random salts of the two `password_hash` calls are
parameters too. The record `create` returns therefore carries a different hash from the stored one,
and the model does not claim the two are equal. Under `HashAxiom`, both hashes verify the password.

Two behaviours that follow from the code rather than from any comment in it:

- `delete` returns `execute`'s result (src/UserRepository.php:111), which is `true` whether or not a
  row matched.
- An `update` to an email another row already holds breaks the UNIQUE column declared in
  tests/Integration/UserRepositoryTest.php:26, so it throws, like a duplicate on `create`.

`Create` models `create` on an engine that provides `NOW()`. The integration tests connect to
SQLite (tests/Integration/UserRepositoryTest.php:19), which has no such function. `CreateOnSqlite`
models that combination; see "## Findings".

## Model

| member | source | states |
|---|---|---|
| Calculator.Sum | src/Calculator.php:15-18 | succeeds exactly when `a + b` fits in a PHP int, and then returns `a + b`; otherwise a TypeError |
| Calculator.Subtract | src/Calculator.php:23-26 | succeeds exactly when `a - b` fits in a PHP int, and then returns `a - b`; otherwise a TypeError |
| Calculator.Multiply | src/Calculator.php:31-34 | succeeds exactly when `a * b` fits in a PHP int, and then returns `a * b`; otherwise a TypeError |
| Calculator.Divide | src/Calculator.php:41-48 | fails with DivisionByZero exactly when the divisor is 0.0; otherwise the quotient times the divisor is the dividend |
| Calculator.Factorial | src/Calculator.php:53-64 | InvalidArgument("Factorial of negative number") exactly for `n < 0`; success exactly for `0 <= n <= 20` with the value `Fact(n)`; a TypeError for `n > 20` (recursion depth is not modelled, see "## Left out") |
| Calculator.FactorialStep | src/Calculator.php:63 | for `2 <= n <= 20`, `factorial(n) == n * factorial(n - 1)` |
| Calculator.FactorialAtLeastOne | src/Calculator.php:59-63 | every factorial returned is at least 1 |
| Calculator.SumSubtractInverse | src/Calculator.php:15-26 | subtracting `b` from `sum(a, b)` gives back `a` |
| Calculator.SumAndMultiplyCommute | src/Calculator.php:15-34 | `sum` and `multiply` are commutative, including when they fail |
| Calculator.CalculatorExamples | tests/Unit/CalculatorTest.php:22-109 | the values the unit tests expect, plus `sum(PHP_INT_MAX, 1)` and `factorial(21)` failing |
| Users.ToArray | src/User.php:20-27 | the keys are exactly `id`, `email`, `created_at` in that order, never `password`; the values are the id, the email and the formatted creation time |
| Users.ToArrayDeterminedBy | src/User.php:20-27 | two users project alike if and only if their ids, emails and formatted creation times agree |
| Users.ToArrayIgnoresPassword | src/User.php:20-27 | changing only the password leaves the projection unchanged |
| UserRepository.Hydrate | src/UserRepository.php:149-157 | the record has the row's id, and turning it back into a row gives the row |
| UserRepository.FindById | src/UserRepository.php:50-61 | a user exactly when a row has the id, and that user carries the id and the row's columns |
| UserRepository.FindByEmail | src/UserRepository.php:66-77 | null exactly when no row has the email; otherwise a user with that email, the same one `findById` gives for its id |
| UserRepository.Count | src/UserRepository.php:117-129 | zero exactly when `findById` finds nothing for every id |
| UserRepository.CreateValidation | src/UserRepository.php:23-29 | a bad email yields "Invalid email format" whatever the password; a good email with a password under 6 bytes yields "Password must be at least 6 characters"; no error exactly when both checks pass |
| UserRepository.Create | src/UserRepository.php:21-45 | on an engine with `NOW()`: a bad email fails with "Invalid email format" whatever the password; then a short password fails with "Password must be at least 6 characters"; then a taken email fails; every failure leaves the table unchanged; success adds exactly one row under a fresh id with the email, `hash(password, storedSalt)` and `NOW()`, leaves every other id unchanged, and adds one to `count`; the returned user has that id and email, a second hash and the application clock |
| UserRepository.CreateOnSqlite | src/UserRepository.php:21-35 | on SQLite: the same two validation errors in the same order, and otherwise "no such function: NOW"; the table never changes |
| UserRepository.Update | src/UserRepository.php:98-102 | fails only when the id exists and another row holds the new email, and then leaves the table unchanged; an unknown id is a no-op; otherwise only the email of that row changes and every other id and the count stay unchanged |
| UserRepository.Delete | src/UserRepository.php:107-112 | returns true in every case; afterwards `findById(id)` is null; every other id is unchanged; the count drops by one exactly when the row existed; the id counter is kept |
| UserRepository.ValidateCredentials | src/UserRepository.php:134-143 | false when no row has the email; otherwise exactly `password_verify(password, stored hash)` |
| UserRepository.FindAll | src/UserRepository.php:84-93 | lists every row exactly once, hydrated, as many as `count`, with creation times non-increasing |
| RepositoryFacts.FindByEmailAgreesWithFindById | src/UserRepository.php:66-77 | since emails are unique, looking a row up by its email finds that same row |
| RepositoryFacts.UnusedIdNotFound | tests/Integration/UserRepositoryTest.php:84-88 | an id that was never handed out finds nothing |
| RepositoryFacts.CreatedUserValidates | tests/Integration/UserRepositoryTest.php:158-164 | under the hash axiom, a freshly created user's credentials validate, and so does the hash in the returned record |
| RepositoryFacts.CreateThenFindByEmail | tests/Integration/UserRepositoryTest.php:93-100 | after a create, `findByEmail` returns the stored row of the new user |
| RepositoryFacts.UpdateIgnoresPasswordAndCreatedAt | src/UserRepository.php:98-102 | `update` reads only the id and email of the record it is given |
| RepositoryFacts.UpdateThenFindById | tests/Integration/UserRepositoryTest.php:132-141 | updating to a free email makes `findById` return the new email with the stored hash and creation time unchanged |
| RepositoryFacts.DeletedIdNotReused | tests/Integration/UserRepositoryTest.php:25 | after a delete, a create never hands out the deleted id again |
| RepositoryFacts.ThreeCreatesCountThree | tests/Integration/UserRepositoryTest.php:105-127 | three creates with distinct valid emails on an empty table all succeed and leave a count of 3 (so `findAll` lists 3 users, by its `Count` clause) |
| RepositoryFacts.SqliteRejectsEveryValidCreate | src/UserRepository.php:31 | a create that succeeds and adds one row on an engine with `NOW()` fails on SQLite with the table and count unchanged |

## Findings

| source | as written | input that shows it | evidently intended | confidence | as-written member | corrected member |
|---|---|---|---|---|---|---|
| src/UserRepository.php:31 | the INSERT calls `NOW()`, which SQLite does not define; the integration tests run on `sqlite::memory:` (tests/Integration/UserRepositoryTest.php:19) | `create('john@example.com', 'password123')` on the test database: preparing the statement throws "no such function: NOW" and no row is written | the row is inserted with the current time, for example through `CURRENT_TIMESTAMP`, which both SQLite and MySQL accept | medium, not executed | UserRepository.CreateOnSqlite (with RepositoryFacts.SqliteRejectsEveryValidCreate) | UserRepository.Create |

## Left out

- Calculator.Factorial: the recursion depth and PHP's memory limit are not modelled. `factorial($n)`
  recurses `n` levels before its first multiplication. For large `n` (about a million under the
  default 128M limit, and certainly `PHP_INT_MAX`) PHP stops with a fatal "Allowed memory size
  exhausted" error. The model reports the TypeError that a shallow enough stack would reach.
- UserRepository.Create: assumes an engine that provides `NOW()`. The SQLite behaviour is
  `CreateOnSqlite`, under "## Findings".
- Calculator.Divide: works over exact reals. Floating-point rounding, `-0.0` (which PHP also rejects as
  zero), and infinities and NaN are not modelled.
- PDO and SQL are replaced by the in-memory table. This covers the connection, statement preparation,
  the SQL text and the `lastInsertId` plumbing (the `(int)` casts are identities here). The model
  assumes `PDO::ERRMODE_EXCEPTION`, as the tests set it. Under that mode a constraint violation is
  thrown, not returned as `false`.
- The storage-failure fallbacks of `findAll` and `count`, where `query()` returns `false`, are not
  modelled. They return an empty list and zero. No storage failure occurs in the model.
- `create` inserts a row and then reads the generated id, with no transaction around the two steps. A
  crash between them is I/O behaviour and is not modelled.
- `filter_var(..., FILTER_VALIDATE_EMAIL)`, `password_hash` and `password_verify` are uninterpreted.
  The model does not cover PHP's email grammar, bcrypt internals, or bcrypt's 72-byte truncation.
- `DateTime` is abstracted. Construction, the parsing in `hydrateUser`, the `NOW()` clock, and
  `format('Y-m-d H:i:s')` are not modelled. Timestamps are integers. `toArray` takes the format
  function as a parameter. `ORDER BY created_at` is modelled as ordering by timestamp.
- SQLite's limit on AUTOINCREMENT ids (the largest 64-bit integer) is not modelled. The id counter is
  unbounded.
