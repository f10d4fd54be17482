# helix-user-app: the domain/storage boundary in Dafny

This project models the core of the helix user-account backend. That core sits between the
application logic and the relational store and has three parts:

- **The user domain service** (`UserDomain`, module `Domain`).
  - It derives the credential key `login ++ ":" ++ SHA-256(login ++ password ++ "__H3l!X__")`.
  - It logs in by asking storage for that key. A missing user and a storage failure give the same error.
  - It updates a user with two ordered storage writes: first the embedded person, then the user.
  - It forwards every other operation to storage unchanged.
  - Storage is a capability value `StoragePort<S>`: each operation takes the backend state and an
    argument, and returns the next state and the backend's answer.
  - `Recording(port)` wraps a port so that every call is appended to a trace. The call-order
    lemmas are stated over that trace.
- **The Postgres storage adapter** (class `PgStorage.PgDbUserStorage`).
  - The database is modelled as the two tables `person` and `applicationuser`, held as sequences
    of rows, plus the two serial sequences ids are drawn from.
  - A `WHERE` keeps the matching rows in table order (`Sql.Where`). The database promises no
    order for a query without `ORDER BY`, so this is a reading the model chooses (see "Left out").
    An `ORDER BY` on a text column sorts by code-point order (`Sql.SortBy`).
  - Every getter is a method whose row loop is proved against a specification function:
    - the last row wins in `login`, `get_user` and the person lookups;
    - `get_all_users` and `get_all_person` push rows in order, and `get_all_users` skips a row
      whose person is missing.
  - Every write is a method that states the whole new table contents. The table definitions are
    not part of the code, so the model assumes a set of table constraints (see "Left out") and
    states them as a class invariant `Valid()`, preserved by every write:
    - unique primary keys;
    - unique uuids in both tables;
    - a unique login;
    - the `person_` foreign key, which refuses to delete a person a user still points at.
  - A write that would break one of them fails with `ConstraintViolation`, the model's own error
    kind for a refused statement, and changes nothing.
- **The legacy synchronous backend** (class `LegacyStorage.LegacyPgDbUserStorage`).
  - Only its `login` loop is written. Its own person lookup answers `NotImplemented`, so a login
    either finds no row (`Ok(None)`) or fails.
  - Every other operation answers `NotImplemented`.

Modules: `Core` (entities and errors), `Sql` (what a query does to a table), `Schema` (rows and
row-to-entity conversion shared by both backends), `Domain`, `PgStorage`, `LegacyStorage`.

Inputs the code takes from its environment are parameters of the model:
- the SHA-256 digest (`sha256: string -> HexDigest`, 64 lowercase hex digits);
- the clock (`now: Timestamp`, one reading per call);
- the uuid the database generates (any uuid not yet used in the table).

Two points where the intended behaviour and the code differ; the model follows the code:
- A failed login is meant to be reported as an invalid-credentials error. The code returns
  `UserDomainError::NotImplemented` for both a missing user and a backend error, and so does
  `Domain.UserDomain.Login`.
- Login is meant to read the single row that carries the key and answer `None` when its person
  is missing. The code loops over every matching row and keeps only what the last row gives, so
  an earlier matching row is overridden (`PgStorage.LoginDecidedByLastRow`).

Key derivation is deterministic because `Domain.AuthKey` is a function of its arguments.

## Model

| member | source | states |
|---|---|---|
| Domain.AuthKeyLayout | helix-user-domain/src/business/domain.rs:24-42 | The key is the login, then `:`, then the digest of login, password and salt in that order; its length is the login's plus 65. |
| Domain.KeyLoginOfAuthKey | helix-user-domain/src/business/domain.rs:36-39 | The login is recovered from a key by dropping the fixed-length `:`+digest suffix. |
| Domain.AuthKeyDistinctLogins | helix-user-domain/src/business/domain.rs:36-39 | Two different logins never give the same key, whatever the passwords. |
| Domain.UserDomain.GenerateUserAuthKey | helix-user-domain/src/business/domain.rs:23-43 | Building the two buffers step by step gives exactly `AuthKey(login, password)`, from which the login is recoverable. |
| Domain.UserDomain.Login | helix-user-domain/src/business/domain.rs:44-64 | Asks storage with the derived key; the result is `Ok(u)` iff storage answered `Ok(Some(u))`; every other answer gives `Err(NotImplemented)`; the storage state after the call is storage's. |
| Domain.LoginCallsStorageWithKey | helix-user-domain/src/business/domain.rs:45-48 | Login makes exactly one storage call, `login(AuthKey(login, password))`, and recording calls does not change its result. |
| Domain.LoginHidesFailureCause | helix-user-domain/src/business/domain.rs:50-62 | A backend answering "no such user" and one answering with any error give the caller identical results. |
| Domain.UserDomain.UpdateUser | helix-user-domain/src/business/domain.rs:76-79 | The person write comes first. If it fails, its error is returned from the state it left. Otherwise the result and the final state are those of the user write, made on the state after the person write, with the original user. |
| Domain.UpdateUserCallOrder | helix-user-domain/src/business/domain.rs:76-79 | The trace gains `update_person(user.person)` and then, only if that succeeded, `update_user(user)`; nothing else is called. |
| Domain.UserDomain.GetAllUsers | helix-user-domain/src/business/domain.rs:66-68 | Returns storage's answer and state unchanged, errors wrapped as storage errors. |
| Domain.UserDomain.GetUser | helix-user-domain/src/business/domain.rs:70-72 | Forwards the uuid and returns storage's answer and state unchanged. |
| Domain.UserDomain.CreateUser | helix-user-domain/src/business/domain.rs:73-75 | Forwards the user and returns storage's answer and state unchanged. |
| Domain.UserDomain.DeleteUser | helix-user-domain/src/business/domain.rs:80-82 | Forwards the user and returns storage's answer and state unchanged. |
| Domain.UserDomain.GetAllPersons | helix-user-domain/src/business/domain.rs:83-85 | Returns storage's answer and state unchanged. |
| Domain.UserDomain.GetPerson | helix-user-domain/src/business/domain.rs:86-88 | Forwards the uuid to the by-uuid lookup and returns its answer and state unchanged. |
| Domain.UserDomain.CreatePerson | helix-user-domain/src/business/domain.rs:89-91 | Forwards the person and returns storage's answer and state unchanged. |
| Domain.UserDomain.UpdatePerson | helix-user-domain/src/business/domain.rs:92-94 | Forwards the person and returns storage's answer and state unchanged. |
| Domain.UserDomain.DeletePerson | helix-user-domain/src/business/domain.rs:95-97 | Forwards the person and returns storage's answer and state unchanged. |
| Sql.Where | storage/pg-db-storage/src/lib.rs:44 | A filtered query returns only rows of the table that match, and every matching row. |
| Sql.WhereLastRow | storage/pg-db-storage/src/lib.rs:49-69 | The last row a filtered query returns is the last matching row of the table; there is none iff no row matches. |
| Sql.WherePairwise | storage/pg-db-storage/src/lib.rs:197-204 | Deleting rows keeps any pairwise (uniqueness) property of the table. |
| Sql.AppendPairwise | storage/pg-db-storage/src/lib.rs:144-147 | Inserting a row whose keys differ from every existing row keeps the table's keys unique. |
| Sql.InsertBy | storage/pg-db-storage/src/lib.rs:112-116 | Inserting into a sorted result keeps it sorted and adds exactly that row. |
| Sql.SortBy | storage/pg-db-storage/src/lib.rs:112-116 | An ordered query returns the same rows (as a multiset), sorted by the key. |
| Schema.BlankedUserOf | storage/pg-db-storage/src/lib.rs:56-66 | A user built by login or get_user carries every column of its row except the password, which is empty. |
| Schema.UsersWherePassword | storage/pg-db-storage/src/lib.rs:44 | The login query returns exactly the rows whose stored credential equals the key. |
| Schema.LoginStep | storage/pg-db-storage/src/lib.rs:50-68 | One pass of the login and get_user row loops (also the legacy login loop): a failed person lookup ends the loop with that error; a missing person resets the result to `None`; a found person gives a user from this row alone, with an empty password, the row's login and uuid, and that person. |
| Schema.ListStep | storage/pg-db-storage/src/lib.rs:120-135 | One pass of the listing row loop: a failed person lookup ends the loop with that error; a missing person leaves the list as it was; a found person appends exactly one user, with the row's login and password and that person, after the users already listed. |
| PgStorage.PersonsWhereId | storage/pg-db-storage/src/lib.rs:294-299 | The by-id person query returns only rows with that id, and every row with that id. |
| PgStorage.PersonsWhereUuid | storage/pg-db-storage/src/lib.rs:269-273 | The by-uuid person query returns only rows with that uuid, and every row with that uuid. |
| PgStorage.PersonsOrderByFirstname | storage/pg-db-storage/src/lib.rs:321-326 | The listing query returns every person row, ordered by first name. |
| PgStorage.UsersWhereUuid | storage/pg-db-storage/src/lib.rs:78-82 | The lookup query returns only rows with that uuid, and every row with that uuid. |
| PgStorage.LinkedUsersOrderByLogin | storage/pg-db-storage/src/lib.rs:112-116 | The listing query returns exactly the rows with a person link, ordered by login. |
| PgStorage.PersonByIdSpec | storage/pg-db-storage/src/lib.rs:292-316 | The person found for an id is the last row with that id; there is none iff no row has it. |
| PgStorage.PersonByUuidSpec | storage/pg-db-storage/src/lib.rs:267-290 | The person found for a uuid is the last row with that uuid; there is none iff no row has it. |
| PgStorage.LoginDecidedByLastRow | storage/pg-db-storage/src/lib.rs:49-69 | Login answers `None` when no row has the key; otherwise it answers from the last such row alone, `None` if that row's person is missing even when earlier rows matched. |
| PgStorage.JoinPersonsOrigin | storage/pg-db-storage/src/lib.rs:119-136 | Every listed user is a query row with its found person, every column copied, password included. |
| PgStorage.JoinPersonsSorted | storage/pg-db-storage/src/lib.rs:119-136 | The listing keeps the query's login order. |
| PgStorage.JoinPersonsComplete | storage/pg-db-storage/src/lib.rs:119-136 | When every row's person is found, the k-th listed user is the k-th row with its person. |
| PgStorage.LinkedUsersJoinOrigin | storage/pg-db-storage/src/lib.rs:109-139 | Every user get_all_users lists is a linked row of the table, joined with its person. |
| PgStorage.ListingComplete | storage/pg-db-storage/src/lib.rs:109-139 | With the foreign key in force no linked row is skipped: one user per linked row. |
| PgStorage.UpdatePersonRows | storage/pg-db-storage/src/lib.rs:236-239 | The person update rewrites only first and last name, email, phone and update time of the rows with that id; id, uuid and creation time never change; other rows are untouched. |
| PgStorage.UpdateUserRows | storage/pg-db-storage/src/lib.rs:172-174 | The user update overwrites every column but the id of the rows with that id from the payload; other rows are untouched. |
| PgStorage.CreatedPersonFoundByUuid | storage/pg-db-storage/src/lib.rs:206-232 | A person just inserted is what the by-uuid lookup returns for its generated uuid. |
| PgStorage.CreatedUserFoundByUuid | storage/pg-db-storage/src/lib.rs:75-108 | A user just inserted is the only row with its generated uuid, and get_user answers from it. |
| PgStorage.LoginAfterCreate | storage/pg-db-storage/src/lib.rs:49-69 | Under the model's reading of an unordered query (rows in table order, an insert placed last), a user just inserted with a key is the one login answers from; the database itself promises no such order. |
| PgStorage.UpdateUserRowsKeepsSchema | storage/pg-db-storage/src/lib.rs:169-196 | An accepted user update keeps the foreign key and the uniqueness of ids, logins and uuids. |
| PgStorage.UpdatePersonRowsKeepsLinks | storage/pg-db-storage/src/lib.rs:234-257 | A person update keeps every user's person link resolvable and the person keys unique. |
| PgStorage.DeletePersonKeepsLinks | storage/pg-db-storage/src/lib.rs:259-265 | Deleting an unreferenced person keeps every user's person link resolvable. |
| PgStorage.PgDbUserStorage.constructor | storage/pg-db-storage/src/lib.rs:17-38 | A fresh adapter starts with empty tables that satisfy the schema. |
| PgStorage.PgDbUserStorage.GetPersonById | storage/pg-db-storage/src/lib.rs:292-316 | The row loop answers the person of the last row with that id, or `None`. |
| PgStorage.PgDbUserStorage.GetPersonByUuid | storage/pg-db-storage/src/lib.rs:267-290 | The row loop answers the person of the last row with that uuid, or `None`. |
| PgStorage.PgDbUserStorage.GetAllPerson | storage/pg-db-storage/src/lib.rs:318-345 | Returns one person per row, ordered by first name, and contains every row's person. |
| PgStorage.PgDbUserStorage.Login | storage/pg-db-storage/src/lib.rs:42-73 | The row loop answers what the last row with the key gives, with an empty password; `None` when no row has the key. |
| PgStorage.PgDbUserStorage.GetUser | storage/pg-db-storage/src/lib.rs:75-108 | The row loop answers what the last row with the uuid gives, with an empty password and that uuid. |
| PgStorage.PgDbUserStorage.GetAllUsers | storage/pg-db-storage/src/lib.rs:109-139 | Returns the linked rows joined with their persons in login order, passwords copied, rows without a found person skipped; under the schema, one user per linked row. |
| PgStorage.PgDbUserStorage.CreateUser | storage/pg-db-storage/src/lib.rs:141-168 | Fails with `ConstraintViolation` and changes nothing when the login is taken or the person does not exist. Otherwise it appends a row with a fresh id and uuid, the creation time, NULL update and last-login times. It returns the input with only id, uuid and creation time replaced. |
| PgStorage.PgDbUserStorage.UpdateUser | storage/pg-db-storage/src/lib.rs:169-196 | When a row has the id and the new login, uuid or person link would break the schema, it fails and changes nothing. Otherwise that row is overwritten, and the input is returned with only the update time changed. |
| PgStorage.PgDbUserStorage.DeleteUser | storage/pg-db-storage/src/lib.rs:197-204 | Removes exactly the rows with that id and returns `Ok(())`, also when there were none. |
| PgStorage.PgDbUserStorage.CreatePerson | storage/pg-db-storage/src/lib.rs:206-232 | Appends a row with a fresh id and uuid, the creation time and a NULL update time. It returns the input with only id, uuid and creation time replaced. |
| PgStorage.PgDbUserStorage.UpdatePerson | storage/pg-db-storage/src/lib.rs:234-257 | Rewrites the contact columns of the row with that id and returns the input with only the update time changed. |
| PgStorage.PgDbUserStorage.DeletePerson | storage/pg-db-storage/src/lib.rs:259-265 | Fails with `ConstraintViolation` and changes nothing while a user points at the person; otherwise removes exactly the rows with that id and returns `Ok(())`. |
| LegacyStorage.LegacyPgDbUserStorage.constructor | storage/helix-pg-db-user-storage/src/lib.rs:14-19 | The backend starts over the given user table. |
| LegacyStorage.LegacyPgDbUserStorage.Login | storage/helix-pg-db-user-storage/src/lib.rs:23-52 | `Ok(None)` iff no row has the key, `Err(NotImplemented)` iff some row does; it never yields a user. |
| LegacyStorage.LegacyPgDbUserStorage.GetUser | storage/helix-pg-db-user-storage/src/lib.rs:53-55 | Always `Err(NotImplemented)`, state unchanged. |
| LegacyStorage.LegacyPgDbUserStorage.GetAllUsers | storage/helix-pg-db-user-storage/src/lib.rs:56-58 | Always `Err(NotImplemented)`, state unchanged. |
| LegacyStorage.LegacyPgDbUserStorage.CreateUser | storage/helix-pg-db-user-storage/src/lib.rs:59-61 | Always `Err(NotImplemented)`, state unchanged. |
| LegacyStorage.LegacyPgDbUserStorage.UpdateUser | storage/helix-pg-db-user-storage/src/lib.rs:62-64 | Always `Err(NotImplemented)`, state unchanged. |
| LegacyStorage.LegacyPgDbUserStorage.DeleteUser | storage/helix-pg-db-user-storage/src/lib.rs:65-67 | Always `Err(NotImplemented)`, state unchanged. |
| LegacyStorage.LegacyPgDbUserStorage.CreatePerson | storage/helix-pg-db-user-storage/src/lib.rs:69-71 | Always `Err(NotImplemented)`, state unchanged. |
| LegacyStorage.LegacyPgDbUserStorage.UpdatePerson | storage/helix-pg-db-user-storage/src/lib.rs:72-74 | Always `Err(NotImplemented)`, state unchanged. |
| LegacyStorage.LegacyPgDbUserStorage.DeletePerson | storage/helix-pg-db-user-storage/src/lib.rs:75-77 | Always `Err(NotImplemented)`, state unchanged. |
| LegacyStorage.LegacyPgDbUserStorage.GetPersonByUuid | storage/helix-pg-db-user-storage/src/lib.rs:78-80 | Always `Err(NotImplemented)`, state unchanged. |
| LegacyStorage.LegacyPgDbUserStorage.GetPersonById | storage/helix-pg-db-user-storage/src/lib.rs:81-83 | Always `Err(NotImplemented)`, state unchanged. |
| LegacyStorage.LegacyPgDbUserStorage.GetAllPerson | storage/helix-pg-db-user-storage/src/lib.rs:84-86 | Always `Err(NotImplemented)`, state unchanged. |

## Left out

- The HTTP and gRPC transports, bootstrap, configuration and the shared `Mutex` are outside the core. Concurrency and `async` are not modelled: each call is one atomic step.
- The SHA-256 algorithm is not modelled. The digest is an arbitrary function to 64 lowercase hex digits, so nothing relies on its collision resistance.
- The connection pool and the database connection are not modelled. In the code, getting a connection, or creating the pool, panics on failure (`unwrap`). Queries are taken to succeed.
- Logging is not modelled: the two console messages the domain's login prints for a missing user and for a backend error are dropped.
- Row order of the queries without `ORDER BY` (login, get_user, the person lookups) is not modelled as the database leaves it. PostgreSQL promises no order for them; the model reads them in table order, with an insert placed after every existing row and an update rewriting its row in place. Which matching row login and get_user see last, and so `PgStorage.LoginAfterCreate`, holds only under that reading; when several rows match, the real answer may come from any of them.
- The login query that the Postgres `login` runs once and discards (storage/pg-db-storage/src/lib.rs:47) is left out: it changes no state.
- The table definitions are not part of the code, so no constraint on the two tables is known from it. The model assumes these constraints: unique ids and unique uuids in both tables, a unique login, and the `person_` foreign key, which refuses an insert or update that points at no person and refuses to delete a person a user still points at (no cascade). The failure branches of `PgStorage.PgDbUserStorage.CreateUser`, `PgStorage.PgDbUserStorage.UpdateUser` and `PgStorage.PgDbUserStorage.DeletePerson`, the invariant `Valid()` and the lemmas built on it rest on this assumption.
- How the `?` in the code converts a refused statement into a storage error is not visible: the storage error module is not part of this model. `Core.StorageError.ConstraintViolation` is the model's own name for every refused statement. Statement failures other than those the assumed constraints cause are not modelled.
- Ids are unbounded integers. The 32-bit range of the id columns is not modelled.
- A uuid is a natural number. A fresh uuid is any value not yet used in its table; the generator is not modelled.
- Serial values are consumed only by successful inserts. The gaps a failed insert leaves in a database sequence are not modelled.
- Text ordering is by code point. The database's collation is not modelled, and neither is the order of rows with equal sort keys.
- `PgStorage.PgDbUserStorage.Login` and `PgStorage.PgDbUserStorage.GetUser` require every matching user row to have a person link. In the code, a NULL link makes the row read panic.
- `LegacyStorage.LegacyPgDbUserStorage.Login` requires the first matching row to have a person link, for the same reason.
- The entity modules (`Person`, `AppUser`) and the two error modules are not part of this model. The field types are read off their use in the code: `id` and `uuid` are optional on both entities, and the user's person link is optional. A storage error is taken to reach the domain through a conversion that wraps it (`UserDomainError.Storage`).
- `PgStorage.PgDbUserStorage.constructor` starts from empty tables. The pool's configuration and a database's prior contents are not modelled.
- The storage port takes the shape of the domain's calls. The older synchronous storage contract, which the legacy backend implements, is not modelled as a port. The legacy backend's operations keep their own signatures and are not plugged into the domain.
