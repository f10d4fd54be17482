/** The older, synchronous Postgres backend. Only `login` is written; every
    other operation answers `NotImplemented`, including the person lookup
    `login` itself depends on. Its operations keep the older signatures of
    the storage contract (no payload on the user writes, `Option` results on
    the creates and updates). */
module LegacyStorage {

  import opened Core
  import opened Sql
  import opened Schema

  /** The backend over its single connection, seen as the user table it
      queries. */
  class LegacyPgDbUserStorage {
    var users: seq<UserRow>

    constructor (users: seq<UserRow>)
      ensures this.users == users
    {
      this.users := users;
    }

    /** The same row loop as the newer backend, but the person lookup fails,
        so the `?` ends the loop at the first matching row: the key is
        either unknown (`None`) or the call fails. */
    method Login(key: string) returns (r: StorageResult<Option<AppUser>>)
      requires UsersWherePassword(users, key) != [] ==> UsersWherePassword(users, key)[0].personRef.Some?
      ensures r == Ok(None) <==> forall i :: 0 <= i < |users| ==> users[i].password != key
      ensures r == Err(NotImplemented) <==> exists i :: 0 <= i < |users| && users[i].password == key
      ensures !(r.Ok? && r.value.Some?)
    {
      var rows := UsersWherePassword(users, key);
      var outcome: StorageResult<Option<AppUser>> := Ok(None);
      var i := 0;
      while i < |rows| && outcome.Ok?
        invariant 0 <= i <= |rows|
        invariant (i == 0 && outcome == Ok(None)) || (i == 1 && outcome == Err(NotImplemented))
      {
        var row := rows[i];
        var found := GetPersonById(row.personRef.value);
        outcome := LoginStep(row, found);
        i := i + 1;
      }
      r := outcome;
    }

    method GetUser(uuid: Option<Uuid>) returns (r: StorageResult<Option<AppUser>>)
      ensures r == Err(NotImplemented)
    {
      r := Err(NotImplemented);
    }

    method GetAllUsers() returns (r: StorageResult<seq<AppUser>>)
      ensures r == Err(NotImplemented)
    {
      r := Err(NotImplemented);
    }

    method CreateUser() returns (r: StorageResult<Option<AppUser>>)
      ensures r == Err(NotImplemented)
    {
      r := Err(NotImplemented);
    }

    method UpdateUser() returns (r: StorageResult<Option<AppUser>>)
      ensures r == Err(NotImplemented)
    {
      r := Err(NotImplemented);
    }

    method DeleteUser() returns (r: StorageResult<()>)
      ensures r == Err(NotImplemented)
    {
      r := Err(NotImplemented);
    }

    method CreatePerson(person: Person) returns (r: StorageResult<Option<Person>>)
      ensures r == Err(NotImplemented)
    {
      r := Err(NotImplemented);
    }

    method UpdatePerson(person: Person) returns (r: StorageResult<Option<Person>>)
      ensures r == Err(NotImplemented)
    {
      r := Err(NotImplemented);
    }

    method DeletePerson(person: Person) returns (r: StorageResult<()>)
      ensures r == Err(NotImplemented)
    {
      r := Err(NotImplemented);
    }

    method GetPersonByUuid(uuid: Uuid) returns (r: StorageResult<Option<Person>>)
      ensures r == Err(NotImplemented)
    {
      r := Err(NotImplemented);
    }

    method GetPersonById(id: int) returns (r: StorageResult<Option<Person>>)
      ensures r == Err(NotImplemented)
    {
      r := Err(NotImplemented);
    }

    method GetAllPerson() returns (r: StorageResult<seq<Person>>)
      ensures r == Err(NotImplemented)
    {
      r := Err(NotImplemented);
    }
  }
}
