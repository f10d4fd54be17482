/** The two tables both storage backends read, `userstore.person` and
    `userstore.applicationuser`, and how a row becomes an entity. */
module Schema {

  import opened Core
  import opened Sql

  /** A row of `userstore.person`: `id` and `uuid` are filled in by the
      database on insert and are never NULL. */
  datatype PersonRow = PersonRow(
    id: int,
    uuid: Uuid,
    firstname: string,
    lastname: string,
    email: string,
    phone: string,
    createdOn: Option<Timestamp>,
    updatedOn: Option<Timestamp>)

  /** A row of `userstore.applicationuser`; `personRef` is the nullable
      foreign-key column `person_` pointing at `person.id`. */
  datatype UserRow = UserRow(
    id: int,
    uuid: Option<Uuid>,
    login: string,
    password: string,
    photo: Option<string>,
    createdOn: Option<Timestamp>,
    updatedOn: Option<Timestamp>,
    lastLoginOn: Option<Timestamp>,
    personRef: Option<int>)

  /** `Person::new` over the columns of a person row. */
  function PersonOf(row: PersonRow): Person {
    Person(Some(row.id), Some(row.uuid), row.firstname, row.lastname, row.email, row.phone,
           row.createdOn, row.updatedOn)
  }

  /** `AppUser::new` over every column of a user row and the looked-up person. */
  function UserOf(row: UserRow, person: Person): AppUser {
    AppUser(Some(row.id), row.uuid, row.login, row.password, row.photo,
            row.createdOn, row.updatedOn, row.lastLoginOn, person)
  }

  /** The user the login and lookup loops build: every column is copied
      except the password, which is never given back. */
  function BlankedUserOf(row: UserRow, person: Person): (u: AppUser)
    ensures u.password == ""
    ensures u.(password := row.password) == UserOf(row, person)
    ensures u.login == row.login && u.person == person
  {
    UserOf(row, person).(password := "")
  }

  /** The login query's filter: the stored credential equals the key. */
  function PasswordIs(key: string): UserRow -> bool {
    (u: UserRow) => u.password == key
  }

  /** The user rows whose stored credential is the key, in table order. */
  function UsersWherePassword(users: seq<UserRow>, key: string): (rows: seq<UserRow>)
    ensures forall k :: 0 <= k < |rows| ==> rows[k] in users && rows[k].password == key
    ensures forall i :: 0 <= i < |users| && users[i].password == key ==> users[i] in rows
  {
    Where(users, PasswordIs(key))
  }

  /** One pass of the login row loop: the `?` on the person lookup, then the
      result is reassigned from this row alone (`None` when the row's person
      is missing). */
  function LoginStep(row: UserRow, found: StorageResult<Option<Person>>): (r: StorageResult<Option<AppUser>>)
    ensures r.Err? <==> found.Err?
    ensures r.Err? ==> r.error == found.error
    ensures r == Ok(None) <==> found == Ok(None)
    ensures r.Ok? && r.value.Some? ==>
      found == Ok(Some(r.value.value.person)) && r.value.value.password == "" &&
      r.value.value.login == row.login && r.value.value.uuid == row.uuid
  {
    match found
    case Err(e) => Err(e)
    case Ok(None) => Ok(None)
    case Ok(Some(person)) => Ok(Some(BlankedUserOf(row, person)))
  }

  /** One pass of the listing row loop: the `?` on the person lookup, then
      the full user (password included) is pushed when the person exists. */
  function ListStep(listed: seq<AppUser>, row: UserRow, found: StorageResult<Option<Person>>): (r: StorageResult<seq<AppUser>>)
    ensures r.Err? <==> found.Err?
    ensures r.Err? ==> r.error == found.error
    ensures r.Ok? ==> listed <= r.value && |r.value| == |listed| + (if found.value.Some? then 1 else 0)
    ensures r.Ok? && found.value.Some? ==>
      r.value[|listed|].person == found.value.value && r.value[|listed|].password == row.password &&
      r.value[|listed|].login == row.login
  {
    match found
    case Err(e) => Err(e)
    case Ok(None) => Ok(listed)
    case Ok(Some(person)) => Ok(listed + [UserOf(row, person)])
  }
}
