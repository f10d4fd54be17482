/** The Postgres storage adapter: every operation of the storage port over
    the two tables, with the database's serial ids, generated uuids and
    schema constraints (the `person_` foreign key and the unique login). */
module PgStorage {

  import opened Core
  import opened Sql
  import opened Schema

  // ----- WHERE clauses and sort keys of the adapter's queries -----

  function PersonIdIs(id: int): PersonRow -> bool {
    (p: PersonRow) => p.id == id
  }

  function PersonUuidIs(uuid: Uuid): PersonRow -> bool {
    (p: PersonRow) => p.uuid == uuid
  }

  function UserUuidIs(uuid: Uuid): UserRow -> bool {
    (u: UserRow) => u.uuid == Some(uuid)
  }

  /** The user row links to a person (its `person_` column is not NULL). */
  predicate HasPersonLink(u: UserRow) {
    u.personRef.Some?
  }

  /** Rows the deletes keep: those whose id differs from the payload's; a
      NULL id matches no row, so it deletes nothing. */
  function PersonIdIsNot(id: Option<int>): PersonRow -> bool {
    (p: PersonRow) => Some(p.id) != id
  }

  function UserIdIsNot(id: Option<int>): UserRow -> bool {
    (u: UserRow) => Some(u.id) != id
  }

  function Firstname(p: PersonRow): string {
    p.firstname
  }

  function LoginKey(u: UserRow): string {
    u.login
  }

  // ----- The queries -----

  /** The person rows with the given id, in table order. */
  function PersonsWhereId(persons: seq<PersonRow>, id: int): (rows: seq<PersonRow>)
    ensures forall k :: 0 <= k < |rows| ==> rows[k] in persons && rows[k].id == id
    ensures forall i :: 0 <= i < |persons| && persons[i].id == id ==> persons[i] in rows
  {
    Where(persons, PersonIdIs(id))
  }

  /** The person rows with the given uuid, in table order. */
  function PersonsWhereUuid(persons: seq<PersonRow>, uuid: Uuid): (rows: seq<PersonRow>)
    ensures forall k :: 0 <= k < |rows| ==> rows[k] in persons && rows[k].uuid == uuid
    ensures forall i :: 0 <= i < |persons| && persons[i].uuid == uuid ==> persons[i] in rows
  {
    Where(persons, PersonUuidIs(uuid))
  }

  /** Every person row, ordered by first name. */
  function PersonsOrderByFirstname(persons: seq<PersonRow>): (rows: seq<PersonRow>)
    ensures multiset(rows) == multiset(persons)
    ensures forall i, j :: 0 <= i < j < |rows| ==> LexLe(rows[i].firstname, rows[j].firstname)
  {
    SortBy(persons, Firstname)
  }

  /** The user rows with the given uuid, in table order. */
  function UsersWhereUuid(users: seq<UserRow>, uuid: Uuid): (rows: seq<UserRow>)
    ensures forall k :: 0 <= k < |rows| ==> rows[k] in users && rows[k].uuid == Some(uuid)
    ensures forall i :: 0 <= i < |users| && users[i].uuid == Some(uuid) ==> users[i] in rows
  {
    Where(users, UserUuidIs(uuid))
  }

  /** The user rows linked to a person, ordered by login. */
  function LinkedUsersOrderByLogin(users: seq<UserRow>): (rows: seq<UserRow>)
    ensures multiset(rows) == multiset(Where(users, HasPersonLink))
    ensures forall k :: 0 <= k < |rows| ==> rows[k].personRef.Some?
    ensures forall i, j :: 0 <= i < j < |rows| ==> LexLe(rows[i].login, rows[j].login)
  {
    var linked := Where(users, HasPersonLink);
    var rows := SortBy(linked, LoginKey);
    assert forall k :: 0 <= k < |rows| ==> rows[k] in multiset(linked);
    rows
  }

  // ----- What the getters answer -----

  /** `get_person_by_id`: the person built from the last row with that id. */
  function PersonById(persons: seq<PersonRow>, id: int): Option<Person> {
    match LastRow(PersonsWhereId(persons, id))
    case None => None
    case Some(row) => Some(PersonOf(row))
  }

  /** `get_person_by_uuid`: the person built from the last row with that uuid. */
  function PersonByUuid(persons: seq<PersonRow>, uuid: Uuid): Option<Person> {
    match LastRow(PersonsWhereUuid(persons, uuid))
    case None => None
    case Some(row) => Some(PersonOf(row))
  }

  /** The user a single row stands for in login and get_user: `None` when
      its person is missing. */
  function RowUser(row: UserRow, persons: seq<PersonRow>): Option<AppUser>
    requires row.personRef.Some?
  {
    match PersonById(persons, row.personRef.value)
    case None => None
    case Some(person) => Some(BlankedUserOf(row, person))
  }

  /** login and get_user: only the last row of the query decides. */
  function LastRowUser(rows: seq<UserRow>, persons: seq<PersonRow>): Option<AppUser>
    requires forall k :: 0 <= k < |rows| ==> rows[k].personRef.Some?
  {
    if rows == [] then None else RowUser(rows[|rows| - 1], persons)
  }

  /** get_all_users: one full user per row whose person is found, in row
      order; the other rows are skipped. */
  function JoinPersons(rows: seq<UserRow>, persons: seq<PersonRow>): seq<AppUser>
    requires forall k :: 0 <= k < |rows| ==> rows[k].personRef.Some?
  {
    if rows == [] then []
    else
      var row := rows[|rows| - 1];
      JoinPersons(rows[..|rows| - 1], persons)
      + match PersonById(persons, row.personRef.value)
        case None => []
        case Some(person) => [UserOf(row, person)]
  }

  /** The person found for an id is built from the last row carrying it;
      there is none exactly when no row carries it. */
  lemma PersonByIdSpec(persons: seq<PersonRow>, id: int)
    ensures PersonById(persons, id).None? <==> forall i :: 0 <= i < |persons| ==> persons[i].id != id
    ensures forall i :: LastKept(persons, PersonIdIs(id), i) ==> PersonById(persons, id) == Some(PersonOf(persons[i]))
  {
    WhereLastRow(persons, PersonIdIs(id));
  }

  /** The same for a uuid. */
  lemma PersonByUuidSpec(persons: seq<PersonRow>, uuid: Uuid)
    ensures PersonByUuid(persons, uuid).None? <==> forall i :: 0 <= i < |persons| ==> persons[i].uuid != uuid
    ensures forall i :: LastKept(persons, PersonUuidIs(uuid), i) ==> PersonByUuid(persons, uuid) == Some(PersonOf(persons[i]))
  {
    WhereLastRow(persons, PersonUuidIs(uuid));
  }

  /** login answers `None` when no row carries the key; otherwise it answers
      from the last row carrying it alone, and that row's missing person
      gives `None` even when earlier rows matched. */
  lemma LoginDecidedByLastRow(users: seq<UserRow>, persons: seq<PersonRow>, key: string)
    requires forall u :: u in users && u.password == key ==> u.personRef.Some?
    ensures (forall i :: 0 <= i < |users| ==> users[i].password != key) ==>
              LastRowUser(UsersWherePassword(users, key), persons) == None
    ensures forall i :: LastKept(users, PasswordIs(key), i) ==>
              LastRowUser(UsersWherePassword(users, key), persons) == RowUser(users[i], persons)
  {
    var rows := UsersWherePassword(users, key);
    WhereLastRow(users, PasswordIs(key));
    forall i | LastKept(users, PasswordIs(key), i)
      ensures LastRowUser(rows, persons) == RowUser(users[i], persons)
    {
      assert LastRow(rows) == Some(users[i]);
    }
  }

  // ----- get_all_users -----

  /** Every listed user comes from a row whose person was found, with every
      column copied, password included. */
  lemma {:induction false} JoinPersonsOrigin(rows: seq<UserRow>, persons: seq<PersonRow>)
    requires forall k :: 0 <= k < |rows| ==> rows[k].personRef.Some?
    ensures forall x :: x in JoinPersons(rows, persons) ==>
              exists k :: 0 <= k < |rows| && PersonById(persons, rows[k].personRef.value).Some?
                          && x == UserOf(rows[k], PersonById(persons, rows[k].personRef.value).value)
  {
    if rows != [] {
      var prefix := rows[..|rows| - 1];
      JoinPersonsOrigin(prefix, persons);
      forall x | x in JoinPersons(rows, persons)
        ensures exists k :: 0 <= k < |rows| && PersonById(persons, rows[k].personRef.value).Some?
                            && x == UserOf(rows[k], PersonById(persons, rows[k].personRef.value).value)
      {
        if x in JoinPersons(prefix, persons) {
          var k :| 0 <= k < |prefix| && PersonById(persons, prefix[k].personRef.value).Some?
                   && x == UserOf(prefix[k], PersonById(persons, prefix[k].personRef.value).value);
          assert prefix[k] == rows[k];
        } else {
          assert PersonById(persons, rows[|rows| - 1].personRef.value).Some?;
        }
      }
    }
  }

  ghost predicate LoginOrdered(us: seq<AppUser>) {
    forall i, j :: 0 <= i < j < |us| ==> LexLe(us[i].login, us[j].login)
  }

  /** Listing keeps the order of the query: rows sorted by login give users
      sorted by login. */
  lemma {:induction false} JoinPersonsSorted(rows: seq<UserRow>, persons: seq<PersonRow>)
    requires forall k :: 0 <= k < |rows| ==> rows[k].personRef.Some?
    requires forall i, j :: 0 <= i < j < |rows| ==> LexLe(rows[i].login, rows[j].login)
    ensures LoginOrdered(JoinPersons(rows, persons))
  {
    if rows != [] {
      var n := |rows|;
      var prefix := rows[..n - 1];
      var last := rows[n - 1];
      JoinPersonsSorted(prefix, persons);
      JoinPersonsOrigin(prefix, persons);
      var front := JoinPersons(prefix, persons);
      var us := JoinPersons(rows, persons);
      var tail: seq<AppUser> := match PersonById(persons, last.personRef.value)
        case None => []
        case Some(person) => [UserOf(last, person)];
      assert us == front + tail;
      forall i, j | 0 <= i < j < |us|
        ensures LexLe(us[i].login, us[j].login)
      {
        if j < |front| {
          assert us[i] == front[i] && us[j] == front[j];
          assert LexLe(front[i].login, front[j].login);
        } else {
          assert us[j] == tail[0] && tail[0].login == last.login;
          assert us[i] == front[i];
          assert front[i] in front;
          var k :| 0 <= k < |prefix| && PersonById(persons, prefix[k].personRef.value).Some?
                   && front[i] == UserOf(prefix[k], PersonById(persons, prefix[k].personRef.value).value);
          assert prefix[k] == rows[k];
        }
      }
    }
  }

  /** One pass of the listing loop extends the join by the row's user. */
  lemma JoinPersonsStep(rows: seq<UserRow>, i: int, persons: seq<PersonRow>)
    requires 0 <= i < |rows|
    requires forall k :: 0 <= k < |rows| ==> rows[k].personRef.Some?
    ensures ListStep(JoinPersons(rows[..i], persons), rows[i], Ok(PersonById(persons, rows[i].personRef.value)))
            == Ok(JoinPersons(rows[..i + 1], persons))
  {
    var before := rows[..i];
    var after := rows[..i + 1];
    assert after[..|after| - 1] == before;
    assert after[|after| - 1] == rows[i];
    match PersonById(persons, rows[i].personRef.value)
    case None =>
      assert JoinPersons(after, persons) == JoinPersons(before, persons);
    case Some(person) =>
      assert JoinPersons(after, persons) == JoinPersons(before, persons) + [UserOf(rows[i], person)];
  }

  /** Every user of the listing is a linked row of the table joined with its
      person. */
  lemma LinkedUsersJoinOrigin(users: seq<UserRow>, persons: seq<PersonRow>)
    ensures forall x :: x in JoinPersons(LinkedUsersOrderByLogin(users), persons) ==>
              exists u :: u in users && u.personRef.Some? && PersonById(persons, u.personRef.value).Some?
                          && x == UserOf(u, PersonById(persons, u.personRef.value).value)
  {
    var rows := LinkedUsersOrderByLogin(users);
    JoinPersonsOrigin(rows, persons);
    forall x | x in JoinPersons(rows, persons)
      ensures exists u :: u in users && u.personRef.Some? && PersonById(persons, u.personRef.value).Some?
                          && x == UserOf(u, PersonById(persons, u.personRef.value).value)
    {
      var k :| 0 <= k < |rows| && PersonById(persons, rows[k].personRef.value).Some?
               && x == UserOf(rows[k], PersonById(persons, rows[k].personRef.value).value);
      assert rows[k] in multiset(Where(users, HasPersonLink));
    }
  }

  /** When every row's person is found (the foreign key holds), nothing is
      skipped: the k-th user is the k-th row with its person. */
  lemma {:induction false} JoinPersonsComplete(rows: seq<UserRow>, persons: seq<PersonRow>)
    requires forall k :: 0 <= k < |rows| ==> rows[k].personRef.Some?
    requires forall k :: 0 <= k < |rows| ==> PersonById(persons, rows[k].personRef.value).Some?
    ensures |JoinPersons(rows, persons)| == |rows|
    ensures forall k :: 0 <= k < |rows| ==>
              JoinPersons(rows, persons)[k] == UserOf(rows[k], PersonById(persons, rows[k].personRef.value).value)
  {
    if rows != [] {
      var n := |rows|;
      var prefix := rows[..n - 1];
      var last := rows[n - 1];
      assert forall k :: 0 <= k < n - 1 ==> prefix[k] == rows[k];
      JoinPersonsComplete(prefix, persons);
      var person := PersonById(persons, last.personRef.value).value;
      var front := JoinPersons(prefix, persons);
      var all := JoinPersons(rows, persons);
      assert all == front + [UserOf(last, person)];
      forall k | 0 <= k < n
        ensures all[k] == UserOf(rows[k], PersonById(persons, rows[k].personRef.value).value)
      {
        if k < n - 1 {
          assert all[k] == front[k];
        }
      }
    }
  }

  // ----- The constraints the schema enforces -----

  predicate HasPerson(persons: seq<PersonRow>, id: int) {
    exists p :: p in persons && p.id == id
  }

  /** A `person_` value the foreign key accepts. */
  predicate LinkResolves(persons: seq<PersonRow>, ref: Option<int>) {
    ref.None? || HasPerson(persons, ref.value)
  }

  /** No row other than the one with id `except` carries `login`. */
  predicate LoginFree(users: seq<UserRow>, login: string, except: Option<int>) {
    forall u :: u in users && Some(u.id) != except ==> u.login != login
  }

  /** A NULL uuid, or one no row other than the one with id `except` carries. */
  predicate UuidAvailable(users: seq<UserRow>, uuid: Option<Uuid>, except: Option<int>) {
    uuid.None? || forall u :: u in users && Some(u.id) != except ==> u.uuid != uuid
  }

  predicate UuidFree(users: seq<UserRow>, uuid: Uuid) {
    forall u :: u in users ==> u.uuid != Some(uuid)
  }

  predicate PersonUuidFree(persons: seq<PersonRow>, uuid: Uuid) {
    forall p :: p in persons ==> p.uuid != uuid
  }

  /** A user row still points at the person with this id. */
  predicate Referenced(users: seq<UserRow>, id: Option<int>) {
    id.Some? && exists u :: u in users && u.personRef == id
  }

  ghost predicate LinksResolve(users: seq<UserRow>, persons: seq<PersonRow>) {
    forall u :: u in users ==> LinkResolves(persons, u.personRef)
  }

  /** The primary key and the unique uuid of `person`. */
  predicate DistinctPersonKeys(p: PersonRow, q: PersonRow) {
    p.id != q.id && p.uuid != q.uuid
  }

  /** The primary key, the unique login and the unique (nullable) uuid of
      `applicationuser`. */
  predicate DistinctUserKeys(u: UserRow, v: UserRow) {
    u.id != v.id && u.login != v.login && (u.uuid.None? || u.uuid != v.uuid)
  }

  /** A bound above every uuid in the table, so a fresh one always exists. */
  function UuidBound(users: seq<UserRow>): (b: nat)
    ensures forall u :: u in users && u.uuid.Some? ==> u.uuid.value < b
  {
    if users == [] then 0
    else
      var rest := UuidBound(users[1..]);
      assert users == [users[0]] + users[1..];
      var here := if users[0].uuid.Some? then users[0].uuid.value + 1 else 0;
      if rest < here then here else rest
  }

  function PersonUuidBound(persons: seq<PersonRow>): (b: nat)
    ensures forall p :: p in persons ==> p.uuid < b
  {
    if persons == [] then 0
    else
      var rest := PersonUuidBound(persons[1..]);
      assert persons == [persons[0]] + persons[1..];
      if rest < persons[0].uuid + 1 then persons[0].uuid + 1 else rest
  }

  // ----- The row updates of the UPDATE statements -----

  /** The person update: the rows with the payload's id get its first and
      last name, email, phone and update time; their other columns, and
      every other row, stay as they were. */
  function UpdatePersonRows(persons: seq<PersonRow>, person: Person): (r: seq<PersonRow>)
    ensures |r| == |persons|
    ensures forall i :: 0 <= i < |r| ==>
              && r[i].id == persons[i].id
              && r[i].uuid == persons[i].uuid
              && r[i].createdOn == persons[i].createdOn
    ensures forall i :: 0 <= i < |r| && Some(persons[i].id) != person.id ==> r[i] == persons[i]
    ensures forall i :: 0 <= i < |r| && Some(persons[i].id) == person.id ==>
              && r[i].firstname == person.firstname && r[i].lastname == person.lastname
              && r[i].email == person.email && r[i].phone == person.phone
              && r[i].updatedOn == person.updatedOn
  {
    seq(|persons|, i requires 0 <= i < |persons| =>
      if Some(persons[i].id) == person.id
      then persons[i].(firstname := person.firstname, lastname := person.lastname,
                       email := person.email, phone := person.phone, updatedOn := person.updatedOn)
      else persons[i])
  }

  /** The user update: every column but the id of the rows with the
      payload's id is overwritten from the payload, the person link included. */
  function UpdateUserRows(users: seq<UserRow>, user: AppUser): (r: seq<UserRow>)
    ensures |r| == |users|
    ensures forall i :: 0 <= i < |r| ==> r[i].id == users[i].id
    ensures forall i :: 0 <= i < |r| && Some(users[i].id) != user.id ==> r[i] == users[i]
    ensures forall i :: 0 <= i < |r| && Some(users[i].id) == user.id ==>
              r[i] == UserRow(users[i].id, user.uuid, user.login, user.password, user.photo,
                              user.createdOn, user.updatedOn, user.lastLoginOn, user.person.id)
  {
    seq(|users|, i requires 0 <= i < |users| =>
      if Some(users[i].id) == user.id
      then UserRow(users[i].id, user.uuid, user.login, user.password, user.photo,
                   user.createdOn, user.updatedOn, user.lastLoginOn, user.person.id)
      else users[i])
  }

  /** The adapter over its connection pool, seen as the two tables and the
      two serial sequences the database draws ids from. */
  class PgDbUserStorage {
    var persons: seq<PersonRow>
    var users: seq<UserRow>
    var personSerial: int
    var userSerial: int

    /** The table constraints the model assumes (the table definitions are
        not part of the code): ids below their serial, keys unique, every
        `person_` resolves. */
    ghost predicate Valid()
      reads this
    {
      && (forall p :: p in persons ==> p.id < personSerial)
      && (forall u :: u in users ==> u.id < userSerial)
      && Pairwise(persons, DistinctPersonKeys)
      && Pairwise(users, DistinctUserKeys)
      && LinksResolve(users, persons)
    }

    constructor ()
      ensures Valid()
      ensures persons == [] && users == []
    {
      persons := [];
      users := [];
      personSerial := 1;
      userSerial := 1;
    }

    method GetPersonById(id: int) returns (r: StorageResult<Option<Person>>)
      ensures r == Ok(PersonById(persons, id))
    {
      var rows := PersonsWhereId(persons, id);
      var result: Option<Person> := None;
      var i := 0;
      while i < |rows|
        invariant 0 <= i <= |rows|
        invariant result == if i == 0 then None else Some(PersonOf(rows[i - 1]))
      {
        var row := rows[i];
        result := Some(PersonOf(row));
        i := i + 1;
      }
      r := Ok(result);
    }

    method GetPersonByUuid(uuid: Uuid) returns (r: StorageResult<Option<Person>>)
      ensures r == Ok(PersonByUuid(persons, uuid))
    {
      var rows := PersonsWhereUuid(persons, uuid);
      var result: Option<Person> := None;
      var i := 0;
      while i < |rows|
        invariant 0 <= i <= |rows|
        invariant result == if i == 0 then None else Some(PersonOf(rows[i - 1]))
      {
        var row := rows[i];
        result := Some(PersonOf(row));
        i := i + 1;
      }
      r := Ok(result);
    }

    method GetAllPerson() returns (r: StorageResult<seq<Person>>)
      ensures r.Ok? && |r.value| == |persons|
      ensures forall k :: 0 <= k < |r.value| ==> r.value[k] == PersonOf(PersonsOrderByFirstname(persons)[k])
      ensures forall i, j :: 0 <= i < j < |r.value| ==> LexLe(r.value[i].firstname, r.value[j].firstname)
      ensures forall p :: p in persons ==> PersonOf(p) in r.value
    {
      var rows := PersonsOrderByFirstname(persons);
      var result: seq<Person> := [];
      var i := 0;
      while i < |rows|
        invariant 0 <= i <= |rows|
        invariant |result| == i
        invariant forall k :: 0 <= k < i ==> result[k] == PersonOf(rows[k])
      {
        var row := rows[i];
        result := result + [PersonOf(row)];
        i := i + 1;
      }
      assert |rows| == |persons| by {
        assert |multiset(rows)| == |multiset(persons)|;
      }
      forall p | p in persons
        ensures PersonOf(p) in result
      {
        assert p in multiset(rows);
        var k :| 0 <= k < |rows| && rows[k] == p;
        assert result[k] == PersonOf(p);
      }
      r := Ok(result);
    }

    /** The row loop of login: each matching row's person is looked up and
        `result` is reassigned; a failing lookup would end the loop. */
    method Login(key: string) returns (r: StorageResult<Option<AppUser>>)
      requires forall u :: u in users && u.password == key ==> u.personRef.Some?
      ensures r == Ok(LastRowUser(UsersWherePassword(users, key), persons))
      ensures r.value.Some? ==> r.value.value.password == ""
      ensures (forall i :: 0 <= i < |users| ==> users[i].password != key) ==> r == Ok(None)
    {
      var rows := UsersWherePassword(users, key);
      var outcome: StorageResult<Option<AppUser>> := Ok(None);
      var i := 0;
      while i < |rows| && outcome.Ok?
        invariant 0 <= i <= |rows|
        invariant outcome == Ok(if i == 0 then None else RowUser(rows[i - 1], persons))
      {
        var row := rows[i];
        var found := GetPersonById(row.personRef.value);
        outcome := LoginStep(row, found);
        i := i + 1;
      }
      r := outcome;
      LoginDecidedByLastRow(users, persons, key);
    }

    method GetUser(uuid: Uuid) returns (r: StorageResult<Option<AppUser>>)
      requires forall u :: u in users && u.uuid == Some(uuid) ==> u.personRef.Some?
      ensures r == Ok(LastRowUser(UsersWhereUuid(users, uuid), persons))
      ensures r.value.Some? ==> r.value.value.password == "" && r.value.value.uuid == Some(uuid)
    {
      var rows := UsersWhereUuid(users, uuid);
      var outcome: StorageResult<Option<AppUser>> := Ok(None);
      var i := 0;
      while i < |rows| && outcome.Ok?
        invariant 0 <= i <= |rows|
        invariant outcome == Ok(if i == 0 then None else RowUser(rows[i - 1], persons))
      {
        var row := rows[i];
        var found := GetPersonById(row.personRef.value);
        outcome := LoginStep(row, found);
        i := i + 1;
      }
      r := outcome;
      if rows != [] {
        var last := rows[|rows| - 1];
        assert r == Ok(RowUser(last, persons));
        assert last.uuid == Some(uuid);
      }
    }

    /** Lists the users of the rows with a person link, in login order; a row
        whose person is not found is skipped. */
    method GetAllUsers() returns (r: StorageResult<seq<AppUser>>)
      ensures r == Ok(JoinPersons(LinkedUsersOrderByLogin(users), persons))
      ensures LoginOrdered(r.value)
      ensures Valid() ==> |r.value| == |Where(users, HasPersonLink)|
      ensures forall x :: x in r.value ==>
                exists u :: u in users && u.personRef.Some? && PersonById(persons, u.personRef.value).Some?
                            && x == UserOf(u, PersonById(persons, u.personRef.value).value)
    {
      var rows := LinkedUsersOrderByLogin(users);
      var outcome: StorageResult<seq<AppUser>> := Ok([]);
      var i := 0;
      while i < |rows| && outcome.Ok?
        invariant 0 <= i <= |rows|
        invariant outcome == Ok(JoinPersons(rows[..i], persons))
      {
        var row := rows[i];
        var found := GetPersonById(row.personRef.value);
        assert rows[..i + 1][..i] == rows[..i];
        JoinPersonsStep(rows, i, persons);
        outcome := ListStep(outcome.value, row, found);
        i := i + 1;
      }
      assert rows[..|rows|] == rows;
      r := outcome;
      JoinPersonsSorted(rows, persons);
      LinkedUsersJoinOrigin(users, persons);
      if Valid() {
        ListingComplete(users, persons);
      }
    }

    /** Stamps `created_on`, inserts, and takes id and uuid from the row the
        insert returns; every other field is echoed from the payload. */
    method CreateUser(user: AppUser, now: Timestamp) returns (r: StorageResult<AppUser>)
      requires Valid()
      modifies this
      ensures Valid()
      ensures persons == old(persons) && personSerial == old(personSerial)
      ensures r.Ok? <==> LoginFree(old(users), user.login, None) && LinkResolves(old(persons), user.person.id)
      ensures r.Err? ==> r.error == ConstraintViolation && users == old(users) && userSerial == old(userSerial)
      ensures r.Ok? ==>
                && r.value == user.(id := Some(old(userSerial)), uuid := r.value.uuid, createdOn := Some(now))
                && r.value.uuid.Some? && UuidFree(old(users), r.value.uuid.value)
                && (forall u :: u in old(users) ==> u.id != old(userSerial))
                && users == old(users) + [UserRow(old(userSerial), r.value.uuid, user.login, user.password,
                                                  user.photo, Some(now), None, None, user.person.id)]
                && userSerial == old(userSerial) + 1
    {
      var created := user.(createdOn := Some(now));
      if !(LoginFree(users, created.login, None) && LinkResolves(persons, created.person.id)) {
        return Err(ConstraintViolation);
      }
      var id := userSerial;
      assert UuidFree(users, UuidBound(users));
      var uuid: Uuid :| UuidFree(users, uuid);
      var row := UserRow(id, Some(uuid), created.login, created.password, created.photo,
                         created.createdOn, None, None, created.person.id);
      forall k | 0 <= k < |users|
        ensures DistinctUserKeys(users[k], row)
      {
        assert UuidFree(users, uuid);
        assert users[k] in users;
      }
      AppendPairwise(users, row, DistinctUserKeys);
      users := users + [row];
      userSerial := userSerial + 1;
      created := created.(id := Some(id), uuid := Some(uuid));
      r := Ok(created);
    }

    /** Stamps `updated_on` and overwrites the row with the payload's id;
        the payload is returned with only `updated_on` changed. */
    method UpdateUser(user: AppUser, now: Timestamp) returns (r: StorageResult<AppUser>)
      requires Valid()
      modifies this
      ensures Valid()
      ensures persons == old(persons) && personSerial == old(personSerial) && userSerial == old(userSerial)
      ensures r.Ok? <==>
                (forall u :: u in old(users) ==> Some(u.id) != user.id)
                || (&& LoginFree(old(users), user.login, user.id)
                    && UuidAvailable(old(users), user.uuid, user.id)
                    && LinkResolves(old(persons), user.person.id))
      ensures r.Err? ==> r.error == ConstraintViolation && users == old(users)
      ensures r.Ok? ==> r.value == user.(updatedOn := Some(now)) && users == UpdateUserRows(old(users), r.value)
    {
      var updated := user.(updatedOn := Some(now));
      var matched := exists u :: u in users && Some(u.id) == updated.id;
      if matched && !(&& LoginFree(users, updated.login, updated.id)
                      && UuidAvailable(users, updated.uuid, updated.id)
                      && LinkResolves(persons, updated.person.id)) {
        return Err(ConstraintViolation);
      }
      var before := users;
      users := UpdateUserRows(users, updated);
      UpdateUserRowsKeepsSchema(before, persons, updated);
      r := Ok(updated);
    }

    /** Deletes the rows with the payload's id; succeeds whether or not one
        existed. */
    method DeleteUser(user: AppUser) returns (r: StorageResult<()>)
      requires Valid()
      modifies this
      ensures Valid()
      ensures r == Ok(())
      ensures persons == old(persons) && personSerial == old(personSerial) && userSerial == old(userSerial)
      ensures users == Where(old(users), UserIdIsNot(user.id))
      ensures forall u :: u in users ==> u in old(users) && Some(u.id) != user.id
      ensures forall u :: u in old(users) && Some(u.id) != user.id ==> u in users
    {
      WherePairwise(users, UserIdIsNot(user.id), DistinctUserKeys);
      users := Where(users, UserIdIsNot(user.id));
      r := Ok(());
    }

    /** Stamps `created_on`, inserts, and takes id and uuid from the row the
        insert returns; every other field is echoed from the payload. */
    method CreatePerson(person: Person, now: Timestamp) returns (r: StorageResult<Person>)
      requires Valid()
      modifies this
      ensures Valid()
      ensures users == old(users) && userSerial == old(userSerial)
      ensures r.Ok?
      ensures r.value == person.(id := Some(old(personSerial)), uuid := r.value.uuid, createdOn := Some(now))
      ensures r.value.uuid.Some? && PersonUuidFree(old(persons), r.value.uuid.value)
      ensures forall p :: p in old(persons) ==> p.id != old(personSerial)
      ensures persons == old(persons) + [PersonRow(old(personSerial), r.value.uuid.value, person.firstname,
                                                   person.lastname, person.email, person.phone, Some(now), None)]
      ensures personSerial == old(personSerial) + 1
    {
      var created := person.(createdOn := Some(now));
      var id := personSerial;
      assert PersonUuidFree(persons, PersonUuidBound(persons));
      var uuid: Uuid :| PersonUuidFree(persons, uuid);
      var row := PersonRow(id, uuid, created.firstname, created.lastname, created.email,
                           created.phone, created.createdOn, None);
      forall k | 0 <= k < |persons|
        ensures DistinctPersonKeys(persons[k], row)
      {
        assert PersonUuidFree(persons, uuid);
        assert persons[k] in persons;
      }
      AppendPairwise(persons, row, DistinctPersonKeys);
      persons := persons + [row];
      personSerial := personSerial + 1;
      created := created.(id := Some(id), uuid := Some(uuid));
      r := Ok(created);
    }

    /** Stamps `updated_on` and rewrites the contact columns of the row with
        the payload's id; the payload is returned with only `updated_on`
        changed. */
    method UpdatePerson(person: Person, now: Timestamp) returns (r: StorageResult<Person>)
      requires Valid()
      modifies this
      ensures Valid()
      ensures users == old(users) && personSerial == old(personSerial) && userSerial == old(userSerial)
      ensures r == Ok(person.(updatedOn := Some(now)))
      ensures persons == UpdatePersonRows(old(persons), r.value)
    {
      var updated := person.(updatedOn := Some(now));
      var before := persons;
      persons := UpdatePersonRows(persons, updated);
      UpdatePersonRowsKeepsLinks(users, before, updated);
      r := Ok(updated);
    }

    /** Deletes the rows with the payload's id; refused while a user still
        points at the person, otherwise succeeds whether or not one existed. */
    method DeletePerson(person: Person) returns (r: StorageResult<()>)
      requires Valid()
      modifies this
      ensures Valid()
      ensures users == old(users) && personSerial == old(personSerial) && userSerial == old(userSerial)
      ensures Referenced(old(users), person.id) ==> r == Err(ConstraintViolation) && persons == old(persons)
      ensures !Referenced(old(users), person.id) ==> r == Ok(()) && persons == Where(old(persons), PersonIdIsNot(person.id))
    {
      if Referenced(users, person.id) {
        return Err(ConstraintViolation);
      }
      var before := persons;
      WherePairwise(persons, PersonIdIsNot(person.id), DistinctPersonKeys);
      persons := Where(persons, PersonIdIsNot(person.id));
      DeletePersonKeepsLinks(users, before, person.id);
      r := Ok(());
    }
  }

  // ----- Reading back what was written -----

  /** With the foreign key in force no linked row is skipped: the listing
      has exactly one user per linked row. */
  lemma ListingComplete(users: seq<UserRow>, persons: seq<PersonRow>)
    requires LinksResolve(users, persons)
    ensures |JoinPersons(LinkedUsersOrderByLogin(users), persons)| == |Where(users, HasPersonLink)|
  {
    var rows := LinkedUsersOrderByLogin(users);
    forall k | 0 <= k < |rows|
      ensures PersonById(persons, rows[k].personRef.value).Some?
    {
      assert rows[k] in multiset(Where(users, HasPersonLink));
      var p :| p in persons && p.id == rows[k].personRef.value;
      var i :| 0 <= i < |persons| && persons[i] == p;
      PersonByIdSpec(persons, p.id);
    }
    JoinPersonsComplete(rows, persons);
    assert |multiset(rows)| == |multiset(Where(users, HasPersonLink))|;
  }

  /** A person just inserted is what `get_person_by_uuid` answers for its
      generated uuid. */
  lemma CreatedPersonFoundByUuid(persons: seq<PersonRow>, row: PersonRow)
    requires PersonUuidFree(persons, row.uuid)
    ensures PersonByUuid(persons + [row], row.uuid) == Some(PersonOf(row))
  {
    var all := persons + [row];
    assert LastKept(all, PersonUuidIs(row.uuid), |persons|);
    PersonByUuidSpec(all, row.uuid);
  }

  /** A user just inserted is what `get_user` answers for its generated uuid,
      with the password blanked; `None` if its person row is gone. */
  lemma CreatedUserFoundByUuid(users: seq<UserRow>, persons: seq<PersonRow>, row: UserRow)
    requires row.uuid.Some? && row.personRef.Some?
    requires UuidFree(users, row.uuid.value)
    ensures forall k :: 0 <= k < |UsersWhereUuid(users + [row], row.uuid.value)| ==>
              UsersWhereUuid(users + [row], row.uuid.value)[k] == row
    ensures LastRowUser(UsersWhereUuid(users + [row], row.uuid.value), persons) == RowUser(row, persons)
  {
    var all := users + [row];
    var rows := UsersWhereUuid(all, row.uuid.value);
    assert all[|users|] == row;
    assert row in rows;
    forall k | 0 <= k < |rows|
      ensures rows[k] == row
    {
      assert rows[k] in all;
    }
  }

  /** With unordered query results read in table order and inserts placed
      last, login answers from the most recently inserted user whose stored
      key is `key`: a user just inserted with that key is the one logged in. */
  lemma LoginAfterCreate(users: seq<UserRow>, persons: seq<PersonRow>, row: UserRow)
    requires row.personRef.Some?
    requires forall u :: u in users && u.password == row.password ==> u.personRef.Some?
    ensures LastRowUser(UsersWherePassword(users + [row], row.password), persons) == RowUser(row, persons)
  {
    var all := users + [row];
    assert LastKept(all, PasswordIs(row.password), |users|);
    LoginDecidedByLastRow(all, persons, row.password);
  }

  // ----- The assumed table constraints survive every statement -----

  lemma UpdateUserRowsKeepsSchema(users: seq<UserRow>, persons: seq<PersonRow>, user: AppUser)
    requires LinksResolve(users, persons) && Pairwise(users, DistinctUserKeys)
    requires (exists u :: u in users && Some(u.id) == user.id) ==>
               && LoginFree(users, user.login, user.id)
               && UuidAvailable(users, user.uuid, user.id)
               && LinkResolves(persons, user.person.id)
    ensures LinksResolve(UpdateUserRows(users, user), persons)
    ensures Pairwise(UpdateUserRows(users, user), DistinctUserKeys)
  {
    var updated := UpdateUserRows(users, user);
    forall u | u in updated
      ensures LinkResolves(persons, u.personRef)
    {
      var i :| 0 <= i < |updated| && updated[i] == u;
      assert users[i] in users;
    }
    forall i, j | 0 <= i < j < |updated|
      ensures DistinctUserKeys(updated[i], updated[j])
    {
      assert DistinctUserKeys(users[i], users[j]);
      assert users[i] in users && users[j] in users;
    }
  }

  lemma UpdatePersonRowsKeepsLinks(users: seq<UserRow>, persons: seq<PersonRow>, person: Person)
    requires LinksResolve(users, persons) && Pairwise(persons, DistinctPersonKeys)
    ensures LinksResolve(users, UpdatePersonRows(persons, person))
    ensures Pairwise(UpdatePersonRows(persons, person), DistinctPersonKeys)
    ensures forall p :: p in UpdatePersonRows(persons, person) ==> exists q :: q in persons && q.id == p.id
  {
    var updated := UpdatePersonRows(persons, person);
    forall u | u in users && u.personRef.Some?
      ensures HasPerson(updated, u.personRef.value)
    {
      var p :| p in persons && p.id == u.personRef.value;
      var i :| 0 <= i < |persons| && persons[i] == p;
      assert updated[i] in updated;
    }
    forall p | p in updated
      ensures exists q :: q in persons && q.id == p.id
    {
      var i :| 0 <= i < |updated| && updated[i] == p;
      assert persons[i] in persons;
    }
    forall i, j | 0 <= i < j < |updated|
      ensures DistinctPersonKeys(updated[i], updated[j])
    {
      assert DistinctPersonKeys(persons[i], persons[j]);
    }
  }

  lemma DeletePersonKeepsLinks(users: seq<UserRow>, persons: seq<PersonRow>, id: Option<int>)
    requires LinksResolve(users, persons)
    requires !Referenced(users, id)
    ensures LinksResolve(users, Where(persons, PersonIdIsNot(id)))
  {
    var kept := Where(persons, PersonIdIsNot(id));
    forall u | u in users && u.personRef.Some?
      ensures HasPerson(kept, u.personRef.value)
    {
      var p :| p in persons && p.id == u.personRef.value;
      var i :| 0 <= i < |persons| && persons[i] == p;
      assert PersonIdIsNot(id)(persons[i]);
    }
  }
}
