/** The user domain service: derives the credential key, logs in through the
    storage port, orders the two writes of a user update, and forwards every
    other operation to storage. */
module Domain {

  import opened Core

  /** The fixed salt appended to every hashed credential. It is global, not
      per user. */
  const Salt: string := "__H3l!X__"

  /** A SHA-256 digest as the hasher renders it: 64 lowercase hex digits. */
  predicate IsHexDigest(s: string) {
    |s| == 64 && forall i :: 0 <= i < |s| ==> ('0' <= s[i] <= '9' || 'a' <= s[i] <= 'f')
  }

  type HexDigest = s: string | IsHexDigest(s)
    witness seq(64, _ => '0')

  /** The credential key: the login, a colon, then the digest of
      login ++ password ++ salt. */
  function AuthKey(sha256: string -> HexDigest, login: string, password: string): string {
    login + ":" + sha256(login + password + Salt)
  }

  /** Recovers the login from a key: what precedes the final ':' and digest. */
  function KeyLogin(key: string): string {
    if |key| < 65 then key else key[..|key| - 65]
  }

  /** The layout of a key: login first, then ':', then the digest of the
      login, the password and the salt, in that order. */
  lemma AuthKeyLayout(sha256: string -> HexDigest, login: string, password: string)
    ensures |AuthKey(sha256, login, password)| == |login| + 65
    ensures AuthKey(sha256, login, password)[..|login| + 1] == login + ":"
    ensures AuthKey(sha256, login, password)[|login| + 1..] == sha256(login + password + Salt)
  {
    var key := AuthKey(sha256, login, password);
    assert key == (login + ":") + sha256(login + password + Salt);
  }

  /** The login is recoverable from the key. */
  lemma {:induction false} KeyLoginOfAuthKey(sha256: string -> HexDigest, login: string, password: string)
    ensures KeyLogin(AuthKey(sha256, login, password)) == login
  {
    AuthKeyLayout(sha256, login, password);
    var key := AuthKey(sha256, login, password);
    assert key[..|login|] == (key[..|login| + 1])[..|login|];
  }

  /** Distinct logins never share a key, whatever the passwords. */
  lemma {:induction false} AuthKeyDistinctLogins(sha256: string -> HexDigest,
                                                 login1: string, password1: string,
                                                 login2: string, password2: string)
    requires login1 != login2
    ensures AuthKey(sha256, login1, password1) != AuthKey(sha256, login2, password2)
  {
    KeyLoginOfAuthKey(sha256, login1, password1);
    KeyLoginOfAuthKey(sha256, login2, password2);
  }

  datatype UserDomainError = NotImplemented | Storage(cause: StorageError)

  type UserDomainResult<T> = Result<T, UserDomainError>

  /** The `?` operator on a storage result inside the domain: a value is
      passed on, an error is converted into a domain error. */
  function Lift<T>(r: StorageResult<T>): UserDomainResult<T> {
    match r
    case Ok(v) => Ok(v)
    case Err(e) => Err(UserDomainError.Storage(e))
  }

  /** `r` is the storage answer `sr`, carried up unchanged. */
  ghost predicate Forwards<T>(r: UserDomainResult<T>, sr: StorageResult<T>) {
    && (sr.Ok? ==> r == Ok(sr.value))
    && (sr.Err? ==> r == Err(UserDomainError.Storage(sr.error)))
  }

  /** The storage operations the domain calls, as a capability over a
      backend state `S`: each takes the state and an argument and gives
      back the next state and the backend's answer. */
  datatype StoragePort<!S> = StoragePort(
    login: (S, string) -> (S, StorageResult<Option<AppUser>>),
    getAllUsers: S -> (S, StorageResult<seq<AppUser>>),
    getUser: (S, Uuid) -> (S, StorageResult<Option<AppUser>>),
    createUser: (S, AppUser) -> (S, StorageResult<AppUser>),
    updateUser: (S, AppUser) -> (S, StorageResult<AppUser>),
    deleteUser: (S, AppUser) -> (S, StorageResult<()>),
    getAllPerson: S -> (S, StorageResult<seq<Person>>),
    getPersonByUuid: (S, Uuid) -> (S, StorageResult<Option<Person>>),
    createPerson: (S, Person) -> (S, StorageResult<Person>),
    updatePerson: (S, Person) -> (S, StorageResult<Person>),
    deletePerson: (S, Person) -> (S, StorageResult<()>))

  /** The domain service over a storage port. `sha256` is the digest
      function of the cryptographic library. */
  datatype UserDomain<!S> = UserDomain(storage: StoragePort<S>, sha256: string -> HexDigest)
  {
    /** Builds the key step by step, as the two string buffers do. */
    method GenerateUserAuthKey(login: string, password: string) returns (key: string)
      ensures key == AuthKey(sha256, login, password)
      ensures KeyLogin(key) == login
    {
      var toHash := "";
      toHash := toHash + login;
      toHash := toHash + password;
      toHash := toHash + Salt;
      var digest := sha256(toHash);
      key := "";
      key := key + login;
      key := key + ":";
      key := key + digest;
      assert toHash == login + password + Salt;
      KeyLoginOfAuthKey(sha256, login, password);
    }

    /** Asks storage with the derived key; a missing user and a backend
        failure both become the same error. */
    function Login(s: S, login: string, password: string): (res: (S, UserDomainResult<AppUser>))
      ensures res.0 == storage.login(s, AuthKey(sha256, login, password)).0
      ensures var sr := storage.login(s, AuthKey(sha256, login, password)).1;
        && (res.1.Ok? <==> sr.Ok? && sr.value.Some?)
        && (res.1.Ok? ==> res.1.value == sr.value.value)
        && (res.1.Err? ==> res.1.error == UserDomainError.NotImplemented)
    {
      var (next, answer) := storage.login(s, AuthKey(sha256, login, password));
      match answer
      case Ok(Some(user)) => (next, Ok(user))
      case Ok(None) => (next, Err(UserDomainError.NotImplemented))
      case Err(_) => (next, Err(UserDomainError.NotImplemented))
    }

    function GetAllUsers(s: S): (res: (S, UserDomainResult<seq<AppUser>>))
      ensures res.0 == storage.getAllUsers(s).0
      ensures Forwards(res.1, storage.getAllUsers(s).1)
    {
      var (next, answer) := storage.getAllUsers(s);
      (next, Lift(answer))
    }

    function GetUser(s: S, uuid: Uuid): (res: (S, UserDomainResult<Option<AppUser>>))
      ensures res.0 == storage.getUser(s, uuid).0
      ensures Forwards(res.1, storage.getUser(s, uuid).1)
    {
      var (next, answer) := storage.getUser(s, uuid);
      (next, Lift(answer))
    }

    function CreateUser(s: S, user: AppUser): (res: (S, UserDomainResult<AppUser>))
      ensures res.0 == storage.createUser(s, user).0
      ensures Forwards(res.1, storage.createUser(s, user).1)
    {
      var (next, answer) := storage.createUser(s, user);
      (next, Lift(answer))
    }

    /** Re-persists the embedded person first; only when that succeeds is
        the user itself written, and its answer is the result. */
    function UpdateUser(s: S, user: AppUser): (res: (S, UserDomainResult<AppUser>))
      ensures var (s1, personAnswer) := storage.updatePerson(s, user.person);
        && (personAnswer.Err? ==> res == (s1, Err(UserDomainError.Storage(personAnswer.error))))
        && (personAnswer.Ok? ==>
              && res.0 == storage.updateUser(s1, user).0
              && Forwards(res.1, storage.updateUser(s1, user).1))
    {
      var (s1, personAnswer) := storage.updatePerson(s, user.person);
      match personAnswer
      case Err(e) => (s1, Err(UserDomainError.Storage(e)))
      case Ok(_) =>
        var (s2, userAnswer) := storage.updateUser(s1, user);
        (s2, Lift(userAnswer))
    }

    function DeleteUser(s: S, user: AppUser): (res: (S, UserDomainResult<()>))
      ensures res.0 == storage.deleteUser(s, user).0
      ensures Forwards(res.1, storage.deleteUser(s, user).1)
    {
      var (next, answer) := storage.deleteUser(s, user);
      (next, Lift(answer))
    }

    function GetAllPersons(s: S): (res: (S, UserDomainResult<seq<Person>>))
      ensures res.0 == storage.getAllPerson(s).0
      ensures Forwards(res.1, storage.getAllPerson(s).1)
    {
      var (next, answer) := storage.getAllPerson(s);
      (next, Lift(answer))
    }

    function GetPerson(s: S, uuid: Uuid): (res: (S, UserDomainResult<Option<Person>>))
      ensures res.0 == storage.getPersonByUuid(s, uuid).0
      ensures Forwards(res.1, storage.getPersonByUuid(s, uuid).1)
    {
      var (next, answer) := storage.getPersonByUuid(s, uuid);
      (next, Lift(answer))
    }

    function CreatePerson(s: S, person: Person): (res: (S, UserDomainResult<Person>))
      ensures res.0 == storage.createPerson(s, person).0
      ensures Forwards(res.1, storage.createPerson(s, person).1)
    {
      var (next, answer) := storage.createPerson(s, person);
      (next, Lift(answer))
    }

    function UpdatePerson(s: S, person: Person): (res: (S, UserDomainResult<Person>))
      ensures res.0 == storage.updatePerson(s, person).0
      ensures Forwards(res.1, storage.updatePerson(s, person).1)
    {
      var (next, answer) := storage.updatePerson(s, person);
      (next, Lift(answer))
    }

    function DeletePerson(s: S, person: Person): (res: (S, UserDomainResult<()>))
      ensures res.0 == storage.deletePerson(s, person).0
      ensures Forwards(res.1, storage.deletePerson(s, person).1)
    {
      var (next, answer) := storage.deletePerson(s, person);
      (next, Lift(answer))
    }
  }

  /** A storage call as an observer of the port sees it. */
  datatype Call =
    | LoginCall(key: string)
    | GetAllUsersCall
    | GetUserCall(uuid: Uuid)
    | CreateUserCall(user: AppUser)
    | UpdateUserCall(user: AppUser)
    | DeleteUserCall(user: AppUser)
    | GetAllPersonCall
    | GetPersonByUuidCall(uuid: Uuid)
    | CreatePersonCall(person: Person)
    | UpdatePersonCall(person: Person)
    | DeletePersonCall(person: Person)

  function Record<S, T>(answer: (S, T), trace: seq<Call>, call: Call): ((S, seq<Call>), T) {
    ((answer.0, trace + [call]), answer.1)
  }

  /** The same port, with every call appended to a trace kept beside the
      backend state. */
  function Recording<S>(port: StoragePort<S>): StoragePort<(S, seq<Call>)> {
    StoragePort(
      (st: (S, seq<Call>), key: string) => Record(port.login(st.0, key), st.1, LoginCall(key)),
      (st: (S, seq<Call>)) => Record(port.getAllUsers(st.0), st.1, GetAllUsersCall),
      (st: (S, seq<Call>), uuid: Uuid) => Record(port.getUser(st.0, uuid), st.1, GetUserCall(uuid)),
      (st: (S, seq<Call>), user: AppUser) => Record(port.createUser(st.0, user), st.1, CreateUserCall(user)),
      (st: (S, seq<Call>), user: AppUser) => Record(port.updateUser(st.0, user), st.1, UpdateUserCall(user)),
      (st: (S, seq<Call>), user: AppUser) => Record(port.deleteUser(st.0, user), st.1, DeleteUserCall(user)),
      (st: (S, seq<Call>)) => Record(port.getAllPerson(st.0), st.1, GetAllPersonCall),
      (st: (S, seq<Call>), uuid: Uuid) => Record(port.getPersonByUuid(st.0, uuid), st.1, GetPersonByUuidCall(uuid)),
      (st: (S, seq<Call>), person: Person) => Record(port.createPerson(st.0, person), st.1, CreatePersonCall(person)),
      (st: (S, seq<Call>), person: Person) => Record(port.updatePerson(st.0, person), st.1, UpdatePersonCall(person)),
      (st: (S, seq<Call>), person: Person) => Record(port.deletePerson(st.0, person), st.1, DeletePersonCall(person)))
  }

  /** Login makes exactly one storage call, and its argument is the derived key. */
  lemma LoginCallsStorageWithKey<S>(port: StoragePort<S>, sha256: string -> HexDigest,
                                    s: S, trace: seq<Call>, login: string, password: string)
    ensures UserDomain(Recording(port), sha256).Login((s, trace), login, password).0.1
            == trace + [LoginCall(AuthKey(sha256, login, password))]
    ensures UserDomain(Recording(port), sha256).Login((s, trace), login, password).1
            == UserDomain(port, sha256).Login(s, login, password).1
  {
    var key := AuthKey(sha256, login, password);
    assert Recording(port).login((s, trace), key) == ((port.login(s, key).0, trace + [LoginCall(key)]), port.login(s, key).1);
  }

  /** Update writes the person before the user; when the person write fails
      the user write is never issued. */
  lemma UpdateUserCallOrder<S>(port: StoragePort<S>, sha256: string -> HexDigest,
                               s: S, trace: seq<Call>, user: AppUser)
    ensures UserDomain(Recording(port), sha256).UpdateUser((s, trace), user).0.1
            == trace + [UpdatePersonCall(user.person)]
               + (if port.updatePerson(s, user.person).1.Ok? then [UpdateUserCall(user)] else [])
    ensures UserDomain(Recording(port), sha256).UpdateUser((s, trace), user).1
            == UserDomain(port, sha256).UpdateUser(s, user).1
  {
    var recording := Recording(port);
    var (s1, personAnswer) := port.updatePerson(s, user.person);
    assert recording.updatePerson((s, trace), user.person)
           == ((s1, trace + [UpdatePersonCall(user.person)]), personAnswer);
    assert recording.updateUser((s1, trace + [UpdatePersonCall(user.person)]), user)
           == ((port.updateUser(s1, user).0, trace + [UpdatePersonCall(user.person)] + [UpdateUserCall(user)]),
               port.updateUser(s1, user).1);
  }

  /** A caller of login cannot tell "no such user" from "backend failure":
      two backends answering these two ways give the same outcome. */
  lemma LoginHidesFailureCause<S>(missing: UserDomain<S>, failing: UserDomain<S>, s: S,
                                  login: string, password: string, next: S, e: StorageError)
    requires missing.sha256 == failing.sha256
    requires missing.storage.login(s, AuthKey(missing.sha256, login, password)) == (next, Ok(None))
    requires failing.storage.login(s, AuthKey(failing.sha256, login, password)) == (next, Err(e))
    ensures missing.Login(s, login, password) == failing.Login(s, login, password)
    ensures missing.Login(s, login, password) == (next, Err(UserDomainError.NotImplemented))
  {
  }
}
