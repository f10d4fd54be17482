/** The entity model shared by the domain service and the storage backends:
    `Person`, `AppUser`, and the storage error kinds. */
module Core {

  datatype Option<+T> = None | Some(value: T)

  datatype Result<+T, +E> = Ok(value: T) | Err(error: E)

  /** Identifier generated by the database for a row (`uuid::Uuid`). */
  type Uuid = nat

  /** A point in time (`DateTime<Utc>`). */
  type Timestamp = int

  /** What a storage backend can fail with. `NotImplemented` is what the
      partially built legacy backend answers; `ConstraintViolation` is this
      model's name for a statement refused by one of the table constraints
      it assumes (foreign key, unique keys and login). */
  datatype StorageError = NotImplemented | ConstraintViolation

  type StorageResult<T> = Result<T, StorageError>

  datatype Person = Person(
    id: Option<int>,
    uuid: Option<Uuid>,
    firstname: string,
    lastname: string,
    email: string,
    phone: string,
    createdOn: Option<Timestamp>,
    updatedOn: Option<Timestamp>)

  /** An account, bound to exactly one embedded `Person`. */
  datatype AppUser = AppUser(
    id: Option<int>,
    uuid: Option<Uuid>,
    login: string,
    password: string,
    photo: Option<string>,
    createdOn: Option<Timestamp>,
    updatedOn: Option<Timestamp>,
    lastLoginOn: Option<Timestamp>,
    person: Person)
}
