/** The storage records of httpserver/repository/models, the identity claims, and Go errors. */
module Models {

  /** A uuid.UUID, abstracted to a number; uuid.Nil is 0. */
  type Uuid = nat
  const NilUuid: Uuid := 0

  /** A time.Time as Unix seconds; Go's zero time.Time is ZeroTime. */
  type Time = int
  const ZeroTime: Time := 0

  datatype Author = Author(id: Uuid, userId: Uuid, name: string, birthdate: Time,
                           createdAt: Time, updatedAt: Time)

  datatype Book = Book(id: Uuid, userId: Uuid, authorId: Uuid, title: string, isbn: string,
                       createdAt: Time, updatedAt: Time)

  datatype User = User(id: Uuid, username: string, password: string, createdAt: Time, updatedAt: Time)

  /** The primary key of each table. */
  function AuthorKey(a: Author): Uuid { a.id }
  function BookKey(b: Book): Uuid { b.id }
  function UserKey(u: User): Uuid { u.id }

  /** The zero values that gorm leaves in a record it could not load. */
  const ZeroAuthor := Author(NilUuid, NilUuid, "", ZeroTime, ZeroTime, ZeroTime)
  const ZeroBook := Book(NilUuid, NilUuid, NilUuid, "", "", ZeroTime, ZeroTime)
  const ZeroUser := User(NilUuid, "", "", ZeroTime, ZeroTime)

  /** common.CustomClaims: the user id plus the standard Subject and ExpiresAt claims. */
  datatype Claims = Claims(id: Uuid, subject: string, expiresAt: int)

  /** A non-nil Go error: gorm.ErrRecordNotFound, or any other error with its text. */
  datatype Error = RecordNotFound | Fault(text: string)

  /** err.Error() */
  function ErrorText(e: Error): string
  {
    match e
    case RecordNotFound => "record not found"
    case Fault(text) => text
  }

  /** The text the database driver reports for a primary-key collision. */
  const DuplicateKeyText := "duplicate key value violates unique constraint"
}
