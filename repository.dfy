/**
 * The repository interfaces of httpserver/repository, as abstract stores. Each
 * repository is a table of rows, a log of the calls made to it, and a fixed
 * schedule of storage outages: the call made when the log has length k fails
 * with the error text `outages[k]` if k is in the schedule. The clock and
 * `uuid.New()` are a `now` parameter and Table.FreshKey.
 */
module Repository {
  import opened Wrappers
  import opened Models
  import Table

  /** What a lookup by key sees: a storage error, no row, or the row. */
  datatype Lookup<R> = Outage(text: string) | Missing | Found(record: R)

  /** gorm `Updates(struct)`: each non-zero field of `given` overwrites the stored one. */
  function AuthorOverlay(stored: Author, given: Author): Author
  {
    Author(if given.id != NilUuid then given.id else stored.id,
           if given.userId != NilUuid then given.userId else stored.userId,
           if given.name != "" then given.name else stored.name,
           if given.birthdate != ZeroTime then given.birthdate else stored.birthdate,
           if given.createdAt != ZeroTime then given.createdAt else stored.createdAt,
           if given.updatedAt != ZeroTime then given.updatedAt else stored.updatedAt)
  }

  function BookOverlay(stored: Book, given: Book): Book
  {
    Book(if given.id != NilUuid then given.id else stored.id,
         if given.userId != NilUuid then given.userId else stored.userId,
         if given.authorId != NilUuid then given.authorId else stored.authorId,
         if given.title != "" then given.title else stored.title,
         if given.isbn != "" then given.isbn else stored.isbn,
         if given.createdAt != ZeroTime then given.createdAt else stored.createdAt,
         if given.updatedAt != ZeroTime then given.updatedAt else stored.updatedAt)
  }

  /** The row update `Model(given).Updates(given)` applies to each matching row. */
  function AuthorUpdates(given: Author): Author -> Author
  {
    (stored: Author) => AuthorOverlay(stored, given)
  }

  function BookUpdates(given: Book): Book -> Book
  {
    (stored: Book) => BookOverlay(stored, given)
  }

  /**
   * Writing back a loaded row (same id, same owner) moves no row to another
   * owner and renames no row.
   */
  lemma AuthorUpdateKeepsOwners(rows: seq<Author>, id: Uuid, given: Author)
    requires Table.UniqueKeys(rows, AuthorKey)
    requires Table.Find(rows, AuthorKey, id).Some?
    requires given.id == id && given.userId == Table.Find(rows, AuthorKey, id).value.userId
    ensures var r := Table.UpdateWhere(rows, AuthorKey, id, AuthorUpdates(given));
            forall i | 0 <= i < |rows| :: r[i].id == rows[i].id && r[i].userId == rows[i].userId
  {
  }

  lemma BookUpdateKeepsOwners(rows: seq<Book>, id: Uuid, given: Book)
    requires Table.UniqueKeys(rows, BookKey)
    requires Table.Find(rows, BookKey, id).Some?
    requires given.id == id && given.userId == Table.Find(rows, BookKey, id).value.userId
    ensures var r := Table.UpdateWhere(rows, BookKey, id, BookUpdates(given));
            forall i | 0 <= i < |rows| :: r[i].id == rows[i].id && r[i].userId == rows[i].userId
  {
  }

  datatype AuthorCall =
    | RepoCreateAuthor(author: Author)
    | RepoGetAuthors
    | RepoGetAuthorById(id: Uuid)
    | RepoUpdateAuthor(author: Author, id: Uuid)
    | RepoDeleteAuthor(id: Uuid)

  /** Some call made since the log had length `from` updates or deletes a row. */
  ghost predicate AuthorWritesSince(log: seq<AuthorCall>, from: nat)
  {
    exists n | from <= n < |log| :: log[n].RepoUpdateAuthor? || log[n].RepoDeleteAuthor?
  }

  class AuthorRepo {
    var rows: seq<Author>
    var log: seq<AuthorCall>
    const outages: map<nat, string>

    ghost predicate Valid()
      reads this
    {
      Table.UniqueKeys(rows, AuthorKey)
    }

    /** The next call fails with a storage error. */
    predicate Down()
      reads this
    {
      |log| in outages
    }

    /** What `GetAuthorById(id)` would see now. */
    function Probe(id: Uuid): Lookup<Author>
      reads this
    {
      if Down() then Outage(outages[|log|])
      else match Table.Find(rows, AuthorKey, id)
        case Some(a) => Found(a)
        case None => Missing
    }

    constructor (rows: seq<Author>, outages: map<nat, string>)
      requires Table.UniqueKeys(rows, AuthorKey)
      ensures Valid() && this.rows == rows && log == [] && this.outages == outages
    {
      this.rows := rows;
      this.outages := outages;
      log := [];
    }

    /** CreateAuthor: assigns a fresh id and the creation time to the record, then inserts it. */
    method CreateAuthor(author: Author, now: Time) returns (stored: Author, err: Option<Error>)
      requires Valid()
      modifies this
      ensures Valid()
      ensures log == old(log) + [RepoCreateAuthor(author)]
      ensures stored == author.(id := Table.FreshKey(old(rows), AuthorKey), createdAt := now)
      ensures old(Down()) ==> err == Some(Fault(outages[|old(log)|])) && rows == old(rows)
      ensures !old(Down()) ==> err == None && rows == old(rows) + [stored]
    {
      stored := author.(id := Table.FreshKey(rows, AuthorKey), createdAt := now);
      if Down() {
        err := Some(Fault(outages[|log|]));
      } else {
        err := None;
        Table.AppendFreshKeepsUnique(rows, AuthorKey, stored);
        rows := rows + [stored];
      }
      log := log + [RepoCreateAuthor(author)];
    }

    /** GetAuthors: every row in storage order, or nil and the error. */
    method GetAuthors() returns (list: seq<Author>, err: Option<Error>)
      modifies this
      ensures rows == old(rows) && log == old(log) + [RepoGetAuthors]
      ensures old(Down()) ==> err == Some(Fault(outages[|old(log)|])) && list == []
      ensures !old(Down()) ==> err == None && list == rows
    {
      if Down() {
        list, err := [], Some(Fault(outages[|log|]));
      } else {
        list, err := rows, None;
      }
      log := log + [RepoGetAuthors];
    }

    /** GetAuthorById: the row with that id, gorm.ErrRecordNotFound, or a storage error. */
    method GetAuthorById(id: Uuid) returns (a: Author, err: Option<Error>)
      modifies this
      ensures rows == old(rows) && log == old(log) + [RepoGetAuthorById(id)]
      ensures old(Probe(id)).Outage? ==> err == Some(Fault(old(Probe(id)).text))
      ensures old(Probe(id)).Missing? ==> err == Some(RecordNotFound)
      ensures old(Probe(id)).Found? ==> err == None && a == old(Probe(id)).record
      ensures !old(Probe(id)).Found? ==> a == ZeroAuthor
    {
      var probe := Probe(id);
      match probe {
        case Outage(text) => a, err := ZeroAuthor, Some(Fault(text));
        case Missing => a, err := ZeroAuthor, Some(RecordNotFound);
        case Found(r) => a, err := r, None;
      }
      log := log + [RepoGetAuthorById(id)];
    }

    /**
     * UpdateAuthor: stamps the record's update time (the caller sees the
     * stamp, the record being passed by reference) and overlays its non-zero
     * fields on the rows with key `id`. `Model(author)` adds the record's own
     * primary key to the WHERE clause when it is set, so a record carrying
     * another id matches no row.
     */
    method UpdateAuthor(author: Author, id: Uuid, now: Time) returns (sent: Author, err: Option<Error>)
      requires Valid()
      modifies this
      ensures Valid()
      ensures log == old(log) + [RepoUpdateAuthor(author, id)]
      ensures sent == author.(updatedAt := now)
      ensures old(Down()) ==> err == Some(Fault(outages[|old(log)|])) && rows == old(rows)
      ensures !old(Down()) ==>
                err == None &&
                rows == if author.id == NilUuid || author.id == id
                        then Table.UpdateWhere(old(rows), AuthorKey, id, AuthorUpdates(sent))
                        else old(rows)
    {
      sent := author.(updatedAt := now);
      if Down() {
        err := Some(Fault(outages[|log|]));
      } else {
        err := None;
        if author.id == NilUuid || author.id == id {
          var f := AuthorUpdates(sent);
          Table.UpdateWhereKeepsUnique(rows, AuthorKey, id, f);
          rows := Table.UpdateWhere(rows, AuthorKey, id, f);
        }
      }
      log := log + [RepoUpdateAuthor(author, id)];
    }

    /** DeleteAuthor: removes the rows with key `id`; deleting nothing is not an error. */
    method DeleteAuthor(id: Uuid) returns (err: Option<Error>)
      requires Valid()
      modifies this
      ensures Valid()
      ensures log == old(log) + [RepoDeleteAuthor(id)]
      ensures old(Down()) ==> err == Some(Fault(outages[|old(log)|])) && rows == old(rows)
      ensures !old(Down()) ==> err == None && rows == Table.RemoveWhere(old(rows), AuthorKey, id)
    {
      if Down() {
        err := Some(Fault(outages[|log|]));
      } else {
        err := None;
        Table.RemoveWhereKeepsUnique(rows, AuthorKey, id);
        rows := Table.RemoveWhere(rows, AuthorKey, id);
      }
      log := log + [RepoDeleteAuthor(id)];
    }
  }

  datatype BookCall =
    | RepoCreateBook(book: Book)
    | RepoGetBooks
    | RepoGetBookById(id: Uuid)
    | RepoUpdateBook(book: Book, id: Uuid)
    | RepoDeleteBook(id: Uuid)

  ghost predicate BookWritesSince(log: seq<BookCall>, from: nat)
  {
    exists n | from <= n < |log| :: log[n].RepoUpdateBook? || log[n].RepoDeleteBook?
  }

  class BookRepo {
    var rows: seq<Book>
    var log: seq<BookCall>
    const outages: map<nat, string>

    ghost predicate Valid()
      reads this
    {
      Table.UniqueKeys(rows, BookKey)
    }

    predicate Down()
      reads this
    {
      |log| in outages
    }

    function Probe(id: Uuid): Lookup<Book>
      reads this
    {
      if Down() then Outage(outages[|log|])
      else match Table.Find(rows, BookKey, id)
        case Some(b) => Found(b)
        case None => Missing
    }

    constructor (rows: seq<Book>, outages: map<nat, string>)
      requires Table.UniqueKeys(rows, BookKey)
      ensures Valid() && this.rows == rows && log == [] && this.outages == outages
    {
      this.rows := rows;
      this.outages := outages;
      log := [];
    }

    method CreateBook(book: Book, now: Time) returns (stored: Book, err: Option<Error>)
      requires Valid()
      modifies this
      ensures Valid()
      ensures log == old(log) + [RepoCreateBook(book)]
      ensures stored == book.(id := Table.FreshKey(old(rows), BookKey), createdAt := now)
      ensures old(Down()) ==> err == Some(Fault(outages[|old(log)|])) && rows == old(rows)
      ensures !old(Down()) ==> err == None && rows == old(rows) + [stored]
    {
      stored := book.(id := Table.FreshKey(rows, BookKey), createdAt := now);
      if Down() {
        err := Some(Fault(outages[|log|]));
      } else {
        err := None;
        Table.AppendFreshKeepsUnique(rows, BookKey, stored);
        rows := rows + [stored];
      }
      log := log + [RepoCreateBook(book)];
    }

    method GetBooks() returns (list: seq<Book>, err: Option<Error>)
      modifies this
      ensures rows == old(rows) && log == old(log) + [RepoGetBooks]
      ensures old(Down()) ==> err == Some(Fault(outages[|old(log)|])) && list == []
      ensures !old(Down()) ==> err == None && list == rows
    {
      if Down() {
        list, err := [], Some(Fault(outages[|log|]));
      } else {
        list, err := rows, None;
      }
      log := log + [RepoGetBooks];
    }

    method GetBookById(id: Uuid) returns (b: Book, err: Option<Error>)
      modifies this
      ensures rows == old(rows) && log == old(log) + [RepoGetBookById(id)]
      ensures old(Probe(id)).Outage? ==> err == Some(Fault(old(Probe(id)).text))
      ensures old(Probe(id)).Missing? ==> err == Some(RecordNotFound)
      ensures old(Probe(id)).Found? ==> err == None && b == old(Probe(id)).record
      ensures !old(Probe(id)).Found? ==> b == ZeroBook
    {
      var probe := Probe(id);
      match probe {
        case Outage(text) => b, err := ZeroBook, Some(Fault(text));
        case Missing => b, err := ZeroBook, Some(RecordNotFound);
        case Found(r) => b, err := r, None;
      }
      log := log + [RepoGetBookById(id)];
    }

    method UpdateBook(book: Book, id: Uuid, now: Time) returns (sent: Book, err: Option<Error>)
      requires Valid()
      modifies this
      ensures Valid()
      ensures log == old(log) + [RepoUpdateBook(book, id)]
      ensures sent == book.(updatedAt := now)
      ensures old(Down()) ==> err == Some(Fault(outages[|old(log)|])) && rows == old(rows)
      ensures !old(Down()) ==>
                err == None &&
                rows == if book.id == NilUuid || book.id == id
                        then Table.UpdateWhere(old(rows), BookKey, id, BookUpdates(sent))
                        else old(rows)
    {
      sent := book.(updatedAt := now);
      if Down() {
        err := Some(Fault(outages[|log|]));
      } else {
        err := None;
        if book.id == NilUuid || book.id == id {
          var f := BookUpdates(sent);
          Table.UpdateWhereKeepsUnique(rows, BookKey, id, f);
          rows := Table.UpdateWhere(rows, BookKey, id, f);
        }
      }
      log := log + [RepoUpdateBook(book, id)];
    }

    method DeleteBook(id: Uuid) returns (err: Option<Error>)
      requires Valid()
      modifies this
      ensures Valid()
      ensures log == old(log) + [RepoDeleteBook(id)]
      ensures old(Down()) ==> err == Some(Fault(outages[|old(log)|])) && rows == old(rows)
      ensures !old(Down()) ==> err == None && rows == Table.RemoveWhere(old(rows), BookKey, id)
    {
      if Down() {
        err := Some(Fault(outages[|log|]));
      } else {
        err := None;
        Table.RemoveWhereKeepsUnique(rows, BookKey, id);
        rows := Table.RemoveWhere(rows, BookKey, id);
      }
      log := log + [RepoDeleteBook(id)];
    }
  }

  /** ASCII lower-casing of one character. */
  function LowerChar(c: char): char
  {
    if 'A' <= c <= 'Z' then (c as int + 32) as char else c
  }

  /** `strings.ToLower`, and SQL `LOWER`, restricted to ASCII letters. */
  function Lower(s: string): (r: string)
    ensures |r| == |s| && forall i | 0 <= i < |s| :: r[i] == LowerChar(s[i])
  {
    if |s| == 0 then "" else [LowerChar(s[0])] + Lower(s[1..])
  }

  /** Two usernames are the same to the `LOWER(username) = ?` lookup. */
  predicate SameUsername(a: string, b: string)
  {
    Lower(a) == Lower(b)
  }

  /** `Where("LOWER(username) = ?", strings.ToLower(name)).Take(...)`: the first match. */
  function FindUsername(rows: seq<User>, name: string): (r: Option<User>)
    ensures r.Some? ==> r.value in rows && SameUsername(r.value.username, name)
    ensures r.None? <==> forall i | 0 <= i < |rows| :: !SameUsername(rows[i].username, name)
  {
    if |rows| == 0 then None
    else if SameUsername(rows[0].username, name) then Some(rows[0])
    else FindUsername(rows[1..], name)
  }

  /** No two users have the same username up to case. */
  ghost predicate UsernamesUnique(rows: seq<User>)
  {
    forall i, j | 0 <= i < j < |rows| :: !SameUsername(rows[i].username, rows[j].username)
  }

  datatype UserCall = RepoCreateUser(user: User) | RepoGetUserByUsername(username: string)

  class UserRepo {
    var rows: seq<User>
    var log: seq<UserCall>
    const outages: map<nat, string>

    ghost predicate Valid()
      reads this
    {
      Table.UniqueKeys(rows, UserKey)
    }

    predicate Down()
      reads this
    {
      |log| in outages
    }

    /** What `GetUserByUsername(name)` would see now. */
    function Probe(name: string): Lookup<User>
      reads this
    {
      if Down() then Outage(outages[|log|])
      else match FindUsername(rows, name)
        case Some(u) => Found(u)
        case None => Missing
    }

    constructor (rows: seq<User>, outages: map<nat, string>)
      requires Table.UniqueKeys(rows, UserKey)
      ensures Valid() && this.rows == rows && log == [] && this.outages == outages
    {
      this.rows := rows;
      this.outages := outages;
      log := [];
    }

    /**
     * CreateUser: keeps a non-nil id and gives a nil one a fresh id, stamps the
     * creation time, then inserts; an id already in use is a key violation.
     */
    method CreateUser(user: User, now: Time) returns (stored: User, err: Option<Error>)
      requires Valid()
      modifies this
      ensures Valid()
      ensures log == old(log) + [RepoCreateUser(user)]
      ensures stored.id == (if user.id == NilUuid then Table.FreshKey(old(rows), UserKey) else user.id)
      ensures stored == user.(id := stored.id, createdAt := now)
      ensures stored.id != NilUuid
      ensures old(Down()) ==> err == Some(Fault(outages[|old(log)|])) && rows == old(rows)
      ensures !old(Down()) && Table.Has(old(rows), UserKey, stored.id) ==>
                err == Some(Fault(DuplicateKeyText)) && rows == old(rows)
      ensures !old(Down()) && !Table.Has(old(rows), UserKey, stored.id) ==>
                err == None && rows == old(rows) + [stored]
    {
      var id := if user.id == NilUuid then Table.FreshKey(rows, UserKey) else user.id;
      stored := user.(id := id, createdAt := now);
      if Down() {
        err := Some(Fault(outages[|log|]));
      } else if Table.Find(rows, UserKey, id).Some? {
        err := Some(Fault(DuplicateKeyText));
      } else {
        err := None;
        Table.AppendFreshKeepsUnique(rows, UserKey, stored);
        rows := rows + [stored];
      }
      log := log + [RepoCreateUser(user)];
    }

    /** GetUserByUsername: a case-insensitive match, gorm.ErrRecordNotFound, or a storage error. */
    method GetUserByUsername(name: string) returns (u: User, err: Option<Error>)
      modifies this
      ensures rows == old(rows) && log == old(log) + [RepoGetUserByUsername(name)]
      ensures old(Probe(name)).Outage? ==> err == Some(Fault(old(Probe(name)).text))
      ensures old(Probe(name)).Missing? ==> err == Some(RecordNotFound)
      ensures old(Probe(name)).Found? ==> err == None && u == old(Probe(name)).record
    {
      var probe := Probe(name);
      match probe {
        case Outage(text) => u, err := ZeroUser, Some(Fault(text));
        case Missing => u, err := ZeroUser, Some(RecordNotFound);
        case Found(r) => u, err := r, None;
      }
      log := log + [RepoGetUserByUsername(name)];
    }
  }
}
