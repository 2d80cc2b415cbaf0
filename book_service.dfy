/**
 * httpserver/service/book: the same pipeline as the author service, over the
 * book repository.
 */
module BookService {
  import opened Wrappers
  import opened Models
  import opened Views
  import opened Params
  import opened Repository
  import Table

  /** The envelope GetBookById returns; "not found" reuses the author message. */
  function ByIdResponse(p: Lookup<Book>): (r: Response)
    ensures r.status == StatusOK <==> p.Found?
    ensures p.Found? ==> r.message == MsgOK && r.payload == BookPayload(BookViewOf(p.record))
    ensures p.Missing? ==> r.status == StatusBadRequest && r.message == MsgAuthorNotFound &&
                           r.error == Some(ErrorText(RecordNotFound))
    ensures p.Outage? ==> r.status == StatusInternalServerError && r.message == MsgInternalServerError &&
                          r.error == Some(p.text)
    ensures WellFormed(r)
  {
    match p
    case Outage(text) => InternalError(text)
    case Missing => ErrorResponse(StatusBadRequest, MsgAuthorNotFound, Some(RecordNotFound))
    case Found(b) => SuccessResponse(StatusOK, MsgOK, BookPayload(BookViewOf(b)))
  }

  /** The loop of GetBooks: one view per row, in the same order. */
  method BookViews(rows: seq<Book>) returns (views: seq<BookView>)
    ensures |views| == |rows|
    ensures forall i | 0 <= i < |rows| :: views[i] == BookViewOf(rows[i])
  {
    views := [];
    for i := 0 to |rows|
      invariant |views| == i
      invariant forall j | 0 <= j < i :: views[j] == BookViewOf(rows[j])
    {
      views := views + [BookViewOf(rows[i])];
    }
  }

  class BookSvc {
    const repo: BookRepo

    constructor (repo: BookRepo)
      ensures this.repo == repo
    {
      this.repo := repo;
    }

    /** CreateBook: the new row's owner is the caller id `id`; the author id is taken as given. */
    method CreateBook(book: CreateBook, id: Uuid, now: Time) returns (r: Response)
      requires repo.Valid()
      modifies repo
      ensures repo.Valid()
      ensures repo.log == old(repo.log) +
                [RepoCreateBook(Book(NilUuid, id, book.authorId, book.title, book.isbn, ZeroTime, ZeroTime))]
      ensures old(repo.Down()) ==>
                r == InternalError(repo.outages[|old(repo.log)|]) && repo.rows == old(repo.rows)
      ensures !old(repo.Down()) ==>
                && |repo.rows| == |old(repo.rows)| + 1
                && repo.rows[..|old(repo.rows)|] == old(repo.rows)
                && var b := repo.rows[|old(repo.rows)|];
                && b.userId == id && b.authorId == book.authorId && b.title == book.title
                && b.isbn == book.isbn && b.createdAt == now
                && b.id != NilUuid && !Table.Has(old(repo.rows), BookKey, b.id)
                && r == SuccessResponse(StatusCreated, MsgCreated, BookPayload(BookViewOf(b)))
      ensures WellFormed(r)
    {
      var param := Book(NilUuid, id, book.authorId, book.title, book.isbn, ZeroTime, ZeroTime);
      var err;
      param, err := repo.CreateBook(param, now);
      if err.Some? {
        return ErrorResponse(StatusInternalServerError, MsgInternalServerError, err);
      }
      assert repo.rows[|old(repo.rows)|] == param;
      r := SuccessResponse(StatusCreated, MsgCreated, BookPayload(BookViewOf(param)));
    }

    /**
     * DeleteBook: loads first; the success payload carries only the deleted
     * row's owner, under the author-deleted message.
     */
    method DeleteBook(id: Uuid) returns (r: Response)
      requires repo.Valid()
      modifies repo
      ensures repo.Valid()
      ensures var p := old(repo.Probe(id));
              && (p.Outage? ==> r == InternalError(p.text))
              && (p.Missing? ==> r == ErrorResponse(StatusBadRequest, MsgBadRequest, Some(RecordNotFound)))
              && (!p.Found? ==> repo.rows == old(repo.rows) && repo.log == old(repo.log) + [RepoGetBookById(id)])
      ensures var p := old(repo.Probe(id)); var k := |old(repo.log)|;
              p.Found? ==>
                && repo.log == old(repo.log) + [RepoGetBookById(id), RepoDeleteBook(id)]
                && (k + 1 in repo.outages ==>
                      r == InternalError(repo.outages[k + 1]) && repo.rows == old(repo.rows))
                && (k + 1 !in repo.outages ==>
                      && repo.rows == Table.RemoveWhere(old(repo.rows), BookKey, id)
                      && r == SuccessResponse(StatusNoContent, MsgAuthorSuccessfullyDeleted,
                               BookPayload(BookView(NilUuid, p.record.userId, NilUuid, "", "", ZeroTime, ZeroTime))))
      ensures WellFormed(r)
    {
      var book, err := repo.GetBookById(id);
      if err.Some? {
        if err == Some(RecordNotFound) {
          return ErrorResponse(StatusBadRequest, MsgBadRequest, err);
        }
        return ErrorResponse(StatusInternalServerError, MsgInternalServerError, err);
      }
      err := repo.DeleteBook(id);
      if err.Some? {
        return ErrorResponse(StatusInternalServerError, MsgInternalServerError, err);
      }
      r := SuccessResponse(StatusNoContent, MsgAuthorSuccessfullyDeleted,
                           BookPayload(BookView(NilUuid, book.userId, NilUuid, "", "", ZeroTime, ZeroTime)));
    }

    /** GetBookById: not found is 400 AUTHOR_NOT_FOUND, any other error 500, found 200. */
    method GetBookById(id: Uuid) returns (r: Response)
      modifies repo
      ensures repo.rows == old(repo.rows) && repo.log == old(repo.log) + [RepoGetBookById(id)]
      ensures r == ByIdResponse(old(repo.Probe(id)))
    {
      var book, err := repo.GetBookById(id);
      if err.Some? {
        if err == Some(RecordNotFound) {
          return ErrorResponse(StatusBadRequest, MsgAuthorNotFound, err);
        }
        return ErrorResponse(StatusInternalServerError, MsgInternalServerError, err);
      }
      r := SuccessResponse(StatusOK, MsgOK, BookPayload(BookViewOf(book)));
    }

    /** GetBooks: 200 with one view per row in storage order (possibly none), or 500. */
    method GetBooks() returns (r: Response)
      modifies repo
      ensures repo.rows == old(repo.rows) && repo.log == old(repo.log) + [RepoGetBooks]
      ensures old(repo.Down()) ==> r == InternalError(repo.outages[|old(repo.log)|])
      ensures !old(repo.Down()) ==>
                && r.status == StatusOK && r.message == MsgOK && r.error == None
                && r.payload.BookListPayload?
                && |r.payload.books| == |repo.rows|
                && forall i | 0 <= i < |repo.rows| :: r.payload.books[i] == BookViewOf(repo.rows[i])
      ensures WellFormed(r)
    {
      var list, err := repo.GetBooks();
      if err.Some? {
        return ErrorResponse(StatusInternalServerError, MsgInternalServerError, err);
      }
      var books := BookViews(list);
      r := SuccessResponse(StatusOK, MsgOK, BookListPayload(books));
    }

    /**
     * UpdateBook: overwrites AuthorId, Title and Isbn of the loaded row and
     * writes it back; Id and UserId are the loaded ones, so no row changes
     * owner. The view shows the update time the repository stamped.
     */
    method UpdateBook(book: UpdateBook, id: Uuid, now: Time) returns (r: Response)
      requires repo.Valid()
      modifies repo
      ensures repo.Valid()
      ensures |repo.rows| == |old(repo.rows)|
      ensures forall i | 0 <= i < |repo.rows| ::
                repo.rows[i].id == old(repo.rows)[i].id && repo.rows[i].userId == old(repo.rows)[i].userId
      ensures var p := old(repo.Probe(id));
              && (p.Outage? ==> r == InternalError(p.text))
              && (p.Missing? ==> r == ErrorResponse(StatusBadRequest, MsgBadRequest, Some(RecordNotFound)))
              && (!p.Found? ==> repo.rows == old(repo.rows) && repo.log == old(repo.log) + [RepoGetBookById(id)])
      ensures var p := old(repo.Probe(id)); var k := |old(repo.log)|;
              p.Found? ==>
                var w := p.record.(authorId := book.authorId, title := book.title, isbn := book.isbn);
                && repo.log == old(repo.log) + [RepoGetBookById(id), RepoUpdateBook(w, id)]
                && (k + 1 in repo.outages ==>
                      r == InternalError(repo.outages[k + 1]) && repo.rows == old(repo.rows))
                && (k + 1 !in repo.outages ==>
                      && repo.rows == Table.UpdateWhere(old(repo.rows), BookKey, id, BookUpdates(w.(updatedAt := now)))
                      && r == SuccessResponse(StatusOK, MsgOK, UpdatedBookPayload(
                                UpdateBookView(p.record.id, p.record.userId, book.authorId, book.title, book.isbn, now))))
      ensures WellFormed(r)
    {
      ghost var before := repo.rows;
      var b, err := repo.GetBookById(id);
      if err.Some? {
        if err == Some(RecordNotFound) {
          return ErrorResponse(StatusBadRequest, MsgBadRequest, err);
        }
        return ErrorResponse(StatusInternalServerError, MsgInternalServerError, err);
      }
      b := b.(authorId := book.authorId, title := book.title, isbn := book.isbn);
      b, err := repo.UpdateBook(b, id, now);
      if err.Some? {
        return ErrorResponse(StatusInternalServerError, MsgInternalServerError, err);
      }
      BookUpdateKeepsOwners(before, id, b);
      r := SuccessResponse(StatusOK, MsgOK, UpdatedBookPayload(
             UpdateBookView(b.id, b.userId, b.authorId, b.title, b.isbn, b.updatedAt)));
    }
  }
}
