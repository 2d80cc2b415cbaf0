/**
 * httpserver/controller/book/book.go: the book handlers, the same guard
 * pipelines as the author handlers over the book service.
 */
module BookController {
  import opened Wrappers
  import opened Models
  import opened Views
  import opened Params
  import opened Gin
  import opened Repository
  import opened BookService
  import Controller
  import Table

  const InvalidBookId := "Invalid book ID format"
  /** The abort for a 200 lookup without a book view; that branch is unreachable. */
  const UnprocessableBook := "Unable to process book details"
  const NotBookOwner := "You do not have permission to update this book"

  class BookController {
    const svc: BookSvc
    /** uuid.Parse */
    const parseUuid: string -> Option<Uuid>
    /** `validator.New().Struct(&req)`: the validation error text, if any. */
    const validate: CreateBook -> Option<string>

    constructor (svc: BookSvc, parseUuid: string -> Option<Uuid>, validate: CreateBook -> Option<string>)
      ensures this.svc == svc && this.parseUuid == parseUuid && this.validate == validate
    {
      this.svc := svc;
      this.parseUuid := parseUuid;
      this.validate := validate;
    }

    /**
     * CreateBook: body, then claims, then validation; the new row always
     * belongs to the caller named by the token claims.
     */
    method CreateBook(ctx: Context, body: Bind<CreateBook>, now: Time)
      requires svc.repo.Valid()
      modifies ctx, svc.repo
      ensures !BookWritesSince(svc.repo.log, |old(svc.repo.log)|)
      ensures svc.repo.Valid() && ctx.userData == old(ctx.userData)
      ensures body.Malformed? ==> ctx.written == Some(Written(StatusBadRequest, ErrorJson(body.text)))
      ensures body.Bound? && ctx.userData.None? ==>
                ctx.written == Some(Written(StatusUnauthorized, ErrorJson(Controller.NoTokenCreate)))
      ensures body.Bound? && ctx.userData.Some? && validate(body.value).Some? ==>
                ctx.written == Some(Written(StatusBadRequest, ErrorJson(validate(body.value).value)))
      ensures !(body.Bound? && ctx.userData.Some? && validate(body.value).None?) ==>
                svc.repo.rows == old(svc.repo.rows) && svc.repo.log == old(svc.repo.log)
      ensures body.Bound? && ctx.userData.Some? && validate(body.value).None? ==>
                var n := |old(svc.repo.rows)|;
                && svc.repo.log == old(svc.repo.log) + [RepoCreateBook(Book(NilUuid, ctx.userData.value.id,
                     body.value.authorId, body.value.title, body.value.isbn, ZeroTime, ZeroTime))]
                && (old(svc.repo.Down()) ==>
                      && svc.repo.rows == old(svc.repo.rows)
                      && ctx.written == Forward(InternalError(svc.repo.outages[|old(svc.repo.log)|])))
                && (!old(svc.repo.Down()) ==>
                      && |svc.repo.rows| == n + 1 && svc.repo.rows[..n] == old(svc.repo.rows)
                      && svc.repo.rows[n].userId == ctx.userData.value.id
                      && svc.repo.rows[n].authorId == body.value.authorId
                      && svc.repo.rows[n].title == body.value.title && svc.repo.rows[n].isbn == body.value.isbn
                      && ctx.written == Forward(SuccessResponse(StatusCreated, MsgCreated,
                                                                BookPayload(BookViewOf(svc.repo.rows[n])))))
    {
      if body.Malformed? {
        ctx.AbortWithError(StatusBadRequest, body.text);
        return;
      }
      var req := body.value;
      if ctx.userData.None? {
        ctx.AbortWithError(StatusUnauthorized, Controller.NoTokenCreate);
        return;
      }
      var userId := ctx.userData.value.id;
      var err := validate(req);
      if err.Some? {
        ctx.AbortWithError(StatusBadRequest, err.value);
        return;
      }
      var response := svc.CreateBook(req, userId, now);
      WriteJsonResponse(ctx, response);
    }

    /** GetBooks: forwards the service's envelope. */
    method GetBooks(ctx: Context)
      modifies ctx, svc.repo
      ensures !BookWritesSince(svc.repo.log, |old(svc.repo.log)|)
      ensures ctx.userData == old(ctx.userData)
      ensures svc.repo.rows == old(svc.repo.rows) && svc.repo.log == old(svc.repo.log) + [RepoGetBooks]
      ensures old(svc.repo.Down()) ==> ctx.written == Forward(InternalError(svc.repo.outages[|old(svc.repo.log)|]))
      ensures !old(svc.repo.Down()) ==>
                && ctx.written.Some? && ctx.written.value.status == StatusOK
                && ctx.written.value.body.Envelope?
                && var r := ctx.written.value.body.response;
                   && r.payload.BookListPayload? && |r.payload.books| == |svc.repo.rows|
                   && forall i | 0 <= i < |svc.repo.rows| :: r.payload.books[i] == BookViewOf(svc.repo.rows[i])
    {
      var reponse := svc.GetBooks();
      WriteJsonResponse(ctx, reponse);
    }

    /** GetBookById: a malformed id is 400; otherwise the lookup's envelope, whatever its status. */
    method GetBookById(ctx: Context)
      modifies ctx, svc.repo
      ensures !BookWritesSince(svc.repo.log, |old(svc.repo.log)|)
      ensures ctx.userData == old(ctx.userData) && svc.repo.rows == old(svc.repo.rows)
      ensures parseUuid(ctx.idParam).None? ==>
                && ctx.written == Some(Written(StatusBadRequest, ErrorJson(InvalidBookId)))
                && svc.repo.log == old(svc.repo.log)
      ensures parseUuid(ctx.idParam).Some? ==>
                var id := parseUuid(ctx.idParam).value;
                && ctx.written == Forward(ByIdResponse(old(svc.repo.Probe(id))))
                && svc.repo.log == old(svc.repo.log) + [RepoGetBookById(id)]
    {
      var bookId := parseUuid(ctx.idParam);
      if bookId.None? {
        ctx.AbortWithError(StatusBadRequest, InvalidBookId);
        return;
      }
      var bookResponse := svc.GetBookById(bookId.value);
      if bookResponse.status != StatusOK {
        WriteJsonResponse(ctx, bookResponse);
        return;
      }
      WriteJsonResponse(ctx, bookResponse);
    }

    /**
     * UpdateBook: id, body, lookup, claims, ownership, then the service
     * update (which looks the row up again). Only the row's owner changes the
     * table, and then the row keeps its id and owner.
     */
    method UpdateBook(ctx: Context, body: Bind<UpdateBook>, now: Time)
      requires svc.repo.Valid()
      modifies ctx, svc.repo
      ensures BookWritesSince(svc.repo.log, |old(svc.repo.log)|) ==>
                && parseUuid(ctx.idParam).Some? && ctx.userData.Some?
                && var p := old(svc.repo.Probe(parseUuid(ctx.idParam).value));
                   p.Found? && p.record.userId == ctx.userData.value.id
      ensures svc.repo.Valid() && ctx.userData == old(ctx.userData)
      ensures svc.repo.rows != old(svc.repo.rows) ==>
                && parseUuid(ctx.idParam).Some? && ctx.userData.Some?
                && var p := old(svc.repo.Probe(parseUuid(ctx.idParam).value));
                   p.Found? && p.record.userId == ctx.userData.value.id
      ensures parseUuid(ctx.idParam).None? ==>
                && ctx.written == Some(Written(StatusBadRequest, ErrorJson(InvalidBookId)))
                && svc.repo.rows == old(svc.repo.rows) && svc.repo.log == old(svc.repo.log)
      ensures parseUuid(ctx.idParam).Some? && body.Malformed? ==>
                && ctx.written == Some(Written(StatusBadRequest, ErrorJson(body.text)))
                && svc.repo.rows == old(svc.repo.rows) && svc.repo.log == old(svc.repo.log)
      ensures parseUuid(ctx.idParam).Some? && body.Bound? ==>
                var id := parseUuid(ctx.idParam).value;
                var p := old(svc.repo.Probe(id));
                && (!p.Found? ==> ctx.written == Forward(ByIdResponse(p)))
                && (p.Found? && ctx.userData.None? ==>
                      ctx.written == Some(Written(StatusUnauthorized, ErrorJson(Controller.NoToken))))
                && (p.Found? && ctx.userData.Some? && ctx.userData.value.id != p.record.userId ==>
                      ctx.written == Some(Written(StatusForbidden, ErrorJson(NotBookOwner))))
                && (!(p.Found? && ctx.userData.Some? && ctx.userData.value.id == p.record.userId) ==>
                      svc.repo.rows == old(svc.repo.rows) && svc.repo.log == old(svc.repo.log) + [RepoGetBookById(id)])
      ensures parseUuid(ctx.idParam).Some? && body.Bound? ==>
                var id := parseUuid(ctx.idParam).value;
                var p := old(svc.repo.Probe(id));
                var k := |old(svc.repo.log)|;
                var outages := svc.repo.outages;
                p.Found? && ctx.userData.Some? && ctx.userData.value.id == p.record.userId ==>
                  && (k + 1 in outages ==>
                        && ctx.written == Forward(InternalError(outages[k + 1])) && svc.repo.rows == old(svc.repo.rows)
                        && svc.repo.log == old(svc.repo.log) + [RepoGetBookById(id), RepoGetBookById(id)])
                  && (k + 1 !in outages ==>
                        svc.repo.log == old(svc.repo.log) + [RepoGetBookById(id), RepoGetBookById(id),
                          RepoUpdateBook(p.record.(authorId := body.value.authorId, title := body.value.title,
                                                   isbn := body.value.isbn), id)])
                  && (k + 1 !in outages && k + 2 in outages ==>
                        ctx.written == Forward(InternalError(outages[k + 2])) && svc.repo.rows == old(svc.repo.rows))
                  && (k + 1 !in outages && k + 2 !in outages ==>
                        && svc.repo.rows == Table.UpdateWhere(old(svc.repo.rows), BookKey, id, BookUpdates(
                             p.record.(authorId := body.value.authorId, title := body.value.title,
                                       isbn := body.value.isbn, updatedAt := now)))
                        && ctx.written == Forward(SuccessResponse(StatusOK, MsgOK, UpdatedBookPayload(
                             UpdateBookView(id, p.record.userId, body.value.authorId, body.value.title,
                                            body.value.isbn, now)))))
    {
      var bookId := parseUuid(ctx.idParam);
      if bookId.None? {
        ctx.AbortWithError(StatusBadRequest, InvalidBookId);
        return;
      }
      if body.Malformed? {
        ctx.AbortWithError(StatusBadRequest, body.text);
        return;
      }
      var req := body.value;
      var bookResponse := svc.GetBookById(bookId.value);
      if bookResponse.status != StatusOK {
        WriteJsonResponse(ctx, bookResponse);
        return;
      }
      if !bookResponse.payload.BookPayload? {
        // The 500 UnprocessableBook abort: a 200 from GetBookById always carries a book.
        assert false;
      }
      var bookDetails := bookResponse.payload.book;
      if ctx.userData.None? {
        ctx.AbortWithError(StatusUnauthorized, Controller.NoToken);
        return;
      }
      if ctx.userData.value.id != bookDetails.userId {
        ctx.AbortWithError(StatusForbidden, NotBookOwner);
        return;
      }
      var response := svc.UpdateBook(req, bookId.value, now);
      WriteJsonResponse(ctx, response);
    }

    /**
     * DeleteBook: id, lookup, claims, ownership, then the service delete.
     * Only the owner removes rows; the 403 text still speaks of an author.
     */
    method DeleteBook(ctx: Context)
      requires svc.repo.Valid()
      modifies ctx, svc.repo
      ensures BookWritesSince(svc.repo.log, |old(svc.repo.log)|) ==>
                && parseUuid(ctx.idParam).Some? && ctx.userData.Some?
                && var p := old(svc.repo.Probe(parseUuid(ctx.idParam).value));
                   p.Found? && p.record.userId == ctx.userData.value.id
      ensures svc.repo.Valid() && ctx.userData == old(ctx.userData)
      ensures svc.repo.rows != old(svc.repo.rows) ==>
                && parseUuid(ctx.idParam).Some? && ctx.userData.Some?
                && var p := old(svc.repo.Probe(parseUuid(ctx.idParam).value));
                   p.Found? && p.record.userId == ctx.userData.value.id
      ensures parseUuid(ctx.idParam).None? ==>
                && ctx.written == Some(Written(StatusBadRequest, ErrorJson(InvalidBookId)))
                && svc.repo.rows == old(svc.repo.rows) && svc.repo.log == old(svc.repo.log)
      ensures parseUuid(ctx.idParam).Some? ==>
                var id := parseUuid(ctx.idParam).value;
                var p := old(svc.repo.Probe(id));
                && (!p.Found? ==> ctx.written == Forward(ByIdResponse(p)))
                && (p.Found? && ctx.userData.None? ==>
                      ctx.written == Some(Written(StatusUnauthorized, ErrorJson(Controller.NoToken))))
                && (p.Found? && ctx.userData.Some? && ctx.userData.value.id != p.record.userId ==>
                      ctx.written == Some(Written(StatusForbidden, ErrorJson(Controller.NotAuthorOwner))))
                && (!(p.Found? && ctx.userData.Some? && ctx.userData.value.id == p.record.userId) ==>
                      svc.repo.rows == old(svc.repo.rows) && svc.repo.log == old(svc.repo.log) + [RepoGetBookById(id)])
      ensures parseUuid(ctx.idParam).Some? ==>
                var id := parseUuid(ctx.idParam).value;
                var p := old(svc.repo.Probe(id));
                var k := |old(svc.repo.log)|;
                var outages := svc.repo.outages;
                p.Found? && ctx.userData.Some? && ctx.userData.value.id == p.record.userId ==>
                  && (k + 1 in outages ==>
                        && ctx.written == Forward(InternalError(outages[k + 1])) && svc.repo.rows == old(svc.repo.rows)
                        && svc.repo.log == old(svc.repo.log) + [RepoGetBookById(id), RepoGetBookById(id)])
                  && (k + 1 !in outages ==>
                        svc.repo.log == old(svc.repo.log) + [RepoGetBookById(id), RepoGetBookById(id),
                          RepoDeleteBook(id)])
                  && (k + 1 !in outages && k + 2 in outages ==>
                        ctx.written == Forward(InternalError(outages[k + 2])) && svc.repo.rows == old(svc.repo.rows))
                  && (k + 1 !in outages && k + 2 !in outages ==>
                        && svc.repo.rows == Table.RemoveWhere(old(svc.repo.rows), BookKey, id)
                        && ctx.written == Forward(SuccessResponse(StatusNoContent, MsgAuthorSuccessfullyDeleted,
                             BookPayload(BookView(NilUuid, p.record.userId, NilUuid, "", "", ZeroTime, ZeroTime)))))
    {
      var bookId := parseUuid(ctx.idParam);
      if bookId.None? {
        ctx.AbortWithError(StatusBadRequest, InvalidBookId);
        return;
      }
      var bookResponse := svc.GetBookById(bookId.value);
      if bookResponse.status != StatusOK {
        WriteJsonResponse(ctx, bookResponse);
        return;
      }
      if !bookResponse.payload.BookPayload? {
        // The 500 UnprocessableBook abort: a 200 from GetBookById always carries a book.
        assert false;
      }
      var bookDetails := bookResponse.payload.book;
      if ctx.userData.None? {
        ctx.AbortWithError(StatusUnauthorized, Controller.NoToken);
        return;
      }
      if ctx.userData.value.id != bookDetails.userId {
        ctx.AbortWithError(StatusForbidden, Controller.NotAuthorOwner);
        return;
      }
      var reponse := svc.DeleteBook(bookId.value);
      WriteJsonResponse(ctx, reponse);
    }
  }
}
