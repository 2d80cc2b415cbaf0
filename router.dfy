/**
 * httpserver/router.go: the route table registered by Start, and the
 * verifyToken middleware that guards every author and book route.
 */
module Router {
  import opened Wrappers
  import opened Models
  import opened Views
  import Params
  import opened Gin
  import opened Bearer
  import Repository
  import Controller
  import BookController

  datatype Verb = GET | POST | PUT | DELETE

  datatype Handler =
    | Register | Login
    | CreateAuthor | GetAuthors | GetAuthorById | UpdateAuthor | DeleteAuthor
    | CreateBook | GetBooks | GetBookById | UpdateBook | DeleteBook

  /** One registration: `guarded` means verifyToken runs before the handler. */
  datatype Route = Route(verb: Verb, path: string, guarded: bool, handler: Handler)

  /** The registrations of Start, in order and as written. */
  const Routes: seq<Route> := [
    Route(POST, "/auth/register", false, Register),
    Route(POST, "/auth/login", false, Login),
    Route(POST, "/authors", true, CreateAuthor),
    Route(GET, "/authors", true, GetAuthors),
    Route(GET, "/authors/:id", true, GetAuthorById),
    Route(PUT, "/authors/:id", true, UpdateAuthor),
    Route(DELETE, "/authors/:id", true, DeleteAuthor),
    Route(POST, "/books", true, CreateBook),
    Route(GET, "/books", true, GetBooks),
    Route(GET, "/books/:id", true, GetBookById),
    Route(PUT, "/books/:id", true, UpdateBook),
    Route(DELETE, "books/:id", true, DeleteBook)
  ]

  predicate IsAuthPath(p: string)
  {
    |p| >= 6 && p[..6] == "/auth/"
  }

  predicate IsUserHandler(h: Handler)
  {
    h == Register || h == Login
  }

  /** gin joins a relative path onto the root group "/". */
  function AbsolutePath(p: string): (a: string)
    ensures |a| > 0 && a[0] == '/'
    ensures |p| > 0 && p[0] == '/' ==> a == p
  {
    if |p| > 0 && p[0] == '/' then p else "/" + p
  }

  /** Exactly the routes outside /auth/ are guarded, and those are the non-user handlers. */
  lemma RoutesGuarded()
    ensures forall i | 0 <= i < |Routes| :: Routes[i].guarded <==> !IsAuthPath(Routes[i].path)
    ensures forall i | 0 <= i < |Routes| :: Routes[i].guarded <==> !IsUserHandler(Routes[i].handler)
  {
    forall i | 0 <= i < |Routes| ensures Routes[i].guarded <==> !IsAuthPath(Routes[i].path) {
      var p := Routes[i].path;
      if i < 2 {
        assert p[..6] == "/auth/";
      } else {
        assert p[0] != '/' || p[5] != '/';
        assert |p| >= 6 ==> p[..6][0] == p[0] && p[..6][5] == p[5];
      }
    }
  }

  /** Every handler is registered once, and no verb and absolute path is registered twice. */
  lemma RoutesDistinct()
    ensures forall i, j | 0 <= i < j < |Routes| :: Routes[i].handler != Routes[j].handler
    ensures forall i, j | 0 <= i < j < |Routes| ::
              Routes[i].verb != Routes[j].verb || AbsolutePath(Routes[i].path) != AbsolutePath(Routes[j].path)
  {
  }

  const InvalidBearer := "invalid bearer token"

  class Router {
    const author: Controller.AuthorController
    const book: BookController.BookController
    /** common.ValidateToken: the claims, or the error text. */
    const validate: string -> Result<Claims, string>
    /** `ctx.ShouldBindJSON` for each request type. */
    const bindCreateAuthor: string -> Bind<Params.CreateAuthors>
    const bindUpdateAuthor: string -> Bind<Params.UpdateAuthors>
    const bindCreateBook: string -> Bind<Params.CreateBook>
    const bindUpdateBook: string -> Bind<Params.UpdateBook>

    constructor (author: Controller.AuthorController, book: BookController.BookController,
                 validate: string -> Result<Claims, string>,
                 bindCreateAuthor: string -> Bind<Params.CreateAuthors>, bindUpdateAuthor: string -> Bind<Params.UpdateAuthors>,
                 bindCreateBook: string -> Bind<Params.CreateBook>, bindUpdateBook: string -> Bind<Params.UpdateBook>)
      ensures this.author == author && this.book == book && this.validate == validate
      ensures this.bindCreateAuthor == bindCreateAuthor && this.bindUpdateAuthor == bindUpdateAuthor
      ensures this.bindCreateBook == bindCreateBook && this.bindUpdateBook == bindUpdateBook
    {
      this.author := author;
      this.book := book;
      this.validate := validate;
      this.bindCreateAuthor := bindCreateAuthor;
      this.bindUpdateAuthor := bindUpdateAuthor;
      this.bindCreateBook := bindCreateBook;
      this.bindUpdateBook := bindUpdateBook;
    }

    /**
     * verifyToken: a header that does not split into exactly two pieces, or
     * a token that fails validation, aborts with 401; otherwise the claims
     * become the request's userData.
     */
    method VerifyToken(ctx: Context)
      modifies ctx
      ensures BearerToken(ctx.header).None? ==>
                && ctx.aborted && ctx.written == Some(Written(StatusUnauthorized, ErrorJson(InvalidBearer)))
                && ctx.userData == old(ctx.userData)
      ensures BearerToken(ctx.header).Some? && validate(BearerToken(ctx.header).value).Err? ==>
                && ctx.aborted
                && ctx.written == Some(Written(StatusUnauthorized, ErrorJson(validate(BearerToken(ctx.header).value).error)))
                && ctx.userData == old(ctx.userData)
      ensures BearerToken(ctx.header).Some? && validate(BearerToken(ctx.header).value).Ok? ==>
                && ctx.userData == Some(validate(BearerToken(ctx.header).value).value)
                && ctx.aborted == old(ctx.aborted) && ctx.written == old(ctx.written)
    {
      var bearerToken := Split(ctx.header);
      if |bearerToken| != 2 {
        ctx.AbortWithError(StatusUnauthorized, InvalidBearer);
        return;
      }
      var claims := validate(bearerToken[1]);
      if claims.Err? {
        ctx.AbortWithError(StatusUnauthorized, claims.error);
        return;
      }
      ctx.SetUserData(claims.value);
    }

    /**
     * One request on one of the author or book routes: verifyToken, then,
     * unless it aborted, the route's handler. A request without a valid
     * token changes no store; with one, only the route's own store can
     * change, and an update or delete only by the row's owner.
     */
    method Serve(i: nat, ctx: Context, body: string, now: Time)
      requires i < |Routes| && !IsUserHandler(Routes[i].handler)
      requires !ctx.aborted && ctx.userData.None? && ctx.written.None?
      requires author.svc.repo.Valid() && book.svc.repo.Valid()
      modifies ctx, author.svc.repo, book.svc.repo
      ensures author.svc.repo.Valid() && book.svc.repo.Valid()
      ensures ctx.written.Some?
      ensures (BearerToken(ctx.header).None? || validate(BearerToken(ctx.header).value).Err?) ==>
                && ctx.userData.None? && ctx.written.value.status == StatusUnauthorized
                && author.svc.repo.rows == old(author.svc.repo.rows) && author.svc.repo.log == old(author.svc.repo.log)
                && book.svc.repo.rows == old(book.svc.repo.rows) && book.svc.repo.log == old(book.svc.repo.log)
      ensures BearerToken(ctx.header).Some? && validate(BearerToken(ctx.header).value).Ok? ==>
                ctx.userData == Some(validate(BearerToken(ctx.header).value).value)
      ensures author.svc.repo.rows != old(author.svc.repo.rows) ==>
                && ctx.userData.Some?
                && Routes[i].handler in {CreateAuthor, UpdateAuthor, DeleteAuthor}
                && (Routes[i].handler != CreateAuthor ==>
                      && author.parseUuid(ctx.idParam).Some?
                      && var p := old(author.svc.repo.Probe(author.parseUuid(ctx.idParam).value));
                         p.Found? && p.record.userId == ctx.userData.value.id)
      ensures book.svc.repo.rows != old(book.svc.repo.rows) ==>
                && ctx.userData.Some?
                && Routes[i].handler in {CreateBook, UpdateBook, DeleteBook}
                && (Routes[i].handler != CreateBook ==>
                      && book.parseUuid(ctx.idParam).Some?
                      && var p := old(book.svc.repo.Probe(book.parseUuid(ctx.idParam).value));
                         p.Found? && p.record.userId == ctx.userData.value.id)
      ensures Repository.AuthorWritesSince(author.svc.repo.log, |old(author.svc.repo.log)|) ==>
                && ctx.userData.Some?
                && Routes[i].handler in {UpdateAuthor, DeleteAuthor}
                && author.parseUuid(ctx.idParam).Some?
                && var p := old(author.svc.repo.Probe(author.parseUuid(ctx.idParam).value));
                   p.Found? && p.record.userId == ctx.userData.value.id
      ensures Repository.BookWritesSince(book.svc.repo.log, |old(book.svc.repo.log)|) ==>
                && ctx.userData.Some?
                && Routes[i].handler in {UpdateBook, DeleteBook}
                && book.parseUuid(ctx.idParam).Some?
                && var p := old(book.svc.repo.Probe(book.parseUuid(ctx.idParam).value));
                   p.Found? && p.record.userId == ctx.userData.value.id
    {
      RoutesGuarded();
      VerifyToken(ctx);
      if ctx.aborted {
        return;
      }
      match Routes[i].handler {
        case CreateAuthor => author.CreateAuthor(ctx, bindCreateAuthor(body), now);
        case GetAuthors => author.GetAuthors(ctx);
        case GetAuthorById => author.GetAuthorById(ctx);
        case UpdateAuthor => author.UpdateAuthor(ctx, bindUpdateAuthor(body), now);
        case DeleteAuthor => author.DeleteAuthor(ctx);
        case CreateBook => book.CreateBook(ctx, bindCreateBook(body), now);
        case GetBooks => book.GetBooks(ctx);
        case GetBookById => book.GetBookById(ctx);
        case UpdateBook => book.UpdateBook(ctx, bindUpdateBook(body), now);
        case DeleteBook => book.DeleteBook(ctx);
      }
    }
  }
}
