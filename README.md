# bayarind-book: authorisation and ownership pipeline

A Dafny model of the request path of the bayarind-book HTTP server, a Go/gin service for authors, books and users backed by gorm. It covers five layers:

- **Response envelope** (`Views`). A status and a message, plus either a payload or an error text.
- **Repositories** (`Repository`, `Table`). Each gorm-backed repository is an abstract table: a sequence of rows, a log of the calls made to it, and a fixed outage schedule that lets any call fail with a storage error.
- **Services** (`AuthorService`, `BookService`, `UserService`). Each operation issues repository calls in sequence, returns early on an error and classifies the outcome:
  - record-not-found becomes 400;
  - any other storage error becomes 500;
  - success becomes 200, 201 or 204.
- **Controllers** (`Controller`, `BookController`). Guard pipelines on a gin context: parse the id, bind the body, load, forward a non-200 lookup, require the token's claims, compare the owner, and only then call the mutating service.
- **Router** (`Bearer`, `Router`). The route table and the `verifyToken` middleware, which splits the `Authorization` header on `"Bearer "` and accepts exactly two pieces.

The services, controllers and middleware are classes with `modifies` clauses, because the Go code updates the store, the request context and records passed by reference. The response builders, the header split and the envelope classifications are functions. Properties relating several calls are lemmas.

These collaborators are parameters the model does not open: function-valued fields, or a `now` argument.
- bcrypt;
- JWT signing and validation;
- `uuid.Parse`;
- the validator;
- `ShouldBindJSON`;
- the clock.

`uuid.New()` is `Table.FreshKey`: never `uuid.Nil` and never a key already in the table.

Where the code and its documentation or tests disagree, the model follows the code:
- `Register` echoes the stored bcrypt hash in its payload.
- The `DeleteBook` payload is a book view that carries only the owner id. The service test expects no payload. Both delete handlers answer 204, for which gin writes no body, so no delete payload reaches the client.
- `GetBookById` answers not-found with `AUTHOR_NOT_FOUND`.
- The update handlers never run the validator.
- The book controller's delete handler refuses a non-owner with "You do not have permission to update this author".

## Model

Every repository method appends itself to its repository's `log`. The call made when the log has length k fails with `outages[k]` if k is scheduled. Contracts about later steps therefore speak of positions k+1 and k+2.

| member | source | states |
|---|---|---|
| Views.SuccessResponse | httpserver/controller/views/views.go:25-31 | the envelope has exactly the given status, message and payload and no error; with a payload it is well formed (payload xor error) |
| Views.ErrorResponse | httpserver/controller/views/views.go:33-39 | requires a non-nil error (it calls `Error()`); the envelope has the given status and message, the error's text, no payload, and is well formed |
| Views.InternalError | httpserver/controller/views/views.go:33-39 | the 500 INTERNAL_SERVER_ERROR envelope carrying a storage error's text |
| Gin.Rendered | httpserver/controller/views/views.go:41-43 | `ctx.JSON` writes the given status; the body is the envelope exactly when gin allows a body for that status, and nothing for 1xx, 204 and 304 |
| Gin.Forward | httpserver/controller/views/views.go:41-43 | forwarding an envelope writes its own status; a 204 (the delete success) reaches the client without a body, every other status used here with the envelope |
| Gin.WriteJsonResponse | httpserver/controller/views/views.go:41-43 | what is written is `Forward` of the envelope: its own status, and its body unless the status forbids one; abort flag and userData unchanged |
| Table.Find | httpserver/repository/gorm/author.go:34-37 | `Where("id = ?").Take`: a returned row is in the table with that key; nothing is returned exactly when no row has the key |
| Table.FindUnique | httpserver/repository/models/author.go:10 | with a primary key, the row Find returns for a key is the row holding it |
| Table.UpdateWhere | httpserver/repository/gorm/author.go:51-54 | `Where("id = ?").Updates`: same length and order; rows with the key are transformed, all others untouched |
| Table.UpdateWhereKeepsUnique | httpserver/repository/models/author.go:10 | an update that keeps the key of the rows it touches keeps the primary key unique |
| Table.RemoveWhere | httpserver/repository/gorm/author.go:29-31 | `Where("id = ?").Delete`: every remaining row was in the table and lacks the key; every row without the key remains |
| Table.RemoveWhereFilter | httpserver/repository/gorm/author.go:29-31 | the delete is a filter: a single row stays exactly when its key differs, and a concatenation is filtered piecewise, so the remaining rows keep their order and multiplicity |
| Table.RemoveWhereKeepsUnique | httpserver/repository/gorm/author.go:29-31 | deleting keeps the remaining keys unique |
| Table.MaxKey | httpserver/repository/gorm/author.go:23 | bounds every key in the table |
| Table.FreshKey | httpserver/repository/gorm/author.go:23 | the id `uuid.New()` stands for is never Nil and not in use |
| Table.AppendFreshKeepsUnique | httpserver/repository/gorm/author.go:22-26 | inserting a row with an unused key keeps the keys unique |
| Repository.AuthorUpdateKeepsOwners | httpserver/service/author/author.go:114-120 | writing back a loaded author (same id and owner) leaves every row's id and owner as they were |
| Repository.BookUpdateKeepsOwners | httpserver/service/book/book.go:116-120 | the same for books |
| Repository.AuthorRepo.CreateAuthor | httpserver/repository/gorm/author.go:22-26 | the record gets a fresh id and the creation time, and is appended unless the store is down |
| Repository.AuthorRepo.GetAuthors | httpserver/repository/gorm/author.go:40-48 | all rows in storage order, or an empty list and the storage error |
| Repository.AuthorRepo.GetAuthorById | httpserver/repository/gorm/author.go:34-37 | the found row, or a zero record with record-not-found or the storage error |
| Repository.AuthorRepo.UpdateAuthor | httpserver/repository/gorm/author.go:51-54 | stamps `updatedAt` on the caller's record and overlays its non-zero fields on the rows with the key (none if the record names another id); keys stay unique |
| Repository.AuthorRepo.DeleteAuthor | httpserver/repository/gorm/author.go:29-31 | removes the rows with the key; deleting nothing is no error |
| Repository.BookRepo.CreateBook | httpserver/repository/gorm/book.go:24-28 | as CreateAuthor, for books |
| Repository.BookRepo.GetBooks | httpserver/repository/gorm/book.go:42-50 | as GetAuthors |
| Repository.BookRepo.GetBookById | httpserver/repository/gorm/book.go:36-39 | as GetAuthorById |
| Repository.BookRepo.UpdateBook | httpserver/repository/gorm/book.go:53-56 | as UpdateAuthor |
| Repository.BookRepo.DeleteBook | httpserver/repository/gorm/book.go:31-33 | as DeleteAuthor |
| Repository.Lower | httpserver/repository/gorm/user.go:40 | length kept, each character lower-cased (ASCII) |
| Repository.FindUsername | httpserver/repository/gorm/user.go:38-41 | a returned user is stored and matches the name up to case; none is returned exactly when no stored name matches |
| Repository.UserRepo.CreateUser | httpserver/repository/gorm/user.go:22-29 | a nil id becomes a fresh one, a non-nil id is kept; creation time stamped; insert, or a key violation if the id is taken, or the storage error |
| Repository.UserRepo.GetUserByUsername | httpserver/repository/gorm/user.go:38-41 | the case-insensitive match, record-not-found, or the storage error |
| AuthorService.ByIdResponse | httpserver/service/author/author.go:64-81 | 200 exactly when found, with the record's view; not-found is 400 AUTHOR_NOT_FOUND with "record not found"; other errors 500 with their text |
| AuthorService.AuthorViews | httpserver/service/author/author.go:90-100 | the loop yields one view per row, same length and order |
| AuthorService.AuthorSvc.CreateAuthor | httpserver/service/author/author.go:21-41 | the stored row's owner is the caller id and its name and birthdate the input's; 201 with that row's view; a storage error is 500 and stores nothing |
| AuthorService.AuthorSvc.DeleteAuthor | httpserver/service/author/author.go:44-61 | loads first: missing is 400 BAD_REQUEST with no delete; a failed load or delete is 500; success removes the row and answers 204 with a view carrying only the owner |
| AuthorService.AuthorSvc.GetAuthorById | httpserver/service/author/author.go:64-81 | answers ByIdResponse of what the lookup saw; stores nothing |
| AuthorService.AuthorSvc.GetAuthors | httpserver/service/author/author.go:84-102 | 200 with one view per row in storage order (empty for an empty store), or 500 |
| AuthorService.AuthorSvc.UpdateAuthor | httpserver/service/author/author.go:105-128 | overwrites only name and birthdate of the loaded row; no row changes id or owner; missing is 400 with no write; failures 500; 200 echoes id, owner and the new values |
| BookService.ByIdResponse | httpserver/service/book/book.go:65-82 | as AuthorService.ByIdResponse, not-found also answered with AUTHOR_NOT_FOUND |
| BookService.BookViews | httpserver/service/book/book.go:91-102 | one view per row, same length and order |
| BookService.BookSvc.CreateBook | httpserver/service/book/book.go:21-42 | owner is the caller id; author id, title and isbn from the input; 201 with the row's view, or 500 |
| BookService.BookSvc.DeleteBook | httpserver/service/book/book.go:45-62 | missing is 400 with no delete; failures 500; success removes the row and answers 204 AUTHOR_SUCCESSFULLY_DELETED with a view carrying only the owner |
| BookService.BookSvc.GetBookById | httpserver/service/book/book.go:65-82 | answers ByIdResponse of what the lookup saw |
| BookService.BookSvc.GetBooks | httpserver/service/book/book.go:85-104 | 200 with one view per row in order, or 500 |
| BookService.BookSvc.UpdateBook | httpserver/service/book/book.go:107-133 | overwrites only author id, title and isbn; no row changes id or owner; 200 echoes the new values and the repository's update stamp |
| UserService.Recovered | cmd/main.go:20 | gin.Default's Recovery turns a panic into a bare 500; a returned envelope is written with its own status |
| UserService.RegisterLookupAsWritten | httpserver/service/user/user.go:26-31 | as written: a found username panics, an outage is 500, not-found goes on |
| UserService.TakenUsernameAsWrittenIs500 | httpserver/service/user/user.go:26-28 | for every existing user, the as-written branch panics and the client sees a bare 500, not USER_ALREADY_USED |
| UserService.RegisterLookup | httpserver/service/user/user.go:26-31 | corrected: a found username is 400 USER_ALREADY_USED; an outage 500; not-found goes on |
| UserService.RegisterLookupAgrees | httpserver/service/user/user.go:26-31 | the correction agrees with the code as written on every lookup that does not find a user |
| UserService.AppendNewUsername | httpserver/repository/gorm/user.go:40 | a name matching no stored one, up to case, can be appended keeping usernames unique |
| UserService.UserSvc.ClaimsFor | httpserver/service/user/user.go:69-73 | claims carry the stored id and username and expire 60·TTL seconds after now |
| UserService.UserSvc.LoginResponse | httpserver/service/user/user.go:56-82 | outage 500; unknown user 400 INVALID_CREDENTIALS with "record not found"; wrong password 400 INVALID_CREDENTIALS with the compare error; match 200 with id, username and the signed token ("" if signing fails) |
| UserService.UserSvc.LoginSucceedsIff | httpserver/service/user/user.go:58-81 | Login answers 200 exactly when the user exists and the password matches |
| UserService.UserSvc.LoginRejectionsAlike | httpserver/service/user/user.go:58-67 | unknown user and wrong password give the same status and message; only the error text differs |
| UserService.UserSvc.Login | httpserver/service/user/user.go:56-82 | one lookup, nothing stored, answer LoginResponse of what the lookup saw |
| UserService.UserSvc.Register | httpserver/service/user/user.go:25-53 | taken name (corrected) 400 with no create; outage or hash error 500 with no create; otherwise creates the user with the hash, never the plaintext; create failure 500; success 201 echoing id, username and hash; usernames stay unique up to case |
| Controller.AuthorController.CreateAuthor | httpserver/controller/author.go:25-54 | body, then claims ("token doesn't exist"), then validation, each aborting with no repository call; otherwise the new row's owner is the claims' id |
| Controller.AuthorController.GetAuthors | httpserver/controller/author.go:56-59 | forwards the list envelope with its status |
| Controller.AuthorController.GetAuthorById | httpserver/controller/author.go:61-78 | a bad id is 400 "Invalid author ID format" with no call; otherwise the lookup's envelope verbatim |
| Controller.AuthorController.UpdateAuthor | httpserver/controller/author.go:80-130 | bad id 400, bad body 400, both with no call; a non-200 lookup is forwarded; then 401 "Token doesn't exist", 403 for a non-owner; on every branch but the owner's, the only repository call is the one lookup, so the update service is never called; the owner's request makes the service's lookup and update calls, and the rows change by the overlay of the new name and birthdate |
| Controller.AuthorController.DeleteAuthor | httpserver/controller/author.go:132-175 | same guards; on every branch but the owner's, the only repository call is the one lookup, so the delete service is never called; the owner's request makes the service's lookup and delete calls and removes the row |
| BookController.BookController.CreateBook | httpserver/controller/book/book.go:26-55 | as for authors; the new row's owner is the claims' id |
| BookController.BookController.GetBooks | httpserver/controller/book/book.go:57-60 | forwards the list envelope |
| BookController.BookController.GetBookById | httpserver/controller/book/book.go:62-79 | bad id 400 "Invalid book ID format"; otherwise the lookup's envelope verbatim |
| BookController.BookController.UpdateBook | httpserver/controller/book/book.go:81-131 | as UpdateAuthor, with 403 "...update this book"; a non-owner's request makes only the one lookup, so only the owner reaches the update call |
| BookController.BookController.DeleteBook | httpserver/controller/book/book.go:133-176 | as DeleteAuthor, with 403 "...update this author"; a non-owner's request makes only the one lookup, so only the owner reaches the delete call and removes rows |
| Bearer.IndexFrom | httpserver/router.go:48 | the first separator occurrence at or after a position, or -1 when there is none |
| Bearer.Index | httpserver/router.go:48 | -1 exactly when the header has no separator; otherwise the first occurrence |
| Bearer.Split | httpserver/router.go:48 | at least one piece |
| Bearer.Count | httpserver/router.go:48-49 | zero exactly when there is no separator |
| Bearer.Join | httpserver/router.go:48 | a single piece joins to itself |
| Bearer.PrefixFree | httpserver/router.go:48 | the text before the first separator holds none |
| Bearer.SplitLength | httpserver/router.go:48-49 | Split yields one piece more than there are separators |
| Bearer.Reassemble | httpserver/router.go:48 | a header is the text before an occurrence, the separator, and the text after it |
| Bearer.JoinCons | httpserver/router.go:48 | joining a piece in front adds it and one separator |
| Bearer.JoinSplit | httpserver/router.go:48 | joining the pieces with the separator gives the header back |
| Bearer.SplitPiecesFree | httpserver/router.go:48 | no piece contains the separator |
| Bearer.BearerToken | httpserver/router.go:48-55 | a token exactly when the separator occurs once; the header is then first piece, separator, token |
| Bearer.EmptyHeaderRejected | httpserver/router.go:48-54 | a missing (empty) header is rejected |
| Bearer.BearerAccepted | httpserver/router.go:48-55 | "Bearer " followed by a token is accepted with that token |
| Bearer.PrefixNotChecked | httpserver/router.go:48-55 | any text before the first separator is accepted and ignored, whatever scheme name it spells |
| Bearer.OtherSchemeAccepted | httpserver/router.go:48-55 | "Token Bearer abc" passes the header check with token "abc" |
| Bearer.DoubleSchemeRejected | httpserver/router.go:48-54 | "Bearer Bearer t" has three pieces and is rejected |
| Router.AbsolutePath | httpserver/router.go:43 | gin's absolute path always starts with "/" and keeps one that does |
| Router.RoutesGuarded | httpserver/router.go:30-43 | exactly the routes outside /auth/ carry verifyToken, and they are the author and book handlers |
| Router.RoutesDistinct | httpserver/router.go:30-43 | each handler is registered once; no verb and absolute path twice ("books/:id" becomes "/books/:id") |
| Router.Router.VerifyToken | httpserver/router.go:47-63 | no two-piece split: abort 401 "invalid bearer token"; a validation error: abort 401 with its text; userData untouched in both; otherwise userData is the claims |
| Router.Router.Serve | httpserver/router.go:33-43 | on an author or book route, a request without a valid token writes 401 and changes no store or log; only the route's own store can change, a row changes, and an update or delete call reaches a repository, only for the row's owner |

## Left out

- UserController (httpserver/controller/user.go) is not part of this model. Router.Router.Serve requires an author or book route, and the register and login handlers are reached only through UserService.
- bcrypt, JWT signing, `common.ValidateToken`, `uuid.Parse`, `ShouldBindJSON` and the validator tags are abstract functions: cryptography, parsing and reflection are out of scope.
- Repository.Lower: covers ASCII letters only, not Go's full Unicode `strings.ToLower` nor the SQL `LOWER` collation.
- UserService.UserSvc.ClaimsFor: the expiry is unbounded `now + 60·TTL`. It omits `time.Duration` overflow for huge TTL values.
- gorm's automatic `CreatedAt`/`UpdatedAt` stamping is not modelled. Rows carry the timestamps the Go code assigns explicitly (`CreatedAt` on create, `UpdatedAt` on update).
- The database itself is an abstract table with a deterministic outage schedule. Connection errors, timeouts and contention are all "a storage error at call k".
- `CreateBook`'s `AuthorId` is stored as given. Foreign-key enforcement by the database is not modelled.
- The 500 "Unable to process author details" / "Unable to process book details" branch is proved unreachable: a 200 lookup always carries the view. The handlers hold `assert false` there instead of the abort.
- The `fmt.Println` debug output in the book update handler is output only.
- `router.Run`, cmd/main.go wiring, config and logging are process plumbing. `GetUserById`, `GetUsers` and `UpdateUserById` of the user repository are not called by the modelled code.
- Requests are modelled one at a time. net/http serves each request on its own goroutine, and the lookup-then-create of `Register` (httpserver/service/user/user.go:26-42) is not atomic. `Username` has no unique index (httpserver/repository/models/user.go:11). UserService.UserSvc.Register: its "usernames stay unique up to case" result holds only for registrations served one at a time; two concurrent ones can store the same name.

## Findings

| source | as written | input that shows it | evidently intended | confidence | as-written member | corrected member |
|---|---|---|---|---|---|---|
| httpserver/service/user/user.go:27-28 | on a successful lookup `err` is nil and is passed to `ErrorReponse`, which calls `err.Error()`; the nil dereference panics and gin's Recovery answers a bare 500 | Register with a username already stored (any case) | 400 USER_ALREADY_USED with a non-empty error, as the service test at httpserver/service/user/user_test.go:62-68 expects | not executed | UserService.RegisterLookupAsWritten, UserService.TakenUsernameAsWrittenIs500 | UserService.RegisterLookup, UserService.UserSvc.Register |

The corrected branch reports the error text "username already used". The code does not fix a text, so this one is chosen.
