/**
 * The response envelope of httpserver/controller/views: the message codes,
 * the view records the services put in the payload, and the two constructors
 * SuccessResponse and ErrorReponse.
 */
module Views {
  import opened Wrappers
  import opened Models

  // HTTP status codes used by the services and controllers.
  const StatusOK := 200
  const StatusCreated := 201
  const StatusNoContent := 204
  const StatusBadRequest := 400
  const StatusUnauthorized := 401
  const StatusForbidden := 403
  const StatusInternalServerError := 500

  // The symbolic message codes.
  const MsgBadRequest := "BAD_REQUEST"
  const MsgInvalidCredentials := "INVALID_CREDENTIALS"
  const MsgCreated := "CREATED"
  const MsgOK := "OK"
  const MsgUsernameAlreadyUsed := "USER_ALREADY_USED"
  const MsgInternalServerError := "INTERNAL_SERVER_ERROR"
  const MsgAuthorSuccessfullyDeleted := "AUTHOR_SUCCESSFULLY_DELETED"
  const MsgAuthorNotFound := "AUTHOR_NOT_FOUND"

  datatype AuthorView = AuthorView(id: Uuid, userId: Uuid, name: string, birthdate: Time,
                                   createdAt: Time, updatedAt: Time)
  datatype UpdateAuthorView = UpdateAuthorView(id: Uuid, userId: Uuid, name: string, birthdate: Time,
                                               updatedAt: Time)
  datatype BookView = BookView(id: Uuid, userId: Uuid, authorId: Uuid, title: string, isbn: string,
                               createdAt: Time, updatedAt: Time)
  datatype UpdateBookView = UpdateBookView(id: Uuid, userId: Uuid, authorId: Uuid, title: string,
                                           isbn: string, updatedAt: Time)
  datatype RegisterView = RegisterView(id: Uuid, username: string, password: string,
                                       createdAt: Time, updatedAt: Time)
  datatype LoginView = LoginView(id: Uuid, username: string, token: string)

  /** The dynamic value held by the `interface{}` Payload field; NoPayload is nil. */
  datatype Payload =
    | NoPayload
    | AuthorPayload(author: AuthorView)
    | AuthorListPayload(authors: seq<AuthorView>)
    | UpdatedAuthorPayload(updated: UpdateAuthorView)
    | BookPayload(book: BookView)
    | BookListPayload(books: seq<BookView>)
    | UpdatedBookPayload(updatedBook: UpdateBookView)
    | RegisterPayload(registered: RegisterView)
    | LoginPayload(login: LoginView)

  /** views.Response; `error` is None when the Error field is nil. */
  datatype Response = Response(status: int, message: string, payload: Payload, error: Option<string>)

  /** Exactly one of Payload and Error is set. */
  predicate WellFormed(r: Response)
  {
    (r.payload != NoPayload) != r.error.Some?
  }

  /** The view of a stored author, field by field. */
  function AuthorViewOf(a: Author): AuthorView
  {
    AuthorView(a.id, a.userId, a.name, a.birthdate, a.createdAt, a.updatedAt)
  }

  /** The view of a stored book, field by field. */
  function BookViewOf(b: Book): BookView
  {
    BookView(b.id, b.userId, b.authorId, b.title, b.isbn, b.createdAt, b.updatedAt)
  }

  /** SuccessResponse: the given status, message and payload, and no error. */
  function SuccessResponse(status: int, message: string, payload: Payload): (r: Response)
    ensures r.status == status && r.message == message && r.payload == payload
    ensures r.error == None
    ensures payload != NoPayload ==> WellFormed(r)
  {
    Response(status, message, payload, None)
  }

  /**
   * ErrorReponse: the given status and message, the error's text, and no
   * payload. It calls `error.Error()`, so a nil error is not allowed.
   */
  function ErrorResponse(status: int, message: string, err: Option<Error>): (r: Response)
    requires err.Some?
    ensures r.status == status && r.message == message
    ensures r.error == Some(ErrorText(err.value)) && r.payload == NoPayload
    ensures WellFormed(r)
  {
    Response(status, message, NoPayload, Some(ErrorText(err.value)))
  }

  /** The 500 envelope every service returns for a storage error other than not-found. */
  function InternalError(text: string): (r: Response)
    ensures r.status == StatusInternalServerError && r.message == MsgInternalServerError
    ensures r.error == Some(text) && WellFormed(r)
  {
    ErrorResponse(StatusInternalServerError, MsgInternalServerError, Some(Fault(text)))
  }

  /**
   * A response body as gin writes it: the envelope, a bare `{"error": ...}`
   * object, or nothing (gin's Recovery middleware after a panic).
   */
  datatype Body = Envelope(response: Response) | ErrorJson(error: string) | NoBody

  /** What a handler wrote: the HTTP status and the JSON body. */
  datatype Written = Written(status: int, body: Body)
}
