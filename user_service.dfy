/**
 * httpserver/service/user: registration (lookup, bcrypt hash, insert) and
 * login (lookup, bcrypt compare, signed JWT). bcrypt and the JWT signer are
 * collaborators the model does not open: they are function-valued fields.
 */
module UserService {
  import opened Wrappers
  import opened Models
  import opened Views
  import opened Params
  import opened Repository
  import Table

  /** How far a handler got: it returned an envelope, or it panicked. */
  datatype Outcome = Returned(response: Response) | Panicked

  /** What gin's Recovery middleware writes for an outcome. */
  function Recovered(o: Outcome): (w: Written)
    ensures o.Panicked? ==> w == Written(StatusInternalServerError, NoBody)
    ensures o.Returned? ==> w == Written(o.response.status, Envelope(o.response))
  {
    match o
    case Returned(r) => Written(r.status, Envelope(r))
    case Panicked => Written(StatusInternalServerError, NoBody)
  }

  /** The first step of Register, lines 26-31, as written: `Some(r)` stops with `r`, None goes on. */
  function RegisterLookupAsWritten(p: Lookup<User>): (o: Option<Outcome>)
    ensures p.Found? <==> o == Some(Panicked)
    ensures p.Missing? <==> o == None
    ensures p.Outage? ==> o == Some(Returned(InternalError(p.text)))
  {
    match p
    case Found(_) =>
      // The lookup succeeded, so `err` is nil, and ErrorReponse calls nil.Error().
      Some(Panicked)
    case Outage(text) => Some(Returned(ErrorResponse(StatusInternalServerError, MsgInternalServerError, Some(Fault(text)))))
    case Missing => None
  }

  /** As written, registering a taken username never produces USER_ALREADY_USED: the client sees a bare 500. */
  lemma TakenUsernameAsWrittenIs500(u: User)
    ensures RegisterLookupAsWritten(Found(u)) == Some(Panicked)
    ensures Recovered(Panicked) == Written(StatusInternalServerError, NoBody)
  {
  }

  /** The error text the corrected Register reports for a taken username. */
  const UsernameTakenText := "username already used"

  /** The first step of Register as intended: a taken username is 400 USER_ALREADY_USED. */
  function RegisterLookup(p: Lookup<User>): (o: Option<Response>)
    ensures p.Found? <==> o.Some? && o.value.status == StatusBadRequest
    ensures p.Found? ==> o.value.message == MsgUsernameAlreadyUsed && WellFormed(o.value)
    ensures p.Missing? <==> o == None
    ensures p.Outage? ==> o == Some(InternalError(p.text))
  {
    match p
    case Found(_) => Some(ErrorResponse(StatusBadRequest, MsgUsernameAlreadyUsed, Some(Fault(UsernameTakenText))))
    case Outage(text) => Some(InternalError(text))
    case Missing => None
  }

  /** The corrected step agrees with the code as written everywhere except on a taken username. */
  lemma RegisterLookupAgrees(p: Lookup<User>)
    ensures !p.Found? ==>
              match RegisterLookup(p)
              case None => RegisterLookupAsWritten(p) == None
              case Some(r) => RegisterLookupAsWritten(p) == Some(Returned(r))
  {
  }

  /** A user whose name matches no stored one can be appended without breaking case-insensitive uniqueness. */
  lemma AppendNewUsername(rows: seq<User>, u: User)
    requires UsernamesUnique(rows)
    requires FindUsername(rows, u.username).None?
    ensures UsernamesUnique(rows + [u])
  {
  }

  class UserSvc {
    const repo: UserRepo
    /** bcrypt.GenerateFromPassword at the default cost. */
    const hash: string -> Result<string, Error>
    /** bcrypt.CompareHashAndPassword(hashed, plain): None when they match. */
    const compare: (string, string) -> Option<Error>
    /** `jwt.NewWithClaims(HS256, claims).SignedString(secret)`. */
    const sign: Claims -> Result<string, Error>
    /** config.GetJwtExpiredTime(), in minutes. */
    const ttlMinutes: int

    constructor (repo: UserRepo, hash: string -> Result<string, Error>,
                 compare: (string, string) -> Option<Error>, sign: Claims -> Result<string, Error>,
                 ttlMinutes: int)
      ensures this.repo == repo && this.hash == hash && this.compare == compare
      ensures this.sign == sign && this.ttlMinutes == ttlMinutes
    {
      this.repo := repo;
      this.hash := hash;
      this.compare := compare;
      this.sign := sign;
      this.ttlMinutes := ttlMinutes;
    }

    /** The claims of a token issued at `now` (Unix seconds) to `u`. */
    function ClaimsFor(u: User, now: int): (c: Claims)
      ensures c.id == u.id && c.subject == u.username
      ensures c.expiresAt == now + 60 * ttlMinutes
      ensures ttlMinutes > 0 ==> c.expiresAt > now
    {
      Claims(u.id, u.username, now + 60 * ttlMinutes)
    }

    /**
     * The envelope Login returns for what the lookup saw. A signing error is
     * dropped: the token is then the empty string SignedString returns with it.
     */
    function LoginResponse(p: Lookup<User>, password: string, now: int): (r: Response)
      ensures p.Outage? ==> r == InternalError(p.text)
      ensures p.Missing? ==> r == ErrorResponse(StatusBadRequest, MsgInvalidCredentials, Some(RecordNotFound))
      ensures p.Found? && compare(p.record.password, password).Some? ==>
                r == ErrorResponse(StatusBadRequest, MsgInvalidCredentials, compare(p.record.password, password))
      ensures p.Found? && compare(p.record.password, password).None? ==>
                && r.status == StatusOK && r.message == MsgOK && r.error == None
                && r.payload.LoginPayload?
                && r.payload.login.id == p.record.id && r.payload.login.username == p.record.username
                && var s := sign(ClaimsFor(p.record, now));
                   r.payload.login.token == (if s.Ok? then s.value else "")
      ensures WellFormed(r)
    {
      match p
      case Outage(text) => InternalError(text)
      case Missing => ErrorResponse(StatusBadRequest, MsgInvalidCredentials, Some(RecordNotFound))
      case Found(u) =>
        var mismatch := compare(u.password, password);
        if mismatch.Some? then ErrorResponse(StatusBadRequest, MsgInvalidCredentials, mismatch)
        else
          var s := sign(ClaimsFor(u, now));
          SuccessResponse(StatusOK, MsgOK, LoginPayload(LoginView(u.id, u.username, if s.Ok? then s.value else "")))
    }

    /** Login succeeds exactly when the user exists and the password matches its hash. */
    lemma LoginSucceedsIff(p: Lookup<User>, password: string, now: int)
      ensures LoginResponse(p, password, now).status == StatusOK <==>
                p.Found? && compare(p.record.password, password).None?
    {
    }

    /**
     * An unknown user and a wrong password are told apart neither by status
     * nor by message; only the error text differs.
     */
    lemma LoginRejectionsAlike(u: User, password: string, now: int)
      requires compare(u.password, password).Some?
      ensures var missing := LoginResponse(Missing, password, now);
              var wrong := LoginResponse(Found(u), password, now);
              && missing.status == wrong.status == StatusBadRequest
              && missing.message == wrong.message == MsgInvalidCredentials
              && missing.error == Some(ErrorText(RecordNotFound))
              && wrong.error == Some(ErrorText(compare(u.password, password).value))
    {
    }

    /** Login: one lookup, nothing stored. */
    method Login(user: Login, now: int) returns (r: Response)
      modifies repo
      ensures repo.rows == old(repo.rows) && repo.log == old(repo.log) + [RepoGetUserByUsername(user.username)]
      ensures r == LoginResponse(old(repo.Probe(user.username)), user.password, now)
    {
      var model, err := repo.GetUserByUsername(user.username);
      if err.Some? {
        if err == Some(RecordNotFound) {
          return ErrorResponse(StatusBadRequest, MsgInvalidCredentials, err);
        }
        return ErrorResponse(StatusInternalServerError, MsgInternalServerError, err);
      }
      err := compare(model.password, user.password);
      if err.Some? {
        return ErrorResponse(StatusBadRequest, MsgInvalidCredentials, err);
      }
      var claims := Claims(model.id, model.username, now + 60 * ttlMinutes);
      var signed := sign(claims);
      var ss := if signed.Ok? then signed.value else "";
      r := SuccessResponse(StatusOK, MsgOK, LoginPayload(LoginView(model.id, model.username, ss)));
    }

    /**
     * Register, with a taken username answered by 400 USER_ALREADY_USED. The
     * payload echoes the stored bcrypt hash, and keeps the store's usernames
     * unique up to case.
     */
    method Register(user: Register, now: Time) returns (r: Response)
      requires repo.Valid()
      modifies repo
      ensures repo.Valid()
      ensures UsernamesUnique(old(repo.rows)) ==> UsernamesUnique(repo.rows)
      ensures var p := old(repo.Probe(user.username));
              !p.Missing? ==>
                && r == RegisterLookup(p).value
                && repo.rows == old(repo.rows)
                && repo.log == old(repo.log) + [RepoGetUserByUsername(user.username)]
      ensures old(repo.Probe(user.username)).Missing? && hash(user.password).Err? ==>
                && r == ErrorResponse(StatusInternalServerError, MsgInternalServerError, Some(hash(user.password).error))
                && repo.rows == old(repo.rows)
                && repo.log == old(repo.log) + [RepoGetUserByUsername(user.username)]
      ensures var k := |old(repo.log)|;
              old(repo.Probe(user.username)).Missing? && hash(user.password).Ok? ==>
                var input := User(NilUuid, user.username, hash(user.password).value, ZeroTime, ZeroTime);
                && repo.log == old(repo.log) + [RepoGetUserByUsername(user.username), RepoCreateUser(input)]
                && (k + 1 in repo.outages ==>
                      r == InternalError(repo.outages[k + 1]) && repo.rows == old(repo.rows))
                && (k + 1 !in repo.outages ==>
                      var id := Table.FreshKey(old(repo.rows), UserKey);
                      && repo.rows == old(repo.rows) + [input.(id := id, createdAt := now)]
                      && r == SuccessResponse(StatusCreated, MsgCreated, RegisterPayload(
                                RegisterView(id, user.username, hash(user.password).value, now, ZeroTime))))
      ensures WellFormed(r)
    {
      var _, err := repo.GetUserByUsername(user.username);
      if err.None? {
        return ErrorResponse(StatusBadRequest, MsgUsernameAlreadyUsed, Some(Fault(UsernameTakenText)));
      } else if err != Some(RecordNotFound) {
        return ErrorResponse(StatusInternalServerError, MsgInternalServerError, err);
      }
      var hashed := hash(user.password);
      if hashed.Err? {
        return ErrorResponse(StatusInternalServerError, MsgInternalServerError, Some(hashed.error));
      }
      var input := User(NilUuid, user.username, hashed.value, ZeroTime, ZeroTime);
      ghost var before := repo.rows;
      input, err := repo.CreateUser(input, now);
      if err.Some? {
        return ErrorResponse(StatusInternalServerError, MsgInternalServerError, err);
      }
      if UsernamesUnique(before) {
        AppendNewUsername(before, input);
      }
      r := SuccessResponse(StatusCreated, MsgCreated, RegisterPayload(
             RegisterView(input.id, input.username, input.password, input.createdAt, ZeroTime)));
    }
  }
}
