/**
 * httpserver/controller/author.go: the author handlers. Each runs a pipeline
 * of guards (path id, body, token claims, validation, ownership), aborts with
 * a bare `{"error": ...}` object at the first one that fails, and otherwise
 * writes the service's envelope with the envelope's own status.
 */
module Controller {
  import opened Wrappers
  import opened Models
  import opened Views
  import opened Params
  import opened Gin
  import opened Repository
  import opened AuthorService
  import Table

  const InvalidAuthorId := "Invalid author ID format"
  /** The abort for a 200 lookup without an author view; that branch is unreachable. */
  const UnprocessableAuthor := "Unable to process author details"
  /** CreateAuthor spells it in lower case, UpdateAuthor and DeleteAuthor capitalised. */
  const NoTokenCreate := "token doesn't exist"
  const NoToken := "Token doesn't exist"
  const NotAuthorOwner := "You do not have permission to update this author"

  class AuthorController {
    const svc: AuthorSvc
    /** uuid.Parse */
    const parseUuid: string -> Option<Uuid>
    /** `validator.New().Struct(&req)`: the validation error text, if any. */
    const validate: CreateAuthors -> Option<string>

    constructor (svc: AuthorSvc, parseUuid: string -> Option<Uuid>, validate: CreateAuthors -> Option<string>)
      ensures this.svc == svc && this.parseUuid == parseUuid && this.validate == validate
    {
      this.svc := svc;
      this.parseUuid := parseUuid;
      this.validate := validate;
    }

    /**
     * CreateAuthor: body, then claims, then validation; the new row always
     * belongs to the caller named by the token claims.
     */
    method CreateAuthor(ctx: Context, body: Bind<CreateAuthors>, now: Time)
      requires svc.repo.Valid()
      modifies ctx, svc.repo
      ensures !AuthorWritesSince(svc.repo.log, |old(svc.repo.log)|)
      ensures svc.repo.Valid() && ctx.userData == old(ctx.userData)
      ensures body.Malformed? ==> ctx.written == Some(Written(StatusBadRequest, ErrorJson(body.text)))
      ensures body.Bound? && ctx.userData.None? ==>
                ctx.written == Some(Written(StatusUnauthorized, ErrorJson(NoTokenCreate)))
      ensures body.Bound? && ctx.userData.Some? && validate(body.value).Some? ==>
                ctx.written == Some(Written(StatusBadRequest, ErrorJson(validate(body.value).value)))
      ensures !(body.Bound? && ctx.userData.Some? && validate(body.value).None?) ==>
                svc.repo.rows == old(svc.repo.rows) && svc.repo.log == old(svc.repo.log)
      ensures body.Bound? && ctx.userData.Some? && validate(body.value).None? ==>
                var n := |old(svc.repo.rows)|;
                && svc.repo.log == old(svc.repo.log) + [RepoCreateAuthor(Author(NilUuid, ctx.userData.value.id,
                     body.value.name, body.value.birthdate, ZeroTime, ZeroTime))]
                && (old(svc.repo.Down()) ==>
                      && svc.repo.rows == old(svc.repo.rows)
                      && ctx.written == Forward(InternalError(svc.repo.outages[|old(svc.repo.log)|])))
                && (!old(svc.repo.Down()) ==>
                      && |svc.repo.rows| == n + 1 && svc.repo.rows[..n] == old(svc.repo.rows)
                      && svc.repo.rows[n].userId == ctx.userData.value.id
                      && svc.repo.rows[n].name == body.value.name
                      && ctx.written == Forward(SuccessResponse(StatusCreated, MsgCreated,
                                                                AuthorPayload(AuthorViewOf(svc.repo.rows[n])))))
    {
      if body.Malformed? {
        ctx.AbortWithError(StatusBadRequest, body.text);
        return;
      }
      var req := body.value;
      if ctx.userData.None? {
        ctx.AbortWithError(StatusUnauthorized, NoTokenCreate);
        return;
      }
      var userId := ctx.userData.value.id;
      var err := validate(req);
      if err.Some? {
        ctx.AbortWithError(StatusBadRequest, err.value);
        return;
      }
      var response := svc.CreateAuthor(req, userId, now);
      WriteJsonResponse(ctx, response);
    }

    /** GetAuthors: forwards the service's envelope. */
    method GetAuthors(ctx: Context)
      modifies ctx, svc.repo
      ensures !AuthorWritesSince(svc.repo.log, |old(svc.repo.log)|)
      ensures ctx.userData == old(ctx.userData)
      ensures svc.repo.rows == old(svc.repo.rows) && svc.repo.log == old(svc.repo.log) + [RepoGetAuthors]
      ensures old(svc.repo.Down()) ==> ctx.written == Forward(InternalError(svc.repo.outages[|old(svc.repo.log)|]))
      ensures !old(svc.repo.Down()) ==>
                && ctx.written.Some? && ctx.written.value.status == StatusOK
                && ctx.written.value.body.Envelope?
                && var r := ctx.written.value.body.response;
                   && r.payload.AuthorListPayload? && |r.payload.authors| == |svc.repo.rows|
                   && forall i | 0 <= i < |svc.repo.rows| :: r.payload.authors[i] == AuthorViewOf(svc.repo.rows[i])
    {
      var reponse := svc.GetAuthors();
      WriteJsonResponse(ctx, reponse);
    }

    /** GetAuthorById: a malformed id is 400; otherwise the lookup's envelope, whatever its status. */
    method GetAuthorById(ctx: Context)
      modifies ctx, svc.repo
      ensures !AuthorWritesSince(svc.repo.log, |old(svc.repo.log)|)
      ensures ctx.userData == old(ctx.userData) && svc.repo.rows == old(svc.repo.rows)
      ensures parseUuid(ctx.idParam).None? ==>
                && ctx.written == Some(Written(StatusBadRequest, ErrorJson(InvalidAuthorId)))
                && svc.repo.log == old(svc.repo.log)
      ensures parseUuid(ctx.idParam).Some? ==>
                var id := parseUuid(ctx.idParam).value;
                && ctx.written == Forward(ByIdResponse(old(svc.repo.Probe(id))))
                && svc.repo.log == old(svc.repo.log) + [RepoGetAuthorById(id)]
    {
      var authorId := parseUuid(ctx.idParam);
      if authorId.None? {
        ctx.AbortWithError(StatusBadRequest, InvalidAuthorId);
        return;
      }
      var authorResponse := svc.GetAuthorById(authorId.value);
      if authorResponse.status != StatusOK {
        WriteJsonResponse(ctx, authorResponse);
        return;
      }
      WriteJsonResponse(ctx, authorResponse);
    }

    /**
     * UpdateAuthor: id, body, lookup, claims, ownership, then the service
     * update (which looks the row up again). Only the row's owner changes the
     * table, and then the row keeps its id and owner.
     */
    method UpdateAuthor(ctx: Context, body: Bind<UpdateAuthors>, now: Time)
      requires svc.repo.Valid()
      modifies ctx, svc.repo
      ensures AuthorWritesSince(svc.repo.log, |old(svc.repo.log)|) ==>
                && parseUuid(ctx.idParam).Some? && ctx.userData.Some?
                && var p := old(svc.repo.Probe(parseUuid(ctx.idParam).value));
                   p.Found? && p.record.userId == ctx.userData.value.id
      ensures svc.repo.Valid() && ctx.userData == old(ctx.userData)
      ensures svc.repo.rows != old(svc.repo.rows) ==>
                && parseUuid(ctx.idParam).Some? && ctx.userData.Some?
                && var p := old(svc.repo.Probe(parseUuid(ctx.idParam).value));
                   p.Found? && p.record.userId == ctx.userData.value.id
      ensures parseUuid(ctx.idParam).None? ==>
                && ctx.written == Some(Written(StatusBadRequest, ErrorJson(InvalidAuthorId)))
                && svc.repo.rows == old(svc.repo.rows) && svc.repo.log == old(svc.repo.log)
      ensures parseUuid(ctx.idParam).Some? && body.Malformed? ==>
                && ctx.written == Some(Written(StatusBadRequest, ErrorJson(body.text)))
                && svc.repo.rows == old(svc.repo.rows) && svc.repo.log == old(svc.repo.log)
      ensures parseUuid(ctx.idParam).Some? && body.Bound? ==>
                var id := parseUuid(ctx.idParam).value;
                var p := old(svc.repo.Probe(id));
                && (!p.Found? ==> ctx.written == Forward(ByIdResponse(p)))
                && (p.Found? && ctx.userData.None? ==>
                      ctx.written == Some(Written(StatusUnauthorized, ErrorJson(NoToken))))
                && (p.Found? && ctx.userData.Some? && ctx.userData.value.id != p.record.userId ==>
                      ctx.written == Some(Written(StatusForbidden, ErrorJson(NotAuthorOwner))))
                && (!(p.Found? && ctx.userData.Some? && ctx.userData.value.id == p.record.userId) ==>
                      svc.repo.rows == old(svc.repo.rows) && svc.repo.log == old(svc.repo.log) + [RepoGetAuthorById(id)])
      ensures parseUuid(ctx.idParam).Some? && body.Bound? ==>
                var id := parseUuid(ctx.idParam).value;
                var p := old(svc.repo.Probe(id));
                var k := |old(svc.repo.log)|;
                var outages := svc.repo.outages;
                p.Found? && ctx.userData.Some? && ctx.userData.value.id == p.record.userId ==>
                  && (k + 1 in outages ==>
                        && ctx.written == Forward(InternalError(outages[k + 1])) && svc.repo.rows == old(svc.repo.rows)
                        && svc.repo.log == old(svc.repo.log) + [RepoGetAuthorById(id), RepoGetAuthorById(id)])
                  && (k + 1 !in outages ==>
                        svc.repo.log == old(svc.repo.log) + [RepoGetAuthorById(id), RepoGetAuthorById(id),
                          RepoUpdateAuthor(p.record.(name := body.value.name, birthdate := body.value.birthdate), id)])
                  && (k + 1 !in outages && k + 2 in outages ==>
                        ctx.written == Forward(InternalError(outages[k + 2])) && svc.repo.rows == old(svc.repo.rows))
                  && (k + 1 !in outages && k + 2 !in outages ==>
                        && svc.repo.rows == Table.UpdateWhere(old(svc.repo.rows), AuthorKey, id, AuthorUpdates(
                             p.record.(name := body.value.name, birthdate := body.value.birthdate, updatedAt := now)))
                        && ctx.written == Forward(SuccessResponse(StatusOK, MsgOK, UpdatedAuthorPayload(
                             UpdateAuthorView(id, p.record.userId, body.value.name, body.value.birthdate, ZeroTime)))))
    {
      var authorId := parseUuid(ctx.idParam);
      if authorId.None? {
        ctx.AbortWithError(StatusBadRequest, InvalidAuthorId);
        return;
      }
      if body.Malformed? {
        ctx.AbortWithError(StatusBadRequest, body.text);
        return;
      }
      var req := body.value;
      var authorResponse := svc.GetAuthorById(authorId.value);
      if authorResponse.status != StatusOK {
        WriteJsonResponse(ctx, authorResponse);
        return;
      }
      if !authorResponse.payload.AuthorPayload? {
        // The 500 UnprocessableAuthor abort: a 200 from GetAuthorById always carries an author.
        assert false;
      }
      var authorDetails := authorResponse.payload.author;
      if ctx.userData.None? {
        ctx.AbortWithError(StatusUnauthorized, NoToken);
        return;
      }
      if ctx.userData.value.id != authorDetails.userId {
        ctx.AbortWithError(StatusForbidden, NotAuthorOwner);
        return;
      }
      var response := svc.UpdateAuthor(req, authorId.value, now);
      WriteJsonResponse(ctx, response);
    }

    /** DeleteAuthor: id, lookup, claims, ownership, then the service delete. Only the owner removes rows. */
    method DeleteAuthor(ctx: Context)
      requires svc.repo.Valid()
      modifies ctx, svc.repo
      ensures AuthorWritesSince(svc.repo.log, |old(svc.repo.log)|) ==>
                && parseUuid(ctx.idParam).Some? && ctx.userData.Some?
                && var p := old(svc.repo.Probe(parseUuid(ctx.idParam).value));
                   p.Found? && p.record.userId == ctx.userData.value.id
      ensures svc.repo.Valid() && ctx.userData == old(ctx.userData)
      ensures svc.repo.rows != old(svc.repo.rows) ==>
                && parseUuid(ctx.idParam).Some? && ctx.userData.Some?
                && var p := old(svc.repo.Probe(parseUuid(ctx.idParam).value));
                   p.Found? && p.record.userId == ctx.userData.value.id
      ensures parseUuid(ctx.idParam).None? ==>
                && ctx.written == Some(Written(StatusBadRequest, ErrorJson(InvalidAuthorId)))
                && svc.repo.rows == old(svc.repo.rows) && svc.repo.log == old(svc.repo.log)
      ensures parseUuid(ctx.idParam).Some? ==>
                var id := parseUuid(ctx.idParam).value;
                var p := old(svc.repo.Probe(id));
                && (!p.Found? ==> ctx.written == Forward(ByIdResponse(p)))
                && (p.Found? && ctx.userData.None? ==>
                      ctx.written == Some(Written(StatusUnauthorized, ErrorJson(NoToken))))
                && (p.Found? && ctx.userData.Some? && ctx.userData.value.id != p.record.userId ==>
                      ctx.written == Some(Written(StatusForbidden, ErrorJson(NotAuthorOwner))))
                && (!(p.Found? && ctx.userData.Some? && ctx.userData.value.id == p.record.userId) ==>
                      svc.repo.rows == old(svc.repo.rows) && svc.repo.log == old(svc.repo.log) + [RepoGetAuthorById(id)])
      ensures parseUuid(ctx.idParam).Some? ==>
                var id := parseUuid(ctx.idParam).value;
                var p := old(svc.repo.Probe(id));
                var k := |old(svc.repo.log)|;
                var outages := svc.repo.outages;
                p.Found? && ctx.userData.Some? && ctx.userData.value.id == p.record.userId ==>
                  && (k + 1 in outages ==>
                        && ctx.written == Forward(InternalError(outages[k + 1])) && svc.repo.rows == old(svc.repo.rows)
                        && svc.repo.log == old(svc.repo.log) + [RepoGetAuthorById(id), RepoGetAuthorById(id)])
                  && (k + 1 !in outages ==>
                        svc.repo.log == old(svc.repo.log) + [RepoGetAuthorById(id), RepoGetAuthorById(id), RepoDeleteAuthor(id)])
                  && (k + 1 !in outages && k + 2 in outages ==>
                        ctx.written == Forward(InternalError(outages[k + 2])) && svc.repo.rows == old(svc.repo.rows))
                  && (k + 1 !in outages && k + 2 !in outages ==>
                        && svc.repo.rows == Table.RemoveWhere(old(svc.repo.rows), AuthorKey, id)
                        && ctx.written == Forward(SuccessResponse(StatusNoContent, MsgAuthorSuccessfullyDeleted,
                             AuthorPayload(AuthorView(NilUuid, p.record.userId, "", ZeroTime, ZeroTime, ZeroTime)))))
    {
      var authorId := parseUuid(ctx.idParam);
      if authorId.None? {
        ctx.AbortWithError(StatusBadRequest, InvalidAuthorId);
        return;
      }
      var authorResponse := svc.GetAuthorById(authorId.value);
      if authorResponse.status != StatusOK {
        WriteJsonResponse(ctx, authorResponse);
        return;
      }
      if !authorResponse.payload.AuthorPayload? {
        // The 500 UnprocessableAuthor abort: a 200 from GetAuthorById always carries an author.
        assert false;
      }
      var authorDetails := authorResponse.payload.author;
      if ctx.userData.None? {
        ctx.AbortWithError(StatusUnauthorized, NoToken);
        return;
      }
      if ctx.userData.value.id != authorDetails.userId {
        ctx.AbortWithError(StatusForbidden, NotAuthorOwner);
        return;
      }
      var reponse := svc.DeleteAuthor(authorId.value);
      WriteJsonResponse(ctx, reponse);
    }
  }
}
