/**
 * httpserver/service/author: each operation calls the author repository in
 * sequence, returns early on an error, and classifies the outcome into an
 * envelope: gorm.ErrRecordNotFound gives 400, any other error 500.
 */
module AuthorService {
  import opened Wrappers
  import opened Models
  import opened Views
  import opened Params
  import opened Repository
  import Table

  /** The envelope GetAuthorById returns for what the lookup saw. */
  function ByIdResponse(p: Lookup<Author>): (r: Response)
    ensures r.status == StatusOK <==> p.Found?
    ensures p.Found? ==> r.message == MsgOK && r.payload == AuthorPayload(AuthorViewOf(p.record))
    ensures p.Missing? ==> r.status == StatusBadRequest && r.message == MsgAuthorNotFound &&
                           r.error == Some(ErrorText(RecordNotFound))
    ensures p.Outage? ==> r.status == StatusInternalServerError && r.message == MsgInternalServerError &&
                          r.error == Some(p.text)
    ensures WellFormed(r)
  {
    match p
    case Outage(text) => InternalError(text)
    case Missing => ErrorResponse(StatusBadRequest, MsgAuthorNotFound, Some(RecordNotFound))
    case Found(a) => SuccessResponse(StatusOK, MsgOK, AuthorPayload(AuthorViewOf(a)))
  }

  /** The loop of GetAuthors: one view per row, in the same order. */
  method AuthorViews(rows: seq<Author>) returns (views: seq<AuthorView>)
    ensures |views| == |rows|
    ensures forall i | 0 <= i < |rows| :: views[i] == AuthorViewOf(rows[i])
  {
    views := [];
    for i := 0 to |rows|
      invariant |views| == i
      invariant forall j | 0 <= j < i :: views[j] == AuthorViewOf(rows[j])
    {
      views := views + [AuthorViewOf(rows[i])];
    }
  }

  class AuthorSvc {
    const repo: AuthorRepo

    constructor (repo: AuthorRepo)
      ensures this.repo == repo
    {
      this.repo := repo;
    }

    /** CreateAuthor: the new row's owner is the caller id `id`, never a body field. */
    method CreateAuthor(author: CreateAuthors, id: Uuid, now: Time) returns (r: Response)
      requires repo.Valid()
      modifies repo
      ensures repo.Valid()
      ensures repo.log == old(repo.log) +
                [RepoCreateAuthor(Author(NilUuid, id, author.name, author.birthdate, ZeroTime, ZeroTime))]
      ensures old(repo.Down()) ==>
                r == InternalError(repo.outages[|old(repo.log)|]) && repo.rows == old(repo.rows)
      ensures !old(repo.Down()) ==>
                && |repo.rows| == |old(repo.rows)| + 1
                && repo.rows[..|old(repo.rows)|] == old(repo.rows)
                && var a := repo.rows[|old(repo.rows)|];
                && a.userId == id && a.name == author.name && a.birthdate == author.birthdate
                && a.createdAt == now && a.id != NilUuid && !Table.Has(old(repo.rows), AuthorKey, a.id)
                && r == SuccessResponse(StatusCreated, MsgCreated, AuthorPayload(AuthorViewOf(a)))
      ensures WellFormed(r)
    {
      var param := Author(NilUuid, id, author.name, author.birthdate, ZeroTime, ZeroTime);
      var err;
      param, err := repo.CreateAuthor(param, now);
      if err.Some? {
        return ErrorResponse(StatusInternalServerError, MsgInternalServerError, err);
      }
      assert repo.rows[|old(repo.rows)|] == param;
      r := SuccessResponse(StatusCreated, MsgCreated, AuthorPayload(AuthorViewOf(param)));
    }

    /** DeleteAuthor: loads first; the success payload carries only the deleted row's owner. */
    method DeleteAuthor(id: Uuid) returns (r: Response)
      requires repo.Valid()
      modifies repo
      ensures repo.Valid()
      ensures var p := old(repo.Probe(id));
              && (p.Outage? ==> r == InternalError(p.text))
              && (p.Missing? ==> r == ErrorResponse(StatusBadRequest, MsgBadRequest, Some(RecordNotFound)))
              && (!p.Found? ==> repo.rows == old(repo.rows) && repo.log == old(repo.log) + [RepoGetAuthorById(id)])
      ensures var p := old(repo.Probe(id)); var k := |old(repo.log)|;
              p.Found? ==>
                && repo.log == old(repo.log) + [RepoGetAuthorById(id), RepoDeleteAuthor(id)]
                && (k + 1 in repo.outages ==>
                      r == InternalError(repo.outages[k + 1]) && repo.rows == old(repo.rows))
                && (k + 1 !in repo.outages ==>
                      && repo.rows == Table.RemoveWhere(old(repo.rows), AuthorKey, id)
                      && r == SuccessResponse(StatusNoContent, MsgAuthorSuccessfullyDeleted,
                               AuthorPayload(AuthorView(NilUuid, p.record.userId, "", ZeroTime, ZeroTime, ZeroTime))))
      ensures WellFormed(r)
    {
      var author, err := repo.GetAuthorById(id);
      if err.Some? {
        if err == Some(RecordNotFound) {
          return ErrorResponse(StatusBadRequest, MsgBadRequest, err);
        }
        return ErrorResponse(StatusInternalServerError, MsgInternalServerError, err);
      }
      err := repo.DeleteAuthor(id);
      if err.Some? {
        return ErrorResponse(StatusInternalServerError, MsgInternalServerError, err);
      }
      r := SuccessResponse(StatusNoContent, MsgAuthorSuccessfullyDeleted,
                           AuthorPayload(AuthorView(NilUuid, author.userId, "", ZeroTime, ZeroTime, ZeroTime)));
    }

    /** GetAuthorById: not found is 400 AUTHOR_NOT_FOUND, any other error 500, found 200. */
    method GetAuthorById(id: Uuid) returns (r: Response)
      modifies repo
      ensures repo.rows == old(repo.rows) && repo.log == old(repo.log) + [RepoGetAuthorById(id)]
      ensures r == ByIdResponse(old(repo.Probe(id)))
    {
      var author, err := repo.GetAuthorById(id);
      if err.Some? {
        if err == Some(RecordNotFound) {
          return ErrorResponse(StatusBadRequest, MsgAuthorNotFound, err);
        }
        return ErrorResponse(StatusInternalServerError, MsgInternalServerError, err);
      }
      r := SuccessResponse(StatusOK, MsgOK, AuthorPayload(AuthorViewOf(author)));
    }

    /** GetAuthors: 200 with one view per row in storage order (possibly none), or 500. */
    method GetAuthors() returns (r: Response)
      modifies repo
      ensures repo.rows == old(repo.rows) && repo.log == old(repo.log) + [RepoGetAuthors]
      ensures old(repo.Down()) ==> r == InternalError(repo.outages[|old(repo.log)|])
      ensures !old(repo.Down()) ==>
                && r.status == StatusOK && r.message == MsgOK && r.error == None
                && r.payload.AuthorListPayload?
                && |r.payload.authors| == |repo.rows|
                && forall i | 0 <= i < |repo.rows| :: r.payload.authors[i] == AuthorViewOf(repo.rows[i])
      ensures WellFormed(r)
    {
      var list, err := repo.GetAuthors();
      if err.Some? {
        return ErrorResponse(StatusInternalServerError, MsgInternalServerError, err);
      }
      var authors := AuthorViews(list);
      r := SuccessResponse(StatusOK, MsgOK, AuthorListPayload(authors));
    }

    /**
     * UpdateAuthor: overwrites Name and Birthdate of the loaded row and writes
     * it back; Id and UserId are the loaded ones, so no row changes owner.
     */
    method UpdateAuthor(author: UpdateAuthors, id: Uuid, now: Time) returns (r: Response)
      requires repo.Valid()
      modifies repo
      ensures repo.Valid()
      ensures |repo.rows| == |old(repo.rows)|
      ensures forall i | 0 <= i < |repo.rows| ::
                repo.rows[i].id == old(repo.rows)[i].id && repo.rows[i].userId == old(repo.rows)[i].userId
      ensures var p := old(repo.Probe(id));
              && (p.Outage? ==> r == InternalError(p.text))
              && (p.Missing? ==> r == ErrorResponse(StatusBadRequest, MsgBadRequest, Some(RecordNotFound)))
              && (!p.Found? ==> repo.rows == old(repo.rows) && repo.log == old(repo.log) + [RepoGetAuthorById(id)])
      ensures var p := old(repo.Probe(id)); var k := |old(repo.log)|;
              p.Found? ==>
                var w := p.record.(name := author.name, birthdate := author.birthdate);
                && repo.log == old(repo.log) + [RepoGetAuthorById(id), RepoUpdateAuthor(w, id)]
                && (k + 1 in repo.outages ==>
                      r == InternalError(repo.outages[k + 1]) && repo.rows == old(repo.rows))
                && (k + 1 !in repo.outages ==>
                      && repo.rows == Table.UpdateWhere(old(repo.rows), AuthorKey, id, AuthorUpdates(w.(updatedAt := now)))
                      && r == SuccessResponse(StatusOK, MsgOK, UpdatedAuthorPayload(
                                UpdateAuthorView(p.record.id, p.record.userId, author.name, author.birthdate, ZeroTime))))
      ensures WellFormed(r)
    {
      ghost var before := repo.rows;
      var a, err := repo.GetAuthorById(id);
      if err.Some? {
        if err == Some(RecordNotFound) {
          return ErrorResponse(StatusBadRequest, MsgBadRequest, err);
        }
        return ErrorResponse(StatusInternalServerError, MsgInternalServerError, err);
      }
      a := a.(name := author.name, birthdate := author.birthdate);
      a, err := repo.UpdateAuthor(a, id, now);
      if err.Some? {
        return ErrorResponse(StatusInternalServerError, MsgInternalServerError, err);
      }
      AuthorUpdateKeepsOwners(before, id, a);
      r := SuccessResponse(StatusOK, MsgOK, UpdatedAuthorPayload(UpdateAuthorView(a.id, a.userId, a.name, a.birthdate, ZeroTime)));
    }
  }
}
