/**
 * The part of gin's request context the handlers use: the Authorization
 * header, the `:id` path parameter, the "userData" key, the abort flag and the
 * response written; plus views.WriteJsonResponse.
 */
module Gin {
  import opened Wrappers
  import opened Models
  import opened Views

  /** The outcome of `ctx.ShouldBindJSON(&req)`. */
  datatype Bind<P> = Bound(value: P) | Malformed(text: string)

  class Context {
    /** `ctx.Request.Header.Get("Authorization")`: "" when the header is missing. */
    const header: string
    /** `ctx.Param("id")` */
    const idParam: string
    /** `ctx.Get("userData")`: set by the token middleware. */
    var userData: Option<Claims>
    var aborted: bool
    var written: Option<Written>

    constructor (header: string, idParam: string)
      ensures this.header == header && this.idParam == idParam
      ensures userData == None && !aborted && written == None
    {
      this.header := header;
      this.idParam := idParam;
      userData := None;
      aborted := false;
      written := None;
    }

    /** `ctx.AbortWithStatusJSON(status, gin.H{"error": text})` */
    method AbortWithError(status: int, text: string)
      modifies this
      ensures aborted && written == Some(Written(status, ErrorJson(text)))
      ensures userData == old(userData)
    {
      aborted := true;
      written := Some(Written(status, ErrorJson(text)));
    }

    /** `ctx.JSON(status, response)` */
    method Json(status: int, response: Response)
      modifies this
      ensures written == Some(Rendered(status, response))
      ensures aborted == old(aborted) && userData == old(userData)
    {
      if BodyAllowed(status) {
        written := Some(Written(status, Envelope(response)));
      } else {
        written := Some(Written(status, NoBody));
      }
    }

    /** `ctx.Set("userData", claims)` */
    method SetUserData(claims: Claims)
      modifies this
      ensures userData == Some(claims)
      ensures aborted == old(aborted) && written == old(written)
    {
      userData := Some(claims);
    }
  }

  /** gin's bodyAllowedForStatus: 1xx, 204 No Content and 304 Not Modified carry no body. */
  predicate BodyAllowed(status: int)
  {
    !(100 <= status <= 199 || status == StatusNoContent || status == 304)
  }

  /** What gin's JSON render puts on the wire: the status, and the envelope as body where a body is allowed. */
  function Rendered(status: int, res: Response): (w: Written)
    ensures w.status == status
    ensures w.body.NoBody? <==> !BodyAllowed(status)
    ensures BodyAllowed(status) ==> w.body == Envelope(res)
  {
    Written(status, if BodyAllowed(status) then Envelope(res) else NoBody)
  }

  /** What a handler writes when it forwards an envelope through WriteJsonResponse. */
  function Forward(r: Response): (w: Option<Written>)
    ensures w.Some? && w.value.status == r.status
    ensures w.value.body.NoBody? <==> !BodyAllowed(r.status)
    ensures BodyAllowed(r.status) ==> w.value.body == Envelope(r)
  {
    Some(Rendered(r.status, r))
  }

  /** views.WriteJsonResponse: the HTTP status written is the envelope's own Status. */
  method WriteJsonResponse(ctx: Context, res: Response)
    modifies ctx
    ensures ctx.written == Forward(res)
    ensures ctx.aborted == old(ctx.aborted) && ctx.userData == old(ctx.userData)
  {
    ctx.Json(res.status, res);
  }
}
