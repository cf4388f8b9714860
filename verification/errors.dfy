/** The service's error type and its mapping to an HTTP reply. */
module Errors {
  import opened Text

  /** `SvcError`.  The payloads of `Fetch`, `Decode` and `Io` stand for the
      library error values the Rust variants wrap; `UpstreamError` carries
      the upstream HTTP status the fetch paths record. */
  datatype SvcError =
    | BadRequest(msg: string)
    | Fetch(detail: string)
    | Decode(detail: string)
    | Io(detail: string)
    | UpstreamError(status: u16)

  datatype Reply = Reply(status: u16, body: string)

  const BAD_REQUEST: u16 := 400
  const UNPROCESSABLE_ENTITY: u16 := 422
  const INTERNAL_SERVER_ERROR: u16 := 500
  const BAD_GATEWAY: u16 := 502

  /** `into_response`: one status and one short message per variant. */
  function IntoResponse(e: SvcError): (r: Reply)
    ensures r.status == BAD_REQUEST <==> e.BadRequest?
    ensures r.status == UNPROCESSABLE_ENTITY <==> e.Decode?
    ensures r.status == INTERNAL_SERVER_ERROR <==> e.Io?
    ensures r.status == BAD_GATEWAY <==> (e.Fetch? || e.UpstreamError?)
    ensures e.BadRequest? ==> r.body == e.msg
    ensures !e.BadRequest? ==> |r.body| > 0
  {
    match e
    case BadRequest(msg) => Reply(BAD_REQUEST, msg)
    case Fetch(_) => Reply(BAD_GATEWAY, "Failed to fetch source image")
    case Decode(_) => Reply(UNPROCESSABLE_ENTITY, "Failed to decode image")
    case Io(_) => Reply(INTERNAL_SERVER_ERROR, "Internal server error")
    case UpstreamError(_) => Reply(BAD_GATEWAY, "Failed to fetch source image")
  }

  /** Only a bad request's reply depends on the error's payload: two errors
      of any other same variant give identical replies. */
  lemma ReplyIgnoresPayload(e1: SvcError, e2: SvcError)
    requires !e1.BadRequest?
    requires (e1.Fetch? && e2.Fetch?) || (e1.Decode? && e2.Decode?)
          || (e1.Io? && e2.Io?) || (e1.UpstreamError? && e2.UpstreamError?)
    ensures IntoResponse(e1) == IntoResponse(e2)
  {
  }

  /** Bad requests with different messages give different replies. */
  lemma BadRequestBodyDistinguishes(m1: string, m2: string)
    requires m1 != m2
    ensures IntoResponse(BadRequest(m1)) != IntoResponse(BadRequest(m2))
  {
  }
}
