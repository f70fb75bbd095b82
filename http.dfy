/** The HTTP answers of both servers, without headers or bodies: a status,
    and the machine-readable error code the JSON error body carries. */
module Http {

  datatype Status =
    | Ok200 | Created201 | NoContent204
    | BadRequest400 | Unauthorized401 | Forbidden403 | NotFound404 | Conflict409
    | Internal500

  function Code(s: Status): (n: int)
    ensures 200 <= n < 600
    ensures s.Ok200? || s.Created201? || s.NoContent204? <==> n < 300
    ensures s.Internal500? <==> n >= 500
  {
    match s
    case Ok200 => 200
    case Created201 => 201
    case NoContent204 => 204
    case BadRequest400 => 400
    case Unauthorized401 => 401
    case Forbidden403 => 403
    case NotFound404 => 404
    case Conflict409 => 409
    case Internal500 => 500
  }

  /** Different statuses have different numeric codes. */
  lemma CodeInjective(a: Status, b: Status)
    ensures Code(a) == Code(b) ==> a == b
  {
  }

  /** A status with the error code of its body; successes carry "". */
  datatype Reply = Reply(status: Status, code: string)
}
