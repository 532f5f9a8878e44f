/**
 * The exceptions the services throw, as values.  Every HttpException subclass the core uses
 * has a kind; `Plain` is a bare `Error` (or an error raised by the database client), which is not
 * an HttpException and which Nest answers with status 500.
 */
module Http {

  datatype Kind = BadRequest | Unauthorized | Forbidden | NotFound | InternalServerError | Plain

  /** The status `getStatus()` reports for an exception of kind `k`. */
  function Status(k: Kind): int {
    match k
    case BadRequest => 400
    case Unauthorized => 401
    case Forbidden => 403
    case NotFound => 404
    case InternalServerError => 500
    case Plain => 500
  }

  /**
   * The outcome of a service call: a value, or the exception thrown.  `bodyStatus` is the
   * `statusCode` written in the exception's response body, which is `Status(kind)` except where a
   * service passes its own body.
   */
  datatype Result<+T> = Ok(value: T) | Err(kind: Kind, bodyStatus: int)

  function Fail<T>(k: Kind): Result<T> {
    Err(k, Status(k))
  }
}
