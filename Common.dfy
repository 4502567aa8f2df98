/** Values shared by every route handler: an optional value, and the outcome of
    a request, which is either a payload or one of the ways a handler stops early. */
module Common {

  datatype Option<T> = None | Some(value: T) {

    /** The wrapped value, or `default` when there is none. */
    function GetOr(default: T): T {
      match this
      case Some(v) => v
      case None => default
    }
  }

  /** Why a handler answered with status 400 itself. */
  datatype Reason =
    | MissingParams    // the "PARAM(s) ... MISSING IN REQ." and "Not enough parmeters" answers
    | UnparsableDate   // "UNABLE TO PARSE DATE"
    | RecordNotFound   // "RECORD NOT FOUND"

  /** An exception a handler raises without catching it. */
  datatype Exception =
    | KeyError(key: string)  // a request field read with `[...]` that is not there
    | TypeError              // subscripting the `None` that a failed catalog lookup gives

  datatype Failure = BadRequest(reason: Reason) | Raised(error: Exception)

  /** What a handler produces: its payload, or the failure that ended it. */
  datatype Result<T> = Ok(value: T) | Err(failure: Failure)
}
