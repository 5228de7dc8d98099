/** Shared result types of the authentication core.

    The service reports every failure as an HTTP status with a JSON body
    `{ "message": … }`; `Failure` is that pair. `Result` carries either the
    value an operation produced or the failure it raised.
 */
module Common {

  datatype Option<+T> = None | Some(value: T) {
    function GetOr(default: T): T {
      match this
      case Some(v) => v
      case None => default
    }
  }

  /** An HTTP error response: status code and the `message` field of the body. */
  datatype Failure = Failure(status: int, message: string)

  datatype Result<+T> = Ok(value: T) | Err(failure: Failure) {
    predicate IsFailure() {
      Err?
    }
  }

  /** JavaScript truthiness of an optional string: absent and "" are falsy. */
  predicate Truthy(s: Option<string>) {
    s.Some? && s.value != ""
  }
}
