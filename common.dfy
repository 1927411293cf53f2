/** Vocabulary shared by the request handlers: optional request fields,
    HTTP statuses and the `{ error }` replies. */
module Common {

  /** A request field that may be absent (`undefined` in the request body). */
  datatype Option<+T> = None | Some(value: T) {
    function GetOr(default: T): T {
      match this
      case Some(v) => v
      case None => default
    }
  }

  /** An error reply: its status and the text of its `{ error }` body. */
  datatype Failure = Failure(status: int, message: string)

  /** What a handler answers: a success status with its body, or a failure. */
  datatype Reply<+T> = Ok(status: int, value: T) | Error(failure: Failure)

  const StatusOk := 200
  const StatusCreated := 201
  const StatusBadRequest := 400
  const StatusUnauthorized := 401
  const StatusForbidden := 403
  const StatusNotFound := 404
  const StatusInternalError := 500

  const InternalErrorMessage := "Internal Server Error"

  /** The catch-all reply of every handler's `catch` branch. */
  const InternalError := Failure(StatusInternalError, InternalErrorMessage)

  /** JavaScript truthiness of a string field of a request: present and not empty. */
  predicate Present(s: Option<string>) {
    s.Some? && s.value != ""
  }
}
