/** Small value wrappers shared by every module of the model. */
module Common {

  /** A value that may be absent: JavaScript `undefined`/`null`, Python `None`. */
  datatype Option<T> = None | Some(value: T) {
    function GetOr(default: T): T {
      match this
      case Some(v) => v
      case None => default
    }
  }

  /** The HTTP outcome of a handler: a success, or a 4xx/5xx status with its message. */
  datatype Status = Ok | BadRequest | NotFound | ServerError

  /** Truthiness of an optional text parameter, the same in JavaScript and Python: present and not empty. */
  predicate Truthy(s: Option<string>) {
    s.Some? && s.value != ""
  }
}
