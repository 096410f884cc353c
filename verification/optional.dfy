/** The absent-or-present values of the history view: a JSON field that is
    null or missing is None, a field that carries a value is Some. */
module Optional {

  datatype Option<+T> = None | Some(value: T) {

    /** The value when present, the given default otherwise (JavaScript `x ?? d`). */
    function GetOr(default: T): T {
      match this
      case Some(v) => v
      case None => default
    }
  }

  /** JavaScript truthiness of an optional string: present and not empty. */
  predicate Truthy(s: Option<string>) {
    s.Some? && s.value != []
  }
}
