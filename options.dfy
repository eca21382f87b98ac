/** An optional value: a key that a preference store may or may not hold. */
module Options {

  datatype Option<T> = None | Some(value: T) {

    /** The held value, or `default` when there is none (the second argument of `getLong`). */
    function GetOr(default: T): T {
      match this
      case Some(v) => v
      case None => default
    }
  }
}
