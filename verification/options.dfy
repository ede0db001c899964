/** A JavaScript value that may be `null` or `undefined`: an absent index,
    an undefined `materialIndex`, the `null` that `merge` returns. `GetOr`
    is the source's `|| 0` fallback (and `!`, where the value is known to be
    there). */
module Options {

  datatype Option<T> = None | Some(value: T) {

    /** The held value, or `default` when there is none. */
    function GetOr(default: T): T {
      match this
      case Some(v) => v
      case None => default
    }
  }
}
