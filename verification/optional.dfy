/** A value that may be missing: JavaScript's `undefined` for an absent record
    field, `null` for an unset variable, and `-1` from `findIndex` all map to `None`. */
module Optional {

  datatype Option<+T> = None | Some(value: T) {

    /** The carried value, or `default` when there is none. */
    function GetOr(default: T): (v: T) {
      match this
      case Some(x) => x
      case None => default
    }
  }
}
