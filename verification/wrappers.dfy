/** An optional value: the model's stand-in for an argument or field that the
    source leaves `null`. */
module Wrappers {

  datatype Option<+T> = None | Some(value: T) {

    /** The held value, or `default` for `None`; reads a `null` argument as
        the value PHP casts it to. */
    function GetOr(default: T): T
    {
      match this
      case Some(v) => v
      case None => default
    }
  }
}
