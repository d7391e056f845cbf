/** Python's `None`, and a dictionary key that is missing, as an Option value. */
module Wrappers {

  datatype Option<+T> = None | Some(value: T) {

    /** The value inside Some, or `default` for None (Python's `d.get(key, default)`). */
    function GetOr(default: T): T
    {
      match this
      case Some(v) => v
      case None => default
    }
  }
}
