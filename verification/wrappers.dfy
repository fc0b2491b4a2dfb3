/** The optional-value datatype used wherever the source raises on a
    missing or malformed value (ValueError, IndexError, KeyError). */
module Wrappers {

  datatype Option<+T> = None | Some(value: T) {

    /** Returns the value in Some, or a default for None */
    function GetOr(default: T): T
    {
      match this
      case Some(v) => v
      case None => default
    }
  }
}
