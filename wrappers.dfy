/** The optional value used wherever the launcher reads a key that may be missing
    or calls something that may fail. */
module Wrappers {
  datatype Option<+T> = None | Some(value: T) {
    /** The value, or `default` when there is none: Python's `d.get(key, default)`. */
    function GetOr(default: T): T
    {
      if Some? then value else default
    }
  }
}
