/** The optional value used for fields the handlers report as JSON `null`. */
module Wrappers {

  datatype Option<+T> = None | Some(value: T) {

    /** The carried value, or `default` for a missing field, as a JSON
        object's `get(key, default)` reads it. */
    function GetOr(default: T): T {
      if Some? then value else default
    }
  }
}
