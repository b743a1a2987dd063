/** A value that may be missing: a null pointer, a failed lookup, a refused step. */
module Options {
  datatype Option<+T> = None | Some(value: T) {
    function GetOr(default: T): T {
      if Some? then value else default
    }
  }
}
