/** A value that may be absent: a C pointer that may be NULL, or an out-parameter
    that a failing call leaves unset. */
module Optional {
  datatype Option<+T> = None | Some(value: T) {
    function Or(default: T): T {
      if Some? then value else default
    }
  }
}
