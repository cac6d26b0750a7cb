/** The absent-or-present value used wherever the server reads a field that a
    client may leave out, or a lookup that may miss. */
module Options {
  datatype Option<+T> = None | Some(value: T) {
    function GetOr(default: T): T {
      match this
      case Some(v) => v
      case None => default
    }
  }
}
