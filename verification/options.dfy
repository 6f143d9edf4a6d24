/** The optional result used wherever the source returns a null pointer or
    has no defined value: an absent child, an unassigned node value, a key
    that is not in a dictionary. */
module Options {

  datatype Option<+T> = None | Some(value: T) {

    /** The wrapped value, or `default` when there is none. */
    function GetOr(default: T): T {
      match this
      case Some(v) => v
      case None => default
    }
  }
}
