/** Optional values: a field the upstream JSON may leave out. */
module Wrappers {

  datatype Option<+T> = None | Some(value: T) {

    /** The value when present, the given default otherwise. */
    function GetOr(default: T): T {
      match this
      case Some(v) => v
      case None => default
    }
  }
}
