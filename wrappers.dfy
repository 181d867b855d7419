/** The optional value used throughout the model: `None` stands for Go's nil
    pointer, an absent key, or a lookup that did not finish. */
module Wrappers {

  datatype Option<+T> = None | Some(value: T) {

    /** The value, or `default` when there is none. */
    function GetOr(default: T): T {
      match this
      case Some(v) => v
      case None => default
    }
  }
}
