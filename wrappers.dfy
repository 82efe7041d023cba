/** The optional-value datatype shared by the modules of the model. */
module Wrappers {

  /** Either a value or nothing: a fetch that raised, a regex that did not match, a missing key. */
  datatype Option<+T> = None | Some(value: T) {

    /** The wrapped value, or `default` when there is none. */
    function GetOr(default: T): T {
      match this
      case Some(v) => v
      case None => default
    }
  }
}
