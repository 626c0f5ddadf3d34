/** The optional-value wrapper used throughout the model: `None` stands for
    JavaScript's `null`/`undefined` where the source returns or stores "nothing". */
module Wrappers {

  datatype Option<+T> = None | Some(value: T) {

    /** The wrapped value, or `default` when there is none. */
    function GetOr(default: T): T {
      match this
      case Some(v) => v
      case None => default
    }
  }
}
