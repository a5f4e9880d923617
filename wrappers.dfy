/** The optional value the Rust source writes as `Option<T>`. */
module Wrappers {

  datatype Option<+T> = None | Some(value: T) {

    /** `unwrap_or`: the carried value, or `default` when there is none. */
    function GetOr(default: T): T {
      match this
      case Some(v) => v
      case None => default
    }
  }
}
