/** Optional values: Ruby's `nil` on one side, a present value on the other. */
module Wrappers {

  datatype Option<+T> = None | Some(value: T) {

    /** Ruby's `a || b` when `a` is a string or nil: the first present value wins. */
    function Or(other: Option<T>): Option<T> {
      if Some? then this else other
    }

    /** The value, or `default` when there is none. */
    function GetOr(default: T): T {
      if Some? then value else default
    }
  }
}
