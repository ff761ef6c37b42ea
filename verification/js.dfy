/** The two JavaScript outcomes the flow branches on: a value that may be `undefined`, and a call that may throw. */
module Js {

  /** A value, or `undefined` (which the source's `!= null` and `=== undefined` tests reject). */
  datatype Maybe<+T> = Undefined | Defined(value: T)

  /** A call that returned a value, or threw the given error. */
  datatype Completion<+T, +E> = Returned(value: T) | Threw(error: E)
}
