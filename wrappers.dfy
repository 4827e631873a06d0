/** The "not found" sentinel of the store (JavaScript's `undefined`). */
module Wrappers {

  datatype Option<+T> = None | Some(value: T)

}
