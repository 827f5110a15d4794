/** The optional value used throughout the model (JavaScript's `null` / `undefined`). */
module Wrappers {
  datatype Option<+T> = None | Some(value: T)
}
