/** The Option type used for JavaScript's `null` / `undefined` and for optional choices. */
module Wrappers {

  datatype Option<+T> = None | Some(value: T)
}
