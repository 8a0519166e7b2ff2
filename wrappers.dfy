/** Option, the stand-in for Go's nil pointers and TypeScript's `undefined`. */
module Wrappers {

  datatype Option<+T> = None | Some(value: T)
}
