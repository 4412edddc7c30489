/** A value that may be absent: an optional command-line option, or a JavaScript
    `undefined`. */
module Wrappers {
  datatype Option<+T> = None | Some(value: T)
}
