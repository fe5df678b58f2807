// A value that may be missing: a `null` or `undefined` in the program, an optional field of a
// JSON body, a regular expression that finds nothing, a decoder that rejects its input.
module Wrappers {

  datatype Option<+T> = None | Some(value: T)
}
