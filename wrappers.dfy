/** The optional value used for JavaScript's `undefined`/`-1` results (Array.find, findIndex, missing fields). */
module Wrappers {
  datatype Option<+T> = None | Some(value: T)
}
