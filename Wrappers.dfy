/** The optional value used across the model: a JavaScript value that may be
    `undefined` or `null`, or a search that may find nothing. */
module Wrappers {
  datatype Option<T> = None | Some(value: T)
}
