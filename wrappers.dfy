/** An optional value: a regular-expression search that may find nothing,
    a dictionary lookup that may miss. */
module Wrappers {
  datatype Option<T> = None | Some(value: T)
}
