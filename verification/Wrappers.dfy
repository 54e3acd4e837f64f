/** A value that may be missing: the sources' NULL results and nothing-pending states. */
module Wrappers {
  datatype Option<T> = None | Some(value: T)
}
