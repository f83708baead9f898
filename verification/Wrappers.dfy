/** A value that may be missing: an absent field, a refused request, an error the source raises or returns. */
module Wrappers {
  datatype Option<T> = None | Some(value: T)
}
