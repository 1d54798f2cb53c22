/** The optional value used wherever the source has `undefined`, a missing storage key or NaN. */
module Wrappers {
  datatype Option<+T> = None | Some(value: T)
}
