/** The optional value used wherever the source has `null` or an event that
    may or may not be emitted. */
module Wrappers {
  datatype Option<+T> = None | Some(value: T)
}
