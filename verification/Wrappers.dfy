/** The Option type used wherever the source has an optional pointer or an empty result. */
module Wrappers {
  datatype Option<+T> = None | Some(value: T)
}
