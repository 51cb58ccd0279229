/** The Option type used where the source has `null`, a thrown exception, or a
    value that may be missing. */
module Wrappers {

  datatype Option<+T> = None | Some(value: T)
}
