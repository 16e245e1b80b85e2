/** Option type shared by the modules of this model. */
module Wrappers {

  /** A value that may be absent; stands in for a NULL pointer or "nothing to publish". */
  datatype Option<+T> = None | Some(value: T)
}
