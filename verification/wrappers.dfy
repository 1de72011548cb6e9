/** The optional-value type shared by the relay's modules. */
module Wrappers {

  /** `None` stands for "absent" (an optional envelope field, or a frame that
      did not parse); `Some(v)` carries the value. */
  datatype Option<+T> = None | Some(value: T)
}
