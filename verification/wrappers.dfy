/** The optional-value type used throughout the model, in the role Rust's
    `Option` plays in the firmware. */
module Wrappers {

  datatype Option<+T> = None | Some(value: T)
}
