/** The `Option` type Rust uses for "a value, or nothing": the result of
    `Iterator::next`, and of the checked integer arithmetic in `Timestamp`. */
module Wrappers {

  datatype Option<+T> = None | Some(value: T)
}
