/** The optional-value type used for Rust's `Option<T>` and for outcomes that
    the Rust code turns into a panic. */
module Wrappers {

  datatype Option<+T> = None | Some(value: T)
}
