/** Rust's `Option`, also used for a `Result` whose error carries no data. */
module Wrappers {

  datatype Option<+T> = None | Some(value: T)
}
