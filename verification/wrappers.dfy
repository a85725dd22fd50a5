/** The optional value used wherever the program works with Rust's `Option`
    or collapses a `Result` whose error it ignores. */
module Wrappers {

  datatype Option<+T> = None | Some(value: T)
}
