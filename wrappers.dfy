/** Optional values and fallible results, the two shapes the mirror tool's
    functions return (Rust's `Option` and `io::Result`). */
module Wrappers {

  datatype Option<+T> = None | Some(value: T)

  datatype Result<+T, +E> = Ok(value: T) | Err(error: E)
}
