/** Failure-carrying values shared by every module of the model.  A Rust
    `panic!` (an `unwrap` on `None`, an index out of range, a failed parse)
    aborts the whole operation, so it is modelled as an `Err` that carries
    the reason and no partial result. */
module Wrappers {

  datatype Option<+T> = None | Some(value: T)

  datatype Result<+T, +E> = Ok(value: T) | Err(error: E)
}
