/** Small failure-carrying datatypes shared by the modules of the model. */
module Wrappers {

  datatype Option<+T> = None | Some(value: T)

  /** The outcome of a run that can be aborted by an I/O error (Rust's `?` on an `io::Result`). */
  datatype Result<+T> = Ok(value: T) | IoError
}
