/** Option and Result values used for the pipeline's missing cells and fatal errors. */
module Wrappers {

  /** A cell that may be missing (pandas NaN). */
  datatype Option<+T> = None | Some(value: T)

  /** The outcome of a stage that can abort the whole batch. */
  datatype Result<+T, +E> = Ok(value: T) | Err(error: E)
}
