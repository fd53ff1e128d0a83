/** Failure-carrying values shared by both halves of the model. */
module Wrappers {

  /** A value that may be absent. */
  datatype Option<+T> = None | Some(value: T)

  /** The outcome of an operation that can fail with an error of type `E`. */
  datatype Result<+T, +E> = Ok(value: T) | Err(error: E)

  /** A numpy float as the analysis script uses it: a finite real or NaN
      (what `np.median` and `np.mean` return for an empty list). */
  datatype Num = Finite(v: real) | NaN
}
