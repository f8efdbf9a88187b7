/** Failure-carrying datatypes shared by the rest of the model. */
module Outcomes {

  /** An optional value: JavaScript's absent (`undefined`/`null`) argument versus a present one. */
  datatype Option<+T> = None | Some(value: T)

  /** The outcome of an engine call: a value, or the error the engine reported. */
  datatype Result<+T, +E> = Ok(value: T) | Err(error: E)
}
