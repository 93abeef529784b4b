/**
  Outcomes of the advantage computation. The Python code signals its failures
  by raising (a failed `assert` on the critic's output shape, an index past the
  end of the value tensor); here they are values.
*/
module Outcome {

  /** Why an advantage computation stopped. */
  datatype Error =
    | ValuesShapeMismatch   // `assert values.shape == q_values.shape` failed
    | LookaheadOutOfRange   // `values[i+1]` read one past the end of the batch

  datatype Result<T> = Ok(value: T) | Err(error: Error)
}
