/** Outcomes of the operations of the index processor that can abort with a Python exception. */
module Outcomes {

  /** `Ok` carries the value the Python code returns; `Err` names the exception it raises instead. */
  datatype Result<+T, +E> = Ok(value: T) | Err(error: E)

  /** A value that may be absent, as Python's `None`. */
  datatype Option<+T> = None | Some(value: T)
}
