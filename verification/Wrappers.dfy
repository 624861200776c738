/** The two result types shared by the models of the repository's scripts. */
module Wrappers {
  /** Python's `X | None`. */
  datatype Option<+T> = None | Some(value: T)

  /** A value, or the refusal (a raised exception or a SystemExit) that replaced it. */
  datatype Result<+T, +E> = Ok(value: T) | Err(error: E)
}
