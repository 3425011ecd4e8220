/** Small value wrappers shared by the pipeline modules. */
module Wrappers {

  /** A value that may be absent (a JavaScript field that is `undefined`). */
  datatype Option<+T> = None | Some(value: T)

  /** The outcome of a step that can throw: its value, or the error it threw. */
  datatype Result<+T> = Ok(value: T) | Err(error: string)

  function Min(a: int, b: int): int
  {
    if a <= b then a else b
  }
}
