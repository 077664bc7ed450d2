/** Failure-carrying values shared by every module of the model. */
module Common {

  /** A value that may be absent: JavaScript's `undefined`/`null` beside a present value. */
  datatype Option<+T> = None | Some(value: T)

  /** The outcome of an operation that can throw: the value, or the thrown error's message. */
  datatype Result<+T> = Ok(value: T) | Err(message: string)
}
