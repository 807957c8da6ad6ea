/** Values that stand for what Python code does when a call either returns
    or raises: `Outcome` is the result of an expression that may raise an
    exception (carrying `str(e)`), `Option` an optional dictionary field. */
module Exceptions {

  /** The result of evaluating a Python expression that may raise. */
  datatype Outcome<+T> = Ok(value: T) | Raised(message: string)

  /** A value that may be absent, such as a key missing from a dictionary. */
  datatype Option<+T> = None | Some(value: T)
}
