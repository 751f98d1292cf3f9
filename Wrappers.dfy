/** Option and Result values standing in for Go's nil checks and `error` returns. */
module Wrappers {

  datatype Option<+T> = None | Some(value: T)

  /** A Go `(value, error)` pair where exactly one side is meaningful. */
  datatype Result<+T, +E> = Ok(value: T) | Err(error: E)

  /** The message `errors.Wrapf(cause, msg)` produces: the context, a colon, then the cause. */
  function Wrap(msg: string, cause: string): (r: string)
    ensures |r| == |msg| + 2 + |cause|
    ensures r[..|msg|] == msg && r[|msg| + 2..] == cause
  {
    msg + ": " + cause
  }
}
