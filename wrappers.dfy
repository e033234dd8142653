/** Option and Result, the failure-compatible wrappers used by every parser of the model. */
module Wrappers {

  datatype Option<+T> = None | Some(value: T)

  /** The value of a computation that either succeeds or raises one of the source's exceptions. */
  datatype Result<+T, +E> = Success(value: T) | Failure(error: E) {
    predicate IsFailure() {
      Failure?
    }

    function PropagateFailure<U>(): Result<U, E>
      requires Failure?
    {
      Failure(error)
    }

    function Extract(): T
      requires Success?
    {
      value
    }
  }
}

/** The exceptions of the HTTP core, as one datatype. */
module Failures {

  datatype Failure =
    | IllegalHeader(line: string)   // IllegalHeaderException, carrying the offending line
    | IllegalRequest                // IllegalRequestException
    | UnsupportedCommand            // UnsupportedHTTPCommandException
    | UnsupportedVersion            // UnsupportedHTTPVersionException
    | IllegalResponse               // IllegalResponseException
    | IndexOutOfBounds              // an array index out of range
    | NumberFormat                  // NumberFormatException from Integer.parseInt
    | NegativeArraySize             // `new byte[n]` with n < 0
    | EndOfStream                   // EOFException from DataInputStream.readByte
}
