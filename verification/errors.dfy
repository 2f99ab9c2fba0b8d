/** Failure kinds of the library and the Result type every fallible operation returns.
    Each Java exception the core can throw on an input it does not accept becomes one
    Error constructor; the model never throws. */
module Errors {

  datatype Error =
    | IllegalArgument    // IllegalArgumentException: a parameter the operation refuses
    | IllegalState       // IllegalStateException: wrong lifecycle state, or a counter underflow
    | ReadOnly           // UnsupportedOperationException: mutation of a read-only buffer
    | IndexOutOfBounds   // IndexOutOfBoundsException thrown by an array or a java.nio buffer
    | BufferOverflow     // BufferOverflowException of a relative java.nio put
    | NullPointer        // NullPointerException on a missing argument
    | DataLength         // DataLengthException: the input buffer is too short
    | OutputLength       // OutputLengthException: the output buffer is too short
    | MaxBytesExceeded   // MaxBytesExceededException: the per-nonce keystream limit
    | Arithmetic         // ArithmeticException: an integer division by zero
    | OutOfMemory        // OutOfMemoryError raised by a growth request that is too large
    | EndOfStream        // Exception("EOF") of a short read
    | NegativeArraySize  // NegativeArraySizeException: `new byte[n]` with a wrapped-negative n

  /** The outcome of a fallible operation: a value, or the error that ended it. */
  datatype Result<+T> = Ok(value: T) | Err(error: Error) {

    predicate IsFailure() {
      Err?
    }

    function PropagateFailure<U>(): Result<U>
      requires Err?
    {
      Err(error)
    }

    function Extract(): T
      requires Ok?
    {
      value
    }
  }

  /** Nothing to return beyond success or the error. */
  datatype Outcome = Pass | Fail(error: Error) {

    predicate IsFailure() {
      Fail?
    }

    function PropagateFailure<U>(): Result<U>
      requires Fail?
    {
      Err(error)
    }
  }

  function Need(condition: bool, error: Error): (r: Outcome)
    ensures r.Pass? <==> condition
  {
    if condition then Pass else Fail(error)
  }

  /** A value that may be missing: Java's null reference. */
  datatype Option<+T> = None | Some(value: T)
}
