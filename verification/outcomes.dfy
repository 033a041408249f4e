/** Failure values of the pre/post-processing core. Every exception the
    Java code can throw on its own inputs becomes one `Error` value, and
    every operation that can throw returns a `Result`. */
module Outcomes {

  datatype Error =
    | ShapeNotFourD          // input shape does not have exactly four dimensions
    | LayoutNotInferable     // neither dimension 3 nor dimension 1 is 1 or 3
    | NonPositiveTargetSize  // the bitmap scaler rejects a width or height <= 0
    | UnsupportedDtype       // tensor type other than FLOAT32, UINT8 or INT8
    | NegativeCapacity       // a direct buffer cannot be allocated with a negative size
    | BufferOverflow         // more bytes written than the buffer holds
    | BufferSizeMismatch     // capacity differs from batch*channels*height*width*bytes
    | IndexOutOfBounds       // an array access outside its bounds

  datatype Result<+T> = Ok(value: T) | Err(error: Error) {

    predicate IsFailure() {
      Err?
    }

    function PropagateFailure<U>(): Result<U>
      requires Err?
    {
      Err(error)
    }

    function Extract(): T
      requires Ok?
    {
      value
    }
  }
}
