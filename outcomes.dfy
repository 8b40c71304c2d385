/** Error conditions of the encoder core and the result types that carry them.
    The source signals these by throwing; here an operation that can fail
    returns a Result instead. */
module Outcomes {

  /** DimensionMismatch: a matrix operation got operands of the wrong shape.
      EmptyQueue: a priority queue was asked for its head while empty. */
  datatype Error = DimensionMismatch | EmptyQueue

  datatype Result<+R> = Success(value: R) | Failure(error: Error)

  datatype Option<+X> = None | Some(value: X)
}
