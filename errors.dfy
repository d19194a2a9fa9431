/** Failure signalling shared by the whole model: every exception the library throws
    becomes a value of `Error`, and an operation that returns nothing but may throw
    returns an `Outcome`. */
module Errors {

  /** The kinds of exception the library raises. */
  datatype Error =
    | SizeMismatch      // "Incompatible size" / "Incompatible array size !"
    | IndexOutOfRange   // taking `&x[0]` (or indexing) past the end of an array
    | NotImplemented    // a member whose body throws NotImplementedException
    | InvalidOperation  // transposing an operator whose boundary shifts are not zero

  /** The outcome of an operation that returns nothing or throws. */
  datatype Outcome = Pass | Fail(error: Error)

  /** The outcome of an operation that returns a value or throws. */
  datatype Result<T> = Success(value: T) | Failure(error: Error)
}
