/** The exceptions the list raises, and the values its operations return instead of raising. */
module Outcomes {

  /** The exception classes the list operations can raise. */
  datatype Error =
    | TypeError       // a non-integer index, or calling an absent back link
    | IndexError      // an index out of range, or a value that is not found
    | ValueError      // a search direction other than "left" or "right"
    | AttributeError  // an attribute read or written on an absent node

  /** The result of an operation that returns a value or raises. */
  datatype Result<+T> = Ok(value: T) | Err(error: Error) {
    /** The same outcome with the returned value dropped. */
    function Status(): Outcome {
      match this
      case Ok(_) => Pass
      case Err(e) => Fail(e)
    }
  }

  /** The result of an operation that returns nothing or raises. */
  datatype Outcome = Pass | Fail(error: Error)

  /** An index argument: an integer, or a value of any other type. */
  datatype IndexArg = Int(value: int) | NotInt
}
