/** Failures the index map reports. Every one of them is a `std::out_of_range`
    in the header; the constructor names the message it carries. */
module Errors {

  datatype Error =
    | TooLarge          // inserting would exceed max_size()
    | WouldBeTooLarge   // growing the key space past max_size()
    | InvalidKey        // a key that is not (or never was) issued
    | InvalidIndex      // a dense index outside the checked range

  /** The `what()` text of the exception thrown for `e`. */
  function Message(e: Error): string
  {
    match e
    case TooLarge => "Index map is too large."
    case WouldBeTooLarge => "Index map would be too large."
    case InvalidKey => "Invalid index map key."
    case InvalidIndex => "Invalid index map index."
  }

  /** The result of an operation that returns a value or throws. */
  datatype Result<+R> = Ok(value: R) | Err(error: Error)

  /** The result of an operation that returns nothing or throws. */
  datatype Outcome = Pass | Fail(error: Error)
}
