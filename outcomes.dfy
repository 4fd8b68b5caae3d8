/**
 * Optional values and Java-style failures.
 *
 * `Option` stands for a reference that may be null; `Result` for a call that
 * either returns a value or throws one of the exceptions the modelled code
 * can raise.
 */
module Outcomes {

  datatype Option<+T> = None | Some(value: T)

  /** The exceptions the modelled code raises or lets escape. */
  datatype Exception =
    | IndexOutOfBounds          // List.get / array index past either end
    | StringIndexOutOfBounds    // String.substring with a bad start index
    | ItemNotFound              // Repository.retrieveItem of a missing path

  datatype Result<+T> = Ok(value: T) | Throws(exception: Exception)
}
