/** The two kinds of failure of the codec and the builders, and the
    result types that carry them instead of exceptions. */
module Wrappers {

  /** Why wire bytes, a field or a name were refused (each is a FormatException). */
  datatype FormatReason =
    | Truncated         // the buffer ends inside a field, a label or a pointer
    | PointerLoop       // a pointer that returns to the start or to a target already followed
    | NotOneField       // unpack_one was given a format with other than one field
    | ValueTooWide      // a value does not fit the width it is packed into
    | EmptyLabel        // `test..com`
    | LabelTooLong      // a label of more than 63 characters
    | NameTooLong       // a name of more than 253 characters
    | IllegalCharacter  // a character that may not appear in a label

  datatype Error =
    | FormatException(reason: FormatReason)
    | DnscatException(message: string)

  /** The message of the capacity error raised by every builder. */
  const TooMuchData: string := "too much data"

  datatype Result<T> = Success(value: T) | Failure(error: Error)

  datatype Outcome = Pass | Fail(error: Error)

  datatype Option<T> = None | Some(value: T)
}
