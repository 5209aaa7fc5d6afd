/** Failure-compatible wrappers and the exceptions the reader raises, as values. */
module Outcomes {

  datatype Option<+T> = None | Some(value: T)

  datatype Result<+R, +E> = Success(value: R) | Failure(error: E)

  /** The Java exceptions of the reader, by kind, with the message the source gives them. */
  datatype ReaderError =
    | IllegalArgument(message: string)
    | IllegalState(message: string)
    | NoSuchElement(message: string)
    // a ConnectException wrapping an IOException; `context` is the message the source adds, if any
    | ConnectException(context: Option<string>)
    // an IOException raised while opening the container (not wrapped)
    | IOException
    // a null value met by Collectors.toMap
    | NullPointer
}
