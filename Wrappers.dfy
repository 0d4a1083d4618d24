/** Option and Result, used wherever the source returns "nothing found" or raises. */
module Wrappers {

  datatype Option<+T> = None | Some(value: T)

  datatype Result<+R, +E> = Success(value: R) | Failure(error: E)

  /** The Python exceptions the extraction code lets escape, by class. */
  datatype Raised =
    | AttributeError  // a child element the code reads is missing
    | KeyError        // an attribute the code reads is missing
    | NameError       // a local variable is read before it was ever assigned
    | ValueError      // `time.strptime` rejects its input
    | IndexError      // a list is indexed past its end
}
