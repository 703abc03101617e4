/** The failures the search server reports. The C++ code throws
    std::invalid_argument or std::out_of_range with a message; here each
    throw site is one constructor, so callers can tell them apart. */
module Errors {

  datatype Error =
    | InvalidStopWord(word: string)      // a stop word with a control character
    | DuplicateId                        // AddDocument with an id already stored
    | NegativeId                         // AddDocument with an id below zero
    | InvalidDocumentWord(word: string)  // a document word with a control character
    | InvalidQueryWord(word: string)     // a query word with a control character
    | EmptyMinusWord                     // a query word that is exactly "-"
    | DoubleMinus                        // a query word that starts with "--"
    | IndexOutOfRange                    // GetDocumentId outside [0, count)
    | DocumentNotFound                   // MatchDocument on an unknown id

  /** The value of an operation that returns something or throws. */
  datatype Result<T> = Ok(value: T) | Err(error: Error)

  /** The value of an operation that returns nothing or throws. */
  datatype Outcome = Pass | Fail(error: Error)
}
