/** Option and Result, the shapes every fallible operation of the model returns. */
module Wrappers {

  datatype Option<+T> = None | Some(value: T)

  datatype Result<+T, +E> = Ok(value: T) | Err(error: E)
}

/**
 * The exceptions the library throws, one constructor per message or exception class.
 */
module Errors {

  datatype Error =
    | Malformed(typeName: string)   // conversion_error "Malformed <type> literal"
    | NegativeDimensions            // conversion_error "Dimensions cannot be negative"
    | IndexOutOfBounds              // conversion_error "Index out of bounds"
    | NotAnInteger(text: string)    // the integer parser rejected `text`
    | NotAFloat(text: string)       // the float parser rejected `text`
    | LengthMismatch                // std::invalid_argument from the SparseVector constructor
    | TooManyEntries                // conversion_overrun: more than 16000 non-zero entries
}
