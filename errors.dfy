/** Failure values of the formatting engine.

    The source reports every failure by throwing; here each distinct throw
    site (or undefined case) is one constructor of `Error`, and operations
    that can fail return a `Result` or an `Outcome`. */
module Errors {

  datatype Error =
    // Thrown as FormatError by the specifier parser.
    | InvalidPositionChar      // a non-digit before the first ':'
    | InvalidCharAfterColon    // the character after ':' is neither a letter nor a digit
    | InvalidNumberChar        // a non-digit inside a number handed to to_number
    | InvalidLayout            // the trailing layout character is not one of xobfcp
    // Thrown as a plain std::runtime_error (not a FormatError) by the parser.
    | UnexpectedTrailing       // characters after the layout character
    // Thrown as FormatError by the scanner and the render loop.
    | MissingClosingBrace      // a '{' and no '}' anywhere in the remaining text
    // Thrown as FormatError by the validator.
    | TooFewArguments          // fewer placeholders than arguments, or a position >= arity
    | NotEnoughArguments       // a slot beyond the largest position or the arity (never raised)
    | PositionsUnused          // a position below the largest one is never referenced
    // Thrown as std::out_of_range by std::array::at.
    | SlotOverflow             // more placeholders than the 3 * arity specifier slots
    | ArgumentOutOfRange       // a resolved position with no bound argument
    // Undefined behaviour in the source, made an explicit failure here.
    | StrayClosingBrace        // a '}' before the next '{' during the scan (length underflow)
    | ShiftOutOfRange          // a hex width whose shift exceeds the promoted integer width

  datatype Result<+T> = Ok(value: T) | Err(error: Error)

  /** The result of a check that produces nothing but may fail. */
  datatype Outcome = Pass | Fail(error: Error)

  datatype Option<+T> = None | Some(value: T)
}
