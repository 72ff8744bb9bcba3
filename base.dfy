/** The Python values the parsers receive and produce: a table cell, the
    exceptions that can leave a parser, and the Option/Result wrappers that
    turn "no match" and "raised" into ordinary values. */
module Base {

  /** A cell of a column: a Python `str`, or any other object (None, pd.NA,
      a number). The parsers only ever ask whether it is a `str`. */
  datatype Cell = Str(s: string) | NotStr

  datatype Option<+T> = None | Some(value: T)

  /** The exceptions the parsers raise. `IrrecognizableValue` is the
      library's own exception and carries the value that matched no rule;
      the others are Python built-ins. `OtherError` stands for any exception
      raised inside the spreadsheet-date conversion other than ValueError. */
  datatype Error =
    | TypeError(message: string)
    | AssertionError(message: string)
    | ValueError
    | IrrecognizableValue(value: string)
    | OtherError(name: string)

  /** A value, or the exception raised instead of returning it. */
  datatype Result<+T> = Ok(value: T) | Err(error: Error)
}
