/** The failures a shell command can end in (shell_exceptions/): the four
    checked exceptions the shell reports by printing their message, plus the
    outcomes the source reaches without meaning to. */
module ShellExceptions {
  import opened JavaText

  datatype ShellException =
    | IncorrectFormat(message: JString)
    | IncorrectCommand(message: JString)
    | OutOfBoundsRes(message: JString)
    | CharSetEmpty(message: JString)
      /** An image file that cannot be read: the shell prints its image
          error message. */
    | ImageUnreadable(message: JString)
      /** An array index past the end; unchecked, so no handler catches it. */
    | IndexOutOfBounds
      /** An integer division by zero; unchecked, so no handler catches it. */
    | DivisionByZero
      /** A method called on an image the shell never loaded; unchecked, so
          no handler catches it. */
    | NullImage

  /** The outcome of a step that either produces a value or throws. */
  datatype Outcome<+T> = Ok(value: T) | Throw(exception: ShellException) {
    predicate IsFailure() { Throw? }
  }

  /** True when the outcome is an exception the shell catches and reports,
      so the session goes on. */
  predicate Reported(e: ShellException) {
    !e.IndexOutOfBounds? && !e.DivisionByZero? && !e.NullImage?
  }
}
