/**
 * Shared vocabulary of the puzzle solutions: the single error kind of the grid
 * engine, result wrappers for operations that can fail, and the two-valued
 * puzzle-half selector every `Solve` receives.
 */
module Common {

  /** The only error the board layer reports. */
  datatype Error = OutOfBounds

  /** A value, or the error that prevented computing it. */
  datatype Result<T> = Ok(value: T) | Err(error: Error) {
    /** The value, or `default` on error (Go's zero value returned next to an error). */
    function GetOr(default: T): T {
      match this
      case Ok(v) => v
      case Err(_) => default
    }
  }

  /** The result of an operation that only reports success or an error. */
  datatype Outcome = Success | Failure(error: Error)

  datatype Option<T> = None | Some(value: T)

  /** Which half of a puzzle to solve. */
  datatype Part = Part1 | Part2
}
