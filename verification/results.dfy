/** Outcome types shared by the whole model.

    Go returns `(value, error)` pairs from ordinary functions and calls
    `panic` in the template functions that must stop a render. The model
    keeps the two apart: `Result` is the recoverable error value, `Render`
    is a value or an abort of the surrounding template execution. */
module Results {

  /** A value that may be absent (Go's `ok` flag of a map lookup, a nil map). */
  datatype Option<+T> = None | Some(value: T)

  /** A value or a recoverable error, Go's `(value, error)` pair. */
  datatype Result<+T, +E> = Ok(value: T) | Err(error: E)

  /** A value, or a panic that aborts the whole template execution. */
  datatype Render<+T> = Done(value: T) | Abort(message: string)
}
