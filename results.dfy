// Option and Result: the model's stand-ins for Go's nil-able values and
// (value, error) pairs.
module Results {

  /** A nullable value: `*T` or `sql.NullString` in the Go code. */
  datatype Option<+T> = None | Some(value: T) {

    /** The value, or `default` when absent (`sql.NullString.String` reads "" for NULL). */
    function GetOr(default: T): T {
      match this
      case Some(v) => v
      case None => default
    }
  }

  /** A `(T, error)` pair in which exactly one side is meaningful. */
  datatype Result<+T, +E> = Ok(value: T) | Err(error: E)
}
