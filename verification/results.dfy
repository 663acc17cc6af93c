/** Optional values, results, and the error conditions the keycap-legend
    pipeline can raise.  A Python exception that escapes an operation becomes
    an `Err`; a value the source leaves as `None` becomes `None`. */
module Results {

  datatype Option<+T> = None | Some(value: T) {

    /** The value, or `default` when there is none. */
    function GetOr(default: T): T {
      match this
      case Some(v) => v
      case None => default
    }
  }

  /** Failure-compatible result: `:-` propagates an `Err`. */
  datatype Result<+T, +E> = Ok(value: T) | Err(error: E) {

    predicate IsFailure() {
      Err?
    }

    function PropagateFailure<U>(): Result<U, E>
      requires Err?
    {
      Err(error)
    }

    function Extract(): T
      requires Ok?
    {
      value
    }
  }

  /** The exceptions of the source that escape to a caller. */
  datatype Error =
    | NoParent                    // alt_for lookup on a keyset that was never given a parent
    | ChainedAltFor               // alt_for names a keyset that itself has an alt_for
    | NoTable                     // the glyph table was None and was then used as a list
    | NoLength                    // neither a truthy length nor a key table: len(None)
    | IndexOutOfRange             // a negative glyph index that reaches before the table
    | UnknownAxis                 // a direction whose axis letter is not x, y or z
    | MissingKey                  // a cache delete of a key the cache does not hold
    | MissingField(field: string) // a JSON object lacks a field the source reads
    | WrongType(field: string)    // a JSON value of a shape the metadata schema excludes
}
