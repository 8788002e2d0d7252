/** The error values of the keyv package and the result types that stand in for
    Go's `error` returns. */
module KeyvErrors {

  datatype Error =
    | AdapterNotFound             // ErrAdapterNotFound: no adapter registered under the scheme
    | AdapterNameExists           // ErrAdapterNameExists: the scheme is already registered
    | KeyNotFound(key: string)    // the in-memory adapter's Get on a key it does not hold
    | IOError(key: string)        // a backend failure while accessing `key`
    | CodecError(reason: string)  // a failure reported by the value encoder or decoder

  /** A Go `error` result: `nil` is Pass. */
  datatype Outcome = Pass | Fail(error: Error)

  /** A Go `(T, error)` result pair. */
  datatype Result<+T> = Ok(value: T) | Err(error: Error)

  datatype Option<+T> = None | Some(value: T)
}
