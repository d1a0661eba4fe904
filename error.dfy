/** The library's error type and the outcome of a codec call. */
module Errors {

  /** `HammingError`: its one variant, "unable to decode". */
  datatype Error = Decode

  /** What `encode` and `decode` produce: `Ok`, the `Err` they return, or
      `Panic` for an `unwrap()` on a bit index past the end of the buffer. */
  datatype Outcome<T> = Ok(value: T) | Err(error: Error) | Panic
}
