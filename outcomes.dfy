/** Results shared by the model: absent values, and the exceptions that reach a caller. */
module Outcomes {

  /** A value that may be absent (Java's `Optional`, or a Redis `GET` that finds nothing). */
  datatype Option<+T> = None | Some(value: T)

  /** The exceptions of the core that reach a caller, one constructor per cause. */
  datatype Failure =
    | RedisOffsetOutOfRange   // Redis refuses a bit offset outside [0, 2^32)
    | DuplicateKey            // DataIntegrityViolationException: a unique column would repeat
    | MalformedJson           // Jackson could not read a cached payload
    | UserNotFound            // RuntimeException("User Not Found")

  /** Either a value or the exception that was thrown instead. */
  datatype Result<+T> = Ok(value: T) | Err(error: Failure)
}
