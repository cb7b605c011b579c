/** Optional values, the service-level error taxonomy and the result of an
    operation that may fail. Every service operation of the model returns one
    of these instead of throwing. */
module Outcomes {

  /** A value that may be absent: Java's `Optional` and nullable references. */
  datatype Option<+T> = None | Some(value: T)

  /** The exceptions the services raise, one constructor per exception class. */
  datatype Error =
    | NotFound             // NotFoundException
    | ItemUnavailable      // ItemUnavailableException
    | InvalidBookingTime   // InvalidBookingTimeException
    | BookingStatus        // BookingStatusException
    | Authorization        // AuthorizationUserException

  /** Either the value an operation returns or the exception it throws. */
  datatype Result<+T> = Ok(value: T) | Err(error: Error)

  /** The state a mutating operation leaves behind, together with its result. */
  datatype Outcome<+S, +T> = Outcome(state: S, result: Result<T>)
}
