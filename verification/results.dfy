/** Failure-carrying values used by the company service model.

    Every operation of the service either completes or raises an exception
    and leaves the company untouched; here the exception is a `Result.Err`
    naming which validation failed. */
module Results {

  /** An optional value: the model of a nullable reference or of `DateTime?`. */
  datatype Option<T> = None | Some(value: T)

  /** The ways an operation of the service can fail. All of them are the
      service's own `CompanyException` except `DateOutOfRange`, which stands
      for the `ArgumentOutOfRangeException` that `DateTime.AddDays` raises
      when a midnight split would need the day after 9999-12-31. */
  datatype CompanyError =
    | UnknownEmployee    // no employee carries the id
    | InvalidStartDate   // a new contract starts before the latest one
    | AlreadyRemoved     // the latest contract is already closed
    | EndNotAfterStart   // a removal date not after the latest contract's start
    | InvalidHours       // negative hours
    | InvalidMinutes     // minutes outside 0..59
    | Overtime           // more than 8h00m in one report
    | NoContractAt       // no contract covers the reported instant
    | DateOutOfRange     // the day after the last representable date
    | InvalidPeriod      // report period whose start is not before its end

  /** The outcome of an operation: a value, or the error it raised. */
  datatype Result<T> = Ok(value: T) | Err(error: CompanyError)
}
