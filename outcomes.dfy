/** Optional values and the outcome of a service call.
    The three error kinds stand for the exceptions the service and controller throw:
    InvalidInput (ValidationException, InvalidJokeException and bean-validation failures),
    NotFound (JokeNotFoundException) and Conflict (JokeExistsForDateException). */
module Outcomes {

  /** A Java reference that may be null, or a `java.util.Optional`. */
  datatype Option<+T> = None | Some(value: T)

  datatype Error = InvalidInput | NotFound | Conflict

  datatype Result<+T> = Ok(value: T) | Err(error: Error)
}
