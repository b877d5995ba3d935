/** Optional values and the failure results of a controller action. */
module Outcomes {

  /** A value that may be absent: a nullable column or an omitted request field. */
  datatype Option<+T> = None | Some(value: T)

  /** The two ways a request is rejected: `findOrFail` on an unknown id (a 404),
      or a validation rule that refuses the input. A rejected request changes nothing. */
  datatype Error = NotFound | ValidationFailed

  /** The outcome of a mutating action: the new state, or the error that aborted it. */
  datatype Result<+T> = Ok(value: T) | Err(error: Error)

  /** The elements of an option, as a set of zero or one element. */
  function OptionSet<T>(o: Option<T>): set<T> {
    if o.Some? then {o.value} else {}
  }
}
