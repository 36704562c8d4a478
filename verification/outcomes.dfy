/**
 * Values and outcomes shared by the whole model: the nullable reference
 * (Java's `null` / `Optional.empty()`), the failure raised by the database
 * layer, and the distinct error kinds the todo service raises.
 */
module Outcomes {

  /** A value that may be absent: a nullable field, an `Optional`, or a `null` argument. */
  datatype Option<+T> = None | Some(value: T) {
    /** The value if present, otherwise `default` (`Optional.orElse`). */
    function GetOr(default: T): T {
      match this
      case Some(v) => v
      case None => default
    }
  }

  /** A failure thrown by the persistence layer (a `DataAccessException`); only its reason is kept. */
  datatype StoreFailure = StoreFailure(reason: string)

  /** The outcome kinds a caller of the service or the scheduler can tell apart. */
  datatype TodoError =
    /** No item is stored under the requested id (an empty `Optional`, not an exception). */
    | NotFound
    /** `IllegalStateException("Cannot update a past due item")`. */
    | Locked
    /** `InvalidStatusException`: the status text is absent, unknown, or not client-settable. */
    | InvalidStatus(text: Option<string>)
    /** `TodoSchedulerUpdateException`: the bulk update of the sweep failed; keeps the cause. */
    | SchedulerFailed(message: string, cause: StoreFailure)

  /** Either a value or one of the error kinds above. */
  datatype Result<+T> = Ok(value: T) | Err(error: TodoError)

  /** Message of the scheduler's wrapping exception. */
  const SchedulerFailureMessage: string := "Failed to update past due items"
}
