/** The exception hierarchy of exceptions/base.py and exceptions/service_exceptions.py
    as one datatype, plus Python's built-in `ValueError` raised by the legacy
    validators and by `Task.edit`, and the built-in `TypeError`. */
module Errors {

  /** Which rule a `ValidationError` reports (the source's messages differ per rule). */
  datatype Violation =
    | TitleEmpty               // not a string, or blank after stripping
    | TitleTooLong             // more than 30 characters
    | TitleTooManyWords        // more than 30 whitespace-separated words
    | DescriptionTooLong       // more than 150 characters
    | DescriptionTooManyWords  // more than 150 whitespace-separated words
    | NameTooManyWords         // project name with more than 30 words
    | StatusInvalid            // not one of todo / doing / done
    | DeadlineFormat           // not parseable as YYYY-MM-DD

  /** Why a built-in `ValueError` was raised. */
  datatype ValueReason =
    | TooLong          // legacy: name/title or description has too many words
    | DuplicateName    // legacy: a project with that name exists
    | LimitReached     // legacy: MAX_PROJECTS / MAX_TASKS reached
    | ProjectMissing   // legacy: no project with that id
    | BadDeadlineText  // Task.edit: deadline string does not parse

  datatype Error =
    | ValidationError(violation: Violation)
    | InvalidDeadlineError          // subclass of ValidationError
    | ProjectNotFoundError
    | TaskNotFoundError
    | ProjectNameExistsError
    | ProjectLimitExceededError
    | TaskLimitExceededError
    | StorageError
    | ValueError(reason: ValueReason)
    | TypeError                     // built-in: ordering a `datetime` against a `date`
  {
    /** `isinstance(e, ValidationError)`. */
    predicate IsValidationError() {
      ValidationError? || InvalidDeadlineError?
    }

    /** `isinstance(e, ToDoError)`: every application error, not the built-ins. */
    predicate IsToDoError() {
      !ValueError? && !TypeError?
    }

    /** Caught by an `except ValueError` clause. A `ValidationError` (and so an
        `InvalidDeadlineError`) derives from `ToDoError`, not `ValueError`, so it
        is never caught here: this is why `Task.edit` does not roll back after one. */
    predicate IsValueError() {
      ValueError?
    }
  }
}
