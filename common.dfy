/** Shared vocabulary of the task tracker: calendar days, optional values,
    the error outcomes of the HTTP endpoints and their status codes. */
module Common {

  /** A calendar date, as a day number (day 0 is an arbitrary epoch). */
  type Date = int

  datatype Option<T> = None | Some(value: T)

  /** Input constraints that the request-body validation can report. */
  datatype Fault = PasswordTooShort | TextTooLong | DateNotInFuture

  /** Every way a request can fail. */
  datatype Error =
    | Invalid(faults: set<Fault>)   // request-body validation, one entry per failing field
    | UserExists                    // "User already exists"
    | TaskNotFound                  // "Task not found"
    | NotYourTask                   // "You can change only yours tasks"
    | UnknownUser                   // "User with this username doesn't exist"
    | IncorrectPassword             // "Incorrect password"
    | ForeignKeyViolation           // the store refuses a task whose owner is not a user

  datatype Result<T> = Ok(value: T) | Err(error: Error)

  /** The HTTP status code each error is reported with: 404 only for a
      missing task, 400 only for an unknown login, 500 only for a refusal by
      the store itself, and 422 for every other refusal of the request. */
  function Status(e: Error): (code: int)
    ensures code in {400, 404, 422, 500}
    ensures code == 404 <==> e == TaskNotFound
    ensures code == 400 <==> e == UnknownUser
    ensures code == 500 <==> e == ForeignKeyViolation
    ensures code == 422 <==> e.Invalid? || e in {UserExists, NotYourTask, IncorrectPassword}
  {
    match e
    case Invalid(_) => 422
    case UserExists => 422
    case TaskNotFound => 404
    case NotYourTask => 422
    case UnknownUser => 400
    case IncorrectPassword => 422
    case ForeignKeyViolation => 500
  }
}
