/**
 The Customer record and the errors that travel between the layers.
 Errors are a chain: every `fmt.Errorf("<context>: %w", cause)` adds one
 Wrapped link, and errors.Is looks through the links.
 */
module Models {
  import opened Dates

  /** A 128-bit UUID. */
  newtype Uuid = n: int | 0 <= n < 0x1_0000_0000_0000_0000_0000_0000_0000_0000

  /** An instant, in nanoseconds after Go's zero time 0001-01-01 00:00:00 UTC. */
  datatype Timestamp = Timestamp(nanos: int)

  /** The zero value of time.Time. */
  const ZeroTime := Timestamp(0)

  /** models.Customer: one row of the customers table. */
  datatype Customer = Customer(
    id: Uuid,
    firstName: string,
    lastName: string,
    gender: string,
    timezone: string,
    birthday: Date,
    userId: Uuid,
    createdAt: Timestamp
  )

  /** The rules a payload can break, one per error message of the validators. */
  datatype Violation =
    | FirstNameRequired
    | FirstNameTooLong
    | LastNameRequired
    | LastNameTooLong
    | GenderRequired
    | GenderInvalid
    | BirthdayRequired
    | BirthdayFormat
    | BirthdayInFuture
    | BirthdayTooOld
    | UserIdRequired

  /**
   An error value. A validator's errors.New is recorded by the rule it names;
   Dto.CreateMessage and Dto.UpdateMessage give its text.
   */
  datatype Error =
    | Invalid(rule: Violation)              // errors.New in a validator
    | UuidSyntax                            // the error uuid.Parse returns
    | DateSyntax                            // the error time.Parse returns
    | UserNotFound                          // storage.ErrUserNotFound
    | DuplicateKey                          // the driver's unique-violation error
    | Driver(message: string)               // any other error from the database driver
    | Wrapped(context: string, cause: Error) // fmt.Errorf("<context>: %w", cause)

  /** The error at the end of the chain, the one no fmt.Errorf wrapped around anything. */
  function RootCause(e: Error): (root: Error)
    ensures !root.Wrapped?
  {
    match e
    case Wrapped(_, cause) => RootCause(cause)
    case _ => e
  }

  /**
   errors.Is(e, storage.ErrUserNotFound): the sentinel is found through any
   number of wraps, so only the root of the chain decides.
   */
  predicate IsNotFound(e: Error) {
    match e
    case UserNotFound => true
    case Wrapped(_, cause) => IsNotFound(cause)
    case _ => false
  }

  /** errors.Is finds the sentinel exactly when it is the root of the wrap chain. */
  lemma {:induction false} NotFoundIsRootCause(e: Error)
    ensures IsNotFound(e) <==> RootCause(e) == UserNotFound
  {
    match e
    case Wrapped(_, cause) => NotFoundIsRootCause(cause);
    case _ =>
  }
}
