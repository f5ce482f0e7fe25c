/** The error classes of `errors/handler.ts`: `DatabaseError`, its subclass
    `DatabaseQueryError`, and `toDatabaseError`, which wraps anything thrown
    by the store driver. */
module Errors {
  import opened Wrappers
  import opened Messages

  /** Which class constructed the error (its `name`). A `DatabaseQueryError`
      is a `DatabaseError`: both are values of the one datatype below. */
  datatype ErrorClass = PlainDatabaseError | DatabaseQueryError

  /** A `DatabaseError`: class, message and optional cause. */
  datatype DatabaseError = DatabaseError(kind: ErrorClass, message: Message, cause: Option<Thrown>)

  /** Anything a `catch` can receive: a `DatabaseError`, or some other value
      (a driver exception, say), described by a string. */
  datatype Thrown = Raised(error: DatabaseError) | Foreign(description: string)

  /** `error instanceof DatabaseError`. */
  predicate IsDatabaseError(t: Thrown) {
    t.Raised?
  }

  /** `new DatabaseError(message, cause)`. */
  function NewDatabaseError(message: Message, cause: Option<Thrown>): (e: DatabaseError)
    ensures e.message == message && e.cause == cause
    ensures e.kind == PlainDatabaseError
  {
    DatabaseError(PlainDatabaseError, message, cause)
  }

  /** `new DatabaseQueryError(operation, cause)`. */
  function NewDatabaseQueryError(operation: string, cause: Option<Thrown>): (e: DatabaseError)
    ensures e.message == QueryFailed(operation)
    ensures e.cause == cause && e.kind == DatabaseQueryError
  {
    DatabaseError(DatabaseQueryError, QueryFailed(operation), cause)
  }

  /** `new DatabaseError(message)`: the validation failures the repositories throw. */
  function Rejection(message: Message): (e: DatabaseError)
    ensures e.message == message && e.cause == None
  {
    NewDatabaseError(message, None)
  }

  /** `toDatabaseError(operation, error)`. */
  function ToDatabaseError(operation: string, error: Thrown): (e: DatabaseError)
    ensures IsDatabaseError(error) ==> e == error.error
    ensures !IsDatabaseError(error) ==>
              && e.kind == DatabaseQueryError
              && e.message == QueryFailed(operation)
              && e.cause == Some(error)
  {
    if IsDatabaseError(error) then error.error else NewDatabaseQueryError(operation, Some(error))
  }

  /** Wrapping an already wrapped error changes nothing, whatever the operation. */
  lemma ToDatabaseErrorIdempotent(first: string, second: string, error: Thrown)
    ensures ToDatabaseError(second, Raised(ToDatabaseError(first, error))) == ToDatabaseError(first, error)
  {
  }
}
