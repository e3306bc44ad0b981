/** Shared vocabulary of the tweet pipeline: optional values, the Python
    exceptions the pipeline raises or catches, results that carry either a
    value or such an exception, and the scalar types for timestamps and
    engagement metrics. */
module Base {

  datatype Option<T> = None | Some(value: T)

  /** The exceptions the modelled code raises, propagates or maps into one
      another. The message is the argument the exception is built with. */
  datatype Exception =
    | FileNotFoundError(message: string)
    | ValueError(message: string)
    | KeyError(message: string)
    | TypeError(message: string)
    // psycopg2: an operation on a connection that is already closed
    | InterfaceError(message: string)
    // PostgreSQL: a statement names the `tweets` table before it was created
    | UndefinedTable(message: string)
    // PostgreSQL: a negative row count in a LIMIT clause
    | DataError(message: string)
    // PostgreSQL: a statement sent inside a transaction an earlier error aborted
    | InFailedSqlTransaction(message: string)
    // PostgreSQL: an integer that does not fit its BIGINT column
    | NumericValueOutOfRange(message: string)
    // PostgreSQL: a string longer than its VARCHAR column
    | StringDataRightTruncation(message: string)

  /** A value, or the exception raised instead of returning one. */
  datatype Result<T> = Ok(value: T) | Err(error: Exception)

  /** A call that returns nothing, or the exception it raised. */
  datatype Outcome = Done | Raised(error: Exception)

  /** A point in time, as whole seconds in the database's time zone. */
  type Timestamp = int

  const SecondsPerDay: int := 86400

  /** The calendar day of a timestamp (pandas' `.dt.date`), as a day number.
      Dafny's division is Euclidean, so this is the floor for negative
      timestamps as well. */
  function Day(t: Timestamp): int {
    t / SecondsPerDay
  }

  /** Engagement counters of one tweet, keyed by counter name
      (`retweet_count`, `reply_count`, `like_count`, `quote_count`). */
  type Metrics = map<string, int>

  /** The row labels 0, 1, ..., n-1 of a freshly indexed data frame. */
  function Range(n: nat): (r: seq<int>)
    ensures |r| == n
    ensures forall i :: 0 <= i < n ==> r[i] == i
  {
    seq(n, i => i)
  }
}
