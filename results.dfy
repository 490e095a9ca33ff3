/** The failure conditions the indexed priority queue reports, and the wrappers that carry them. */
module Results {

  /** A stored value, or Java's `null`. */
  datatype Option<T> = None | Some(value: T)

  /** Which check failed; exception classes and messages are not modelled. */
  datatype Error =
    | BadCapacity      // maxSize <= 0 at construction
    | KeyOutOfBounds   // key index outside [0, N)
    | DuplicateKey     // insert of a key already present
    | NoSuchKey        // lookup or delete of an absent key
    | NullValue        // insert of a null value
    | Underflow        // peek or poll on an empty queue

  /** The result of an operation that returns a value or fails. */
  datatype Result<T> = Success(value: T) | Failure(error: Error)

  /** The result of a check that returns nothing or fails. */
  datatype Outcome = Pass | Fail(error: Error)
}
