/** Shared vocabulary of the model: storage identifiers, optional values and
    the outcome of an operation that can fail. */
module Common {

  /** A storage-assigned document identifier (a MongoDB ObjectId in the system). */
  type Id = nat

  /** A value that may be absent (`null`/`undefined` in the system). */
  datatype Option<+T> = None | Some(value: T)

  /** The outcome of an operation that either returns a value or throws. */
  datatype Result<+T, +E> = Ok(value: T) | Err(error: E)

  /** The outcome of a chain of guards that either lets the operation through or
      names the first failing guard. */
  datatype Outcome<+E> = Pass | Fail(error: E)
}
