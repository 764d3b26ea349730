/** Optional values, results and the error kinds the repositories raise. */
module Wrappers {

  /** A value that may be absent: C#'s `null` reference or an unset nullable. */
  datatype Option<+T> = None | Some(value: T)

  /**
   * The exceptions the repository layer throws, by kind.
   * `ArgumentNull` is ArgumentNullException, `InvalidArgument` is ArgumentException,
   * `NotFound` is EntityNotFoundException and `UnknownSortField` is the failure of an
   * ordering by a property name the entity does not have.
   */
  datatype Error = ArgumentNull | InvalidArgument | NotFound | UnknownSortField

  /** The outcome of an operation that returns a value or throws. */
  datatype Result<+T> = Ok(value: T) | Err(error: Error)

  /** The outcome of an operation that returns nothing (a C# `void` method) or throws. */
  datatype Outcome = Done | Failed(error: Error)
}
