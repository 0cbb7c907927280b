/** Option and Result values, and the exceptions the repositories and services raise. */
module Wrappers {

  /** A value that may be absent: the model of a C# nullable reference. */
  datatype Option<+T> = None | Some(value: T)

  /** The exceptions of the source, one constructor per kind. */
  datatype Error =
    | NotFound(message: string)          // `new Exception("T not found.")`
    | NotImplemented                     // NotImplementedException
    | InvalidOperation(message: string)  // InvalidOperationException thrown by a service
    | Argument(message: string)          // ArgumentException thrown by a service
    | MoreThanOneMatch                   // SingleOrDefault on a sequence with two or more matches
    | InvalidCast                        // a cached value of the wrong type cast by GetOrCreateAsync
    | DuplicateKey(id: int)              // SaveChanges inserting an id that is already stored
    | Concurrency(id: int)               // SaveChanges updating or deleting a row that is not stored
    | NullReference                      // a member read through a navigation that was not loaded
    | KeyModified(entity: string)        // SaveChanges finding that a tracked entity's key was changed

  /** The outcome of an operation that may throw. */
  datatype Result<+T> = Ok(value: T) | Err(error: Error)
}
