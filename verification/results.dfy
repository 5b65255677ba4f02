/** Failure-compatible wrappers and the typed failures the backend raises. */
module Results {

  /** A value that may be absent (a JS `undefined`/`null`). */
  datatype Option<+T> = None | Some(value: T)

  /** The errors the backend throws, one constructor per `throw` site or store failure. */
  datatype Error =
    | UnknownAfterID(afterID: string)         // the cursor names no stored document
    | AfterIDDisappeared(afterID: string)     // range path: cursor document not among the matches
    | ComponentlessEntity(entityID: string)   // a Task with no component states
    | AlreadyExists(documentID: string)       // a transactional `create` of an existing document

  /** The outcome of an operation that may throw; usable with `:-`. */
  datatype Result<+T> = Ok(value: T) | Err(error: Error) {

    predicate IsFailure() {
      Err?
    }

    function PropagateFailure<U>(): Result<U>
      requires Err?
    {
      Err(error)
    }

    function Extract(): T
      requires Ok?
    {
      value
    }
  }
}
