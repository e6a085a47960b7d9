/** Outcomes of the store's operations: a value, or the error the source throws or rejects with. */
module Results {

  /** The ways an operation of the store fails. */
  datatype Error =
    | InvalidPath       // resolveStoragePath: FileNotFoundError('Invalid path detected')
    | FsError           // an fs/promises call rejected (missing file, a directory, a missing parent
                        // directory, except for fs.cp, which creates it)
    | ErrorFindingFile  // retrieveFromLocalStorage: Error('Error finding file: ...')

  datatype Result<+T> = Ok(value: T) | Err(error: Error) {

    predicate IsFailure() {
      Err?
    }

    function PropagateFailure<U>(): Result<U>
      requires Err?
    {
      Err(error)
    }

    function Extract(): T
      requires Ok?
    {
      value
    }
  }
}
