/** The reader's error codes and results. */
module ZipErrors {

  datatype ZipError =
    | IterationEnd
    | InvalidFile
    | DuplicateEntry
    | EmptyArchive
    | EntryNotFound
    | InvalidOffset
    | InconsistentInformation
    | InvalidEntryName
    | IoError

  datatype Option<+T> = None | Some(value: T) {
    function GetOr(default: T): (r: T) {
      if Some? then value else default
    }
  }

  datatype Result<+T> = Ok(value: T) | Err(error: ZipError) {
    predicate IsFailure() {
      Err?
    }
    function PropagateFailure<U>(): (r: Result<U>)
      requires Err?
    {
      Err(error)
    }
    function Extract(): (r: T)
      requires Ok?
    {
      value
    }
  }
}
