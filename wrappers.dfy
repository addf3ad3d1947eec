/** Option and Result, used where Python returns None or raises. */
module Wrappers {

  datatype Option<+T> = None | Some(value: T)

  datatype Result<+R, +E> = Success(value: R) | Failure(error: E)

  /** What reading a pickle file can end in: the loaded value, a missing file
      (FileNotFoundError) or any other failure. The file I/O itself is not modelled. */
  datatype LoadOutcome<+T> = Loaded(value: T) | FileMissing | LoadFailed
}
