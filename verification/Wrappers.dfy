/** The results of operations that can fail. */
module Wrappers {
  datatype Option<+T> = None | Some(value: T)

  datatype Result<+T> = Ok(value: T) | Err(error: Error)

  datatype Outcome = Done | Failed(error: Error)

  /** The errors the operations return; Panicked stands for a Go panic. */
  datatype Error =
    | KeyNotFound
    | NoLeaves
    | IndexOutOfRange
    | LengthMismatch
    | RepeatedIndex
    | NotEncodable
    | NotDecodable
    | NoDatabase
    | AddressAlreadyExists
    | AddressNotFound
    | DataCorruption
    | EmptyCensus
    | BadCensusDump
    | RootMismatch
    | CorruptedIndex
    | MissingWeight
    | Panicked
}
