/** Optional values, and results that may be one of the repository's error statuses. */
module Wrappers {

  datatype Option<+T> = None | Some(value: T)

  datatype Error =
    | KeyTooLarge
    | EqualKeys
    | PositionTag
    | PositionMismatch
    | InvalidArgument
    | WalFull
    | CorruptWal
    | CorruptSnapshot
    | CorruptManifest

  datatype Result<+T> = Ok(value: T) | Err(error: Error)
}
