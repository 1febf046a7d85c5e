/**
 * The error kinds used across the system. The source's error enum lists only
 * two of them; this is the union of all the variants its files use.
 */
module Errors {
  datatype VMError =
    | GeneralError
    | MemoryFull
    | InvalidSegment
    | InvalidPage
    | InvalidFrame
    | InvalidSegmentSize
    | VirtualAddressOutOfBounds
    | MemoryNotInitialized
    | IOError

  datatype Result<T> = Ok(value: T) | Err(error: VMError)

  datatype Option<T> = None | Some(value: T)
}
