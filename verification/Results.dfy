/** Outcomes shared by the operations: an optional value, and a value or one of the repository's error codes. */
module Results {
  datatype Option<+T> = None | Some(value: T)

  datatype Error =
    | MetadataNotReady
    | FileNotFound
    | Cancelled
    | TimeoutWaitingForPiece
    | IoError

  datatype Result<+T> = Ok(value: T) | Err(error: Error)
}
