/** The error types of `src/ota/errors.rs`. */
module OtaErrors {
  /** Failures inside the OTA bookkeeping itself. */
  datatype OtaInternalError = OtaDataCorrupt

  /** Why an update could not be started or completed; `E` is the image stream's own error type. */
  datatype OtaError<E> =
    | PendingVerify
    | ReadError(cause: E)
    | OutOfSpace
    | InternalError(internal: OtaInternalError)
}
