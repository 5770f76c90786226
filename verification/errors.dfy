/** The part of the crate's error type that the extension layer can raise. */
module NiftiErrors {

  /** The only I/O failure an in-memory byte source can produce. */
  datatype IoErrorKind = UnexpectedEof

  datatype NiftiError =
    | Io(kind: IoErrorKind)
      /** The payload was truncated: `got` bytes were read where `expected` were declared. */
    | IncompatibleLength(got: nat, expected: nat)
      /** The buffer for a payload of `requested` bytes could not be reserved. */
    | ReserveExtended(requested: nat)
}
