/** The exceptions the engine and its sessions raise, as values. */
module Errors {
  import opened Bytes

  /** An I/O failure reported by the storage collaborator; its text is not modelled. */
  type IoFailure = int

  datatype Error =
      /** InvalidOperationException: a marker read came back short without being at end of file. */
    | TruncatedMarker(tx: int)
      /** InvalidOperationException: found the other transaction marker where one was expected. */
    | WrongMarker(expected: int32, found: int32)
      /** InvalidOperationException: a full 16 bytes that are neither marker. */
    | UnknownMarker(tx: int)
      /** InvalidOperationException: the 4 bytes before an operation are not the separator. */
    | UnknownOperationSeparator
      /** ArgumentOutOfRangeException from `new List<Operation>(opsCount)` with a negative count. */
    | NegativeOperationCount(count: int32)
      /** InvalidProgramException: AssertTransactionSeperator called with an undefined marker. */
    | WrongKindOfSeparator(marker: int32)
      /** InvalidOperationException: "End of file reached while trying to read queue item". */
    | EndOfDataFile
      /** ArgumentOutOfRangeException from setting a negative stream position. */
    | NegativePosition(position: int)
      /** OverflowException from allocating a byte array of negative size. */
    | NegativeBufferSize(size: int)
      /** ArgumentException from Buffer.BlockCopy reading past the end of the read-ahead buffer. */
    | SliceOutOfRange
      /** PendingWriteException carrying every failure of the speculative writes. */
    | PendingWrites(failures: seq<IoFailure>)
      /** A synchronous write failure, rethrown as is. */
    | WriteFailed(failure: IoFailure)
}
