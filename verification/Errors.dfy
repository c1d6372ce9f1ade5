/** The ways `unpack`, `pack` and `verify` stop: their explicit errors, and Panic for a slice out of range. */
module Errors {
  datatype Error =
    | FileTooSmall
    | BadGuid
    | TableTruncated
    | PartitionPastEnd(index: nat)
    | OutputNotEmpty
    | PayloadPastPartition(index: nat)
    | NoPartitions
    | BadAlign
    | MissingContainerTable(index: nat)
    | MissingFile(index: nat)
    | TagOutsidePartition
    | ImageTooLarge(index: nat)
    | ChecksFailed(count: nat)
    | Panic
}
