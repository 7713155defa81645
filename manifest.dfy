/**
 * The decoded manifest, as the dumper reads it: the block size and, per
 * partition, its name, the expected size and digest of the new image and the
 * ordered list of install operations.  Decoding the protobuf wire form is not
 * part of this model; these values are what the decoder hands over.
 */
module Manifest {
  import opened Base
  import opened Extents

  /**
   * `InstallOperation.Type`.  The dumper dispatches on eleven named values;
   * any other tag the decoder may produce is `Other`.
   */
  datatype OpType =
    | Replace | ReplaceBz | Move | Bsdiff | SourceCopy | SourceBsdiff
    | Zero | Discard | ReplaceXz | Puffdiff | BrotliBsdiff
    | Other(code: nat)

  /** One install operation; unset numeric fields decode as 0 and unset digests as empty. */
  datatype Operation = Operation(
    kind: OpType,
    dataOffset: nat,
    dataLength: nat,
    dataHash: seq<byte>,
    srcExtents: seq<Extent>,
    srcHash: seq<byte>,
    dstExtents: seq<Extent>)

  /** `new_partition_info`: the size and SHA-256 digest the finished image must have. */
  datatype PartitionInfo = PartitionInfo(size: nat, hash: seq<byte>)

  datatype PartitionUpdate = PartitionUpdate(name: string, newInfo: PartitionInfo, operations: seq<Operation>)

  datatype DeltaManifest = DeltaManifest(blockSize: nat, partitions: seq<PartitionUpdate>)
}
