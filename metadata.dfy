/** The fields of the decoded update manifest (`DeltaArchiveManifest`) that the
    extractor reads, with the Java types the generated accessors return:
    `uint32` fields arrive as a signed `Int`, `uint64` fields as a signed `Long`. */
module Metadata {
  import opened Bytes

  /** The wire code of an operation kind other than REPLACE (0), REPLACE_BZ (1),
      ZERO (6) and REPLACE_XZ (8) in the `InstallOperation.Type` enumeration. */
  type OtherCode = c: nat | c != 0 && c != 1 && c != 6 && c != 8 witness 2

  /** Operation kinds. `Zero` is recognised but deliberately unsupported;
      `Other` stands for every further kind of the manifest schema. */
  datatype OpType = Replace | ReplaceBz | ReplaceXz | Zero | Other(code: OtherCode)

  /** A destination range, in blocks. */
  datatype Extent = Extent(startBlock: Long, numBlocks: Long)

  datatype InstallOperation = InstallOperation(
    opType: OpType,
    dataOffset: Long,   // relative to the start of the operation data
    dataLength: Long,
    dstExtents: seq<Extent>)

  datatype PartitionUpdate = PartitionUpdate(partitionName: string, operations: seq<InstallOperation>)

  datatype Manifest = Manifest(blockSize: Int, minorVersion: Int, partitions: seq<PartitionUpdate>)
}

/** Outcomes of the extractor's steps. Every error ends the process. */
module Outcomes {
  import opened Metadata

  datatype Option<+T> = None | Some(value: T)

  datatype Result<+T> = Success(value: T) | Failure(error: Error)

  datatype Error =
    | UnsupportedFile              // magic is not "CrAU"
    | NegativeArraySize            // a size field read as a negative `Int`
    | ManifestUnreadable           // the manifest bytes do not decode
    | IncrementalOta               // minorVersion != 0
    | OutputExists                 // the output folder is already there
    | NegativeSeek                 // a computed file position is negative
    | MissingExtent                // an operation without destination extents
    | UnsupportedType(t: OpType)   // neither REPLACE, REPLACE_XZ nor REPLACE_BZ
    | CodecFailure                 // the compressed stream is malformed or cut short
}
