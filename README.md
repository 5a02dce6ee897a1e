# PayloadBinExtractor: a Dafny model of the payload container decoder

PayloadBinExtractor rebuilds raw partition images from an Android full-OTA
`payload.bin`. This project models its container decoder in
`src/main/kotlin/Main.kt`. The model has five parts:

- **`Bytes`** (`bytes.dfy`): the big-endian decoders `ByteArray.toLong` and
  `ByteArray.toInt`. They keep Kotlin's signed 64-bit accumulator, its
  `shl 8` / `or` steps and the truncation of `Long.toInt()`.
- **`Payload`** (`payload.dfy`): the header framing read by `main`. It reads
  the magic `CrAU`, the 8-byte version, the 8-byte manifest size, the 4-byte
  signature size (version > 1 only), the manifest, the signature, and finally
  the file pointer that becomes `offset`. `PayloadFile` is the input file with
  its file pointer. `ParseHeader` states the header at absolute offsets, and
  the cursor-based `ReadHeader` is proved equal to it.
- **`Metadata`, `Outcomes`** (`metadata.dfy`): the decoded manifest fields the
  extractor reads, and the errors that end the process.
- **`Extract`** (`extract.dfy`): `writeFromOperation` and `extractPartition`.
  `ImageFile` is an output image opened with `"rw"`. `OutputDir` is the output
  folder. `ApplyOp` / `ApplyOps` / `ExtractAll` are the functions the methods
  are proved against.
- **`Extractor`** (`extractor.dfy`): `main` after argument handling. It reads
  the header, decodes the manifest, rejects incremental updates, checks and
  creates the output folder, then extracts every partition in order. `Run`
  is proved equal to the function `RunSpec`.

Kotlin exceptions and `exitProcess` become an `Error` result. These include
`NegativeArraySizeException`, a negative `seek`, an empty `dstExtentsList`,
an unsupported operation type and a malformed compressed stream.

Where the code and the format's usual description differ, the model follows
the code:

- **Signed and truncated sizes.** The header fields are not decoded as
  unsigned integers. `toLong` yields a signed `Long`, so a version with its
  top bit set is negative and reads no signature. `toInt` keeps only the low
  32 bits of the manifest size, and a size whose low word is at least 2^31 is
  rejected as a negative array size.
- **Short reads are not detected.** No `read` result is checked. A header
  field past the end of the file reads as zeros, and the file pointer stops
  at the end of the file.
- **Partition files are not created fresh.** A partition file is opened with
  `"rw"`, which neither fails on an existing file nor truncates it. A second
  partition with the same name therefore writes into the first one's image.

## Model

| member | source | states |
|---|---|---|
| Bytes.ToLong | src/main/kotlin/Main.kt:26-33 | The shift-and-or loop returns the big-endian value of the bytes, wrapped to 64 bits and read as two's complement. The loop invariant is that the accumulator holds the value of the prefix modulo 2^64. |
| Bytes.ToInt | src/main/kotlin/Main.kt:35-37 | `toInt` returns the low 32 bits of the big-endian value, read as a signed `Int`, i.e. `toLong().toInt()`. |
| Bytes.ShiftInStep | src/main/kotlin/Main.kt:29-30 | One loop step, `shl 8` then `or` of an unsigned byte, maps the accumulator `acc mod 2^64` to `(acc*256 + b) mod 2^64`. |
| Bytes.Shl8 | src/main/kotlin/Main.kt:29 | `shl 8` drops the top byte and moves the rest up one byte: the result is `(u mod 2^56) * 256`, so its low byte is zero. |
| Bytes.Or | src/main/kotlin/Main.kt:30 | Bitwise `or` is at least each operand and at most their sum. The recursive calls' contracts carry the proof. |
| Bytes.OrLowByte | src/main/kotlin/Main.kt:30 | `or`-ing a byte into a value whose low 8 bits are zero adds it. |
| Bytes.OrDisjoint | src/main/kotlin/Main.kt:30 | `or` of `c*2^k` and a value below `2^k` is their sum. |
| Bytes.AsLong | src/main/kotlin/Main.kt:26-33 | Reading a 64-bit pattern as a `Long` keeps it modulo 2^64, and the result is negative exactly when the top bit is set. |
| Bytes.LowInt | src/main/kotlin/Main.kt:36 | `Long.toInt()` keeps the value modulo 2^32, and the result is negative exactly when bit 31 is set. |
| Bytes.WrapLong | src/main/kotlin/Main.kt:44-45 | `Long` arithmetic wraps modulo 2^64 and equals the exact result whenever that is in range. |
| Bytes.DecodeLong | src/main/kotlin/Main.kt:26-33 | `toLong`'s value agrees with the big-endian value modulo 2^64. It is negative exactly when bit 63 of that value is set, and is the value itself below 2^63. |
| Bytes.DecodeInt | src/main/kotlin/Main.kt:35-37 | `toInt`'s value agrees with the big-endian value modulo 2^32. It is negative exactly when bit 31 is set, and is the value itself below 2^31. |
| Bytes.BigEndian | src/main/kotlin/Main.kt:26-33 | The big-endian value of `n` bytes is below 256^n. |
| Bytes.LowIntOfWrapped | src/main/kotlin/Main.kt:35-37 | Truncating to 32 bits after wrapping to 64 bits is the same as truncating to 32 bits. |
| Bytes.BigEndianConcat | src/main/kotlin/Main.kt:26-33 | The value of `a + b` is `value(a) * 256^|b| + value(b)`. |
| Bytes.BigEndianHead | src/main/kotlin/Main.kt:26-33 | The leading byte carries weight 256^(n-1). |
| Bytes.DecodeEncode | src/main/kotlin/Main.kt:26-33 | A value below 256^n written as `n` big-endian bytes decodes back to itself. |
| Bytes.EncodeDecode | src/main/kotlin/Main.kt:26-33 | Decoding `n` bytes and re-encoding the value in `n` bytes gives the same bytes. |
| Bytes.LongRoundTrip | src/main/kotlin/Main.kt:26-33 | Any `0 <= v < 2^63` written as 8 big-endian bytes reads back through `toLong` as `v`. |
| Bytes.LongSignBit | src/main/kotlin/Main.kt:26-33 | An 8-byte field decodes to a negative `Long` exactly when its first byte is at least 128. |
| Bytes.ShortLongIsUnsigned | src/main/kotlin/Main.kt:26-33 | Fewer than 8 bytes decode to their plain unsigned value. |
| Bytes.IntUsesLastFourBytes | src/main/kotlin/Main.kt:35-37 | `toInt` of a field of 4 or more bytes depends only on its last four bytes. |
| Bytes.SmallIntIsUnsigned | src/main/kotlin/Main.kt:35-37 | A 4-byte field whose first byte is below 128 reads as its unsigned value. |
| Bytes.ZeroBytesDecodeToZero | src/main/kotlin/Main.kt:142-152 | An all-zero buffer decodes to 0. This is why the unread signature-size buffer gives a zero-length signature when the version is 1 or less. |
| Payload.Available | src/main/kotlin/Main.kt:150 | A read delivers every requested byte unless the file ends first. It delivers none at or past the end. |
| Payload.Zeros | src/main/kotlin/Main.kt:142 | A fresh `ByteArray(n)` is `n` zeros. |
| Payload.Field | src/main/kotlin/Main.kt:149-150 | After an unchecked read at position `at`, buffer byte `i` is file byte `at+i` where the file has one, and 0 otherwise. |
| Payload.Tail | src/main/kotlin/Main.kt:50 | A stream opened on the file's channel at `at` delivers exactly the file's bytes from `at` on. |
| Payload.FieldInside | src/main/kotlin/Main.kt:149-150 | A read that fits inside the file returns the file's slice. |
| Payload.ReadAtCursor | src/main/kotlin/Main.kt:129-137 | Reading from where earlier unchecked reads left the file pointer gives the field at its nominal offset. The pointer then stops at the next nominal offset or at the end of the file. |
| Payload.PayloadFile.constructor | src/main/kotlin/Main.kt:115 | The opened file holds the payload, with the pointer at 0. |
| Payload.PayloadFile.Seek | src/main/kotlin/Main.kt:44 | A seek succeeds exactly for a non-negative position and then moves the pointer there. On failure the pointer is unchanged. |
| Payload.PayloadFile.Read | src/main/kotlin/Main.kt:150 | The buffer is the `Field` at the pointer, and the pointer advances by the bytes delivered. |
| Payload.PayloadFile.Remaining | src/main/kotlin/Main.kt:50 | The stream opened on the channel delivers byte `i` as file byte `pos + i`, for exactly the `len - pos` bytes left (none at or past the end). |
| Payload.ManifestAt | src/main/kotlin/Main.kt:142-150 | The manifest starts after the 4-byte magic and the two 8-byte fields, plus the 4-byte signature-size field when the version is above 1. |
| Payload.HeaderOf | src/main/kotlin/Main.kt:148-158 | The header after the size fields, where a version of 1 or less comes with a zero signature size: the manifest has `manifestSize` bytes, and the signature has `signatureSize` bytes above version 1 and none otherwise. The data offset is the end of the signature when the file is that long, and never past the end of the file. |
| Payload.ParseHeader | src/main/kotlin/Main.kt:117-158 | Header reading fails only as unsupported or as a negative array size. It fails as unsupported exactly when the first four bytes read are not the magic. On success the manifest has `manifestSize` bytes, both sizes are below 2^31 and the data offset lies within the file. |
| Payload.ParseHeaderFields | src/main/kotlin/Main.kt:120-155 | With the magic right and the fields decoded, a negative manifest or signature size fails with a negative array size. Otherwise the header is the one laid out after the size fields. |
| Payload.ReadField | src/main/kotlin/Main.kt:120-121 | One read from the pointer left by the previous reads returns the field at its nominal offset. |
| Payload.ReadSizeFields | src/main/kotlin/Main.kt:129-146 | The version is `toLong` of bytes 4..12 and the manifest-size bytes are bytes 12..20. The signature-size bytes are bytes 20..24 only when the version is above 1, and stay zero otherwise. |
| Payload.ReadHeader | src/main/kotlin/Main.kt:117-158 | The cursor-based reading returns exactly `ParseHeader` of the file. After a bad magic the pointer has not gone past byte 4. On success the pointer is the recorded data offset. |
| PayloadFacts.MagicChecked | src/main/kotlin/Main.kt:120-127 | The file is rejected as unsupported if and only if it is shorter than 4 bytes or its first four bytes differ from `67 114 65 85`. |
| PayloadFacts.DataOffsetAfterSignature | src/main/kotlin/Main.kt:129-158 | On success the data offset is `4 + 8 + 8 + (version > 1 ? 4 : 0) + manifestSize + signatureSize`, capped at the file length. The manifest has `manifestSize` bytes. Below version 2 there is no signature at all. |
| PayloadFacts.TopBitVersionHasNoSignature | src/main/kotlin/Main.kt:130-146 | For any file longer than 4 bytes that parses, a version field with its top bit set is a negative `Long`. Then no signature-size field is read, and the manifest is taken from byte 20. |
| PayloadFacts.ManifestSizeIsLowWord | src/main/kotlin/Main.kt:136-149 | The manifest size is `toInt` of the last four bytes of its 8-byte field. |
| PayloadFacts.NegativeManifestSizeRejected | src/main/kotlin/Main.kt:149 | For any file of 17 bytes or more with the magic, a manifest size whose low word has its top bit set ends the run with a negative array size. |
| PayloadFacts.SizeRoundTrip | src/main/kotlin/Main.kt:136-152 | A size below 2^31 written in 4 or 8 bytes reads back through `toInt`. |
| PayloadFacts.FrameRoundTrip | src/main/kotlin/Main.kt:117-158 | A header written in the layout is parsed back whatever bytes follow it. This holds for version below 2^63, sizes below 2^31, and no signature below version 2. The result is the same version, sizes, manifest and signature, with the data offset right after the header. |
| Extract.Overwrite | src/main/kotlin/Main.kt:71 | A write of `n > 0` bytes at `at` puts the buffer at `at..at+n`. It grows the file to `max(len, at+n)`, leaves other bytes unchanged and fills a gap past the old end with zeros. A write of no bytes leaves the file unchanged, even with the pointer past its end. |
| Extract.ImageFile.constructor | src/main/kotlin/Main.kt:101 | The opened image starts with the content already there (`"rw"` does not truncate), with the pointer at 0. |
| Extract.ImageFile.Seek | src/main/kotlin/Main.kt:45 | A seek succeeds exactly for a non-negative position. The content is unchanged. |
| Extract.ImageFile.Write | src/main/kotlin/Main.kt:71 | The content becomes `Overwrite` at the pointer, so an empty write leaves the file's length unchanged. The pointer advances by the buffer's length. |
| Extract.SourcePosition | src/main/kotlin/Main.kt:44 | The source position is `offset + dataOffset` modulo 2^64, and the plain sum below 2^63. |
| Extract.DestinationPosition | src/main/kotlin/Main.kt:45 | The destination is `dstExtents[0].startBlock * blockSize` modulo 2^64, and the plain product when it fits in a `Long`. |
| Extract.Streamed | src/main/kotlin/Main.kt:48-65 | Non-empty decoder output lands at the destination, and the image grows to `max(len, dst + output length)`. Empty output leaves the image unchanged. The run goes on if and only if the stream ended at its end marker, and otherwise fails with a codec error. |
| Extract.ApplyOp | src/main/kotlin/Main.kt:39-93 | One operation never shrinks the image. It succeeds only for REPLACE, REPLACE_XZ or REPLACE_BZ. Every failure except a codec failure leaves the image unchanged. |
| Extract.ApplyOps | src/main/kotlin/Main.kt:102 | Applying the operations in order never shrinks the image. A run without error contains only REPLACE, REPLACE_XZ and REPLACE_BZ operations. The recursive call's contract carries the proof. |
| Extract.WriteFromOperation | src/main/kotlin/Main.kt:39-93 | The method gives exactly `ApplyOp`. It seeks the payload to `offset + dataOffset` (wrapping, negative fails) and the image to `dstExtents[0].startBlock * blockSize`. REPLACE copies `dataLength.toInt()` bytes. XZ/BZ write the decoder's output. Any other kind fails. |
| Extract.ApplyOpsStep | src/main/kotlin/Main.kt:102 | After an error-free prefix, the next operation is applied to the prefix's image. |
| Extract.ApplyOpsStopsAtError | src/main/kotlin/Main.kt:102 | Once an operation fails, later operations change neither the image nor the error. |
| Extract.WriteOperations | src/main/kotlin/Main.kt:102 | The operation loop gives exactly `ApplyOps`: operations run in manifest order, and the run stops at the first failure. |
| Extract.OutputDir.constructor | src/main/kotlin/Main.kt:174 | The folder as found: whether it is there, and its files. |
| Extract.OutputDir.Mkdir | src/main/kotlin/Main.kt:179 | After `mkdir` the folder is there and empty. |
| Extract.ExtractOne | src/main/kotlin/Main.kt:95-104 | One partition adds exactly its own name to the folder and leaves every other file as it was. An existing file of that name is written into, so it never shrinks. |
| Extract.ExtractAll | src/main/kotlin/Main.kt:181 | Extracting partitions never removes a file. A run without error leaves a file for every partition. |
| Extract.ExtractPartition | src/main/kotlin/Main.kt:95-104 | The partition's file is opened with its existing content or empty, and its operations are applied. The folder then holds the resulting image under the partition's name, even after a failure. Whether the folder is there does not change. |
| Extract.ExtractAllStep | src/main/kotlin/Main.kt:181 | After an error-free prefix of partitions, the next partition is extracted into the prefix's folder. |
| Extract.ExtractAllStopsAtError | src/main/kotlin/Main.kt:181 | Once a partition fails, later partitions change neither the folder nor the error. |
| ExtractFacts.SmallLengthKept | src/main/kotlin/Main.kt:69 | `dataLength.toInt()` is the length itself for lengths below 2^31. |
| ExtractFacts.ReplaceCopiesSource | src/main/kotlin/Main.kt:67-72 | For REPLACE without overflow, the `dataLength` bytes at `offset + dataOffset` land at `startBlock * blockSize`. Missing bytes are written as 0, they equal the payload slice when it is inside the file, and every other image byte is unchanged. The image grows to `max(len, dst + n)` for `n > 0`, and a zero length leaves it as it was. |
| ExtractFacts.CompressedWritesDecoderOutput | src/main/kotlin/Main.kt:48-65 | For REPLACE_XZ and REPLACE_BZ, the decoder output of the stream from the source position lands at the destination position. The image is exactly `max(len, dst + output length)` long when there is output and unchanged when there is none, and every other image byte is unchanged. The run goes on if and only if the stream ended at its end marker. Otherwise it fails with a codec error. |
| ExtractFacts.UnsupportedTypeAborts | src/main/kotlin/Main.kt:88-91 | Any kind other than REPLACE, REPLACE_XZ and REPLACE_BZ (ZERO included) writes nothing and fails. It is reported as unsupported once both positions have been sought. |
| ExtractFacts.OnlyFirstExtentUsed | src/main/kotlin/Main.kt:45 | Replacing every extent after the first, and the first one's `numBlocks`, does not change the operation's effect. |
| ExtractFacts.ExtractAllFiles | src/main/kotlin/Main.kt:181 | Every file after extraction was already in the folder or is named after a partition in the list. After a successful run the files are exactly the old ones plus one per partition name. |
| ExtractFacts.UnstartedPartitionsNotCreated | src/main/kotlin/Main.kt:181 | If the first `i` partitions end in an error, the whole run ends with that error. Every file left afterwards was already in the folder or is named after one of the first `i` partitions. |
| ExtractFacts.PartitionImages | src/main/kotlin/Main.kt:95-104 | With distinct partition names, a new folder and a successful run, each partition's file is what its own operations write into an empty image. |
| Extractor.ExtractPartitions | src/main/kotlin/Main.kt:181 | The partition loop gives exactly `ExtractAll`: partitions are extracted in manifest order, and the run stops at the first failure. |
| Extractor.RunSpec | src/main/kotlin/Main.kt:115-181 | An existing output folder is never touched, and such a run always fails. A run that does not create the folder fails and leaves the files as they were. Only a run that creates the folder can succeed. |
| Extractor.Run | src/main/kotlin/Main.kt:115-181 | `main` gives exactly `RunSpec`, in this order: header errors, then an undecodable manifest, then `minorVersion != 0`, then an existing folder, and otherwise `mkdir` and every partition. The data offset is the file pointer after the header. |
| ExtractorFacts.BadMagicStopsEverything | src/main/kotlin/Main.kt:120-127 | A file without the magic fails as unsupported. The output folder is left as it was. |
| ExtractorFacts.IncrementalRejectedBeforeOutputFolder | src/main/kotlin/Main.kt:164-179 | An incremental update fails whether or not the folder exists. The folder is neither created nor changed. |
| ExtractorFacts.ExistingOutputRejected | src/main/kotlin/Main.kt:174-178 | A full update with an existing folder fails before any partition, leaving the folder's files as they were. |
| ExtractorFacts.ExtractionReachedOnlyFromNewFolder | src/main/kotlin/Main.kt:161-179 | The folder is created if and only if the header parses, the manifest decodes, the update is full and the folder was not there. Otherwise the run fails and the folder is untouched. |
| ExtractorFacts.RunFilesArePartitions | src/main/kotlin/Main.kt:179-181 | A run that creates the folder fills it only with partition files. On success there is exactly one file per partition name. |
| ExtractorFacts.SuccessfulRunImages | src/main/kotlin/Main.kt:158-181 | After a successful run with distinct names, each partition's file is what its operations write into an empty image, with operation data read from the header's data offset. |

## Left out

- Decompression: the XZ and BZip2 streams of `XZCompressorInputStream`, `BZip2CompressorInputStream` and `IOUtils.copy` are foreign code. They are uninterpreted functions (`Codecs`) from the bytes after the source position to the bytes they stream and whether the stream ended at its end marker. Bytes streamed before a failure are written, as `IOUtils.copy` does.
- Manifest decoding: `DeltaArchiveManifest.parseFrom` is generated protobuf code. It is a function parameter that yields a `Manifest` or nothing, and nothing stands for its exception.
- Argument handling, `println`, `log`, the `DEBUG` flag and `exitProcess`: exits are modelled as error results, and output text is not modelled.
- File system plumbing: file paths (`<outputDir>/<name>.img`), `close`, and errors when opening files are not modelled. The folder is a map from partition name to image content.
- The payload's file pointer after a compressed operation is not tracked, because every operation seeks before reading.
- `OutOfMemoryError` for large `ByteArray` allocations, and I/O errors, are not modelled.
- Buffers and images are modelled as sequences, not as `ByteArray` or sparse files.
- Payload.PayloadFile.Read: a `read` that returns fewer bytes than available before the end of a file is not modelled. Reads from a regular file are taken to fill the buffer up to the end of the file.
