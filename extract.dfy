/** The operation executor: `writeFromOperation` (one operation: seek the
    payload and the partition image, then copy or decompress) and
    `extractPartition` (the partition's operations in manifest order). */
module Extract {
  import opened Bytes
  import opened Metadata
  import opened Outcomes
  import opened Payload

  /** What a streaming decompressor produced before it stopped, and whether it
      stopped at its own end-of-stream marker. */
  datatype Decompressed = Decompressed(output: seq<byte>, complete: bool)

  /** The XZ and BZip2 decompressors, applied to the bytes from the source
      position onwards. They are foreign code and stay uninterpreted. */
  datatype Codecs = Codecs(xz: seq<byte> -> Decompressed, bz: seq<byte> -> Decompressed)

  /** The process-wide values `offset` and `targetBlkSize`. */
  datatype Context = Context(dataOffset: nat, blockSize: Int)

  function Max(a: int, b: int): int { if a >= b then a else b }

  /** A partition image after writing `buf` at position `at`: a write past
      the end grows the file and leaves zeros in the gap, while writing no
      bytes leaves the file as it was, wherever the pointer stands. */
  function Overwrite(image: seq<byte>, at: nat, buf: seq<byte>): (r: seq<byte>)
    ensures |r| == if buf == [] then |image| else Max(|image|, at + |buf|)
    ensures buf != [] ==> r[at..at + |buf|] == buf
    ensures forall k :: 0 <= k < |r| && !(at <= k < at + |buf|) ==>
              r[k] == if k < |image| then image[k] else 0
  {
    if buf == [] then image else
    var padded := if at <= |image| then image else image + Zeros(at - |image|);
    padded[..at] + buf + (if at + |buf| <= |padded| then padded[at + |buf|..] else [])
  }

  /** The partition image opened with `RandomAccessFile(..., "rw")`. */
  class ImageFile {
    var content: seq<byte>
    var pos: nat

    constructor (initial: seq<byte>)
      ensures content == initial && pos == 0
    {
      content := initial;
      pos := 0;
    }

    method Seek(p: Long) returns (ok: bool)
      modifies this
      ensures ok <==> p >= 0
      ensures pos == (if ok then p else old(pos)) && content == old(content)
    {
      ok := p >= 0;
      if ok {
        pos := p;
      }
    }

    method Write(buf: seq<byte>)
      modifies this
      ensures content == Overwrite(old(content), old(pos), buf)
      ensures pos == old(pos) + |buf|
    {
      content := Overwrite(content, pos, buf);
      pos := pos + |buf|;
    }
  }

  /** `offset + op.dataOffset`, a `Long` sum: the sum modulo 2^64, and the
      plain sum below 2^63. */
  function SourcePosition(ctx: Context, op: InstallOperation): (p: Long)
    ensures p % TWO_64 == (ctx.dataOffset + op.dataOffset) % TWO_64
    ensures ctx.dataOffset + op.dataOffset < TWO_63 ==> p == ctx.dataOffset + op.dataOffset
  {
    WrapLong(ctx.dataOffset + op.dataOffset)
  }

  /** `op.dstExtentsList[0].startBlock * targetBlkSize`, a `Long` product: the
      product modulo 2^64, and the plain product when it fits in a `Long`. */
  function DestinationPosition(ctx: Context, op: InstallOperation): (p: Long)
    requires |op.dstExtents| > 0
    ensures p % TWO_64 == (op.dstExtents[0].startBlock * ctx.blockSize) % TWO_64
    ensures -TWO_63 <= op.dstExtents[0].startBlock * ctx.blockSize < TWO_63 ==>
              p == op.dstExtents[0].startBlock * ctx.blockSize
  {
    WrapLong(op.dstExtents[0].startBlock * ctx.blockSize)
  }

  /** A partition image together with the error that stopped the run, if any. */
  datatype Applied = Applied(image: seq<byte>, err: Option<Error>)

  /** A decompressor's output streamed into the image at `dst`: the run goes
      on only if the stream ended at its end marker. */
  function Streamed(image: seq<byte>, dst: nat, d: Decompressed): (r: Applied)
    ensures |r.image| == if d.output == [] then |image| else Max(|image|, dst + |d.output|)
    ensures d.output != [] ==> r.image[dst..dst + |d.output|] == d.output
    ensures d.output == [] ==> r.image == image
    ensures r.err.None? <==> d.complete
    ensures r.err.Some? ==> r.err == Some(CodecFailure)
  {
    Applied(Overwrite(image, dst, d.output), if d.complete then None else Some(CodecFailure))
  }

  /** One operation applied to a partition image: both positions are computed
      and sought first, then the operation kind decides. */
  function ApplyOp(ctx: Context, data: seq<byte>, image: seq<byte>, op: InstallOperation, codecs: Codecs): (r: Applied)
    ensures |image| <= |r.image|
    ensures r.err.None? ==> op.opType in {Replace, ReplaceXz, ReplaceBz}
    ensures r.err.Some? && r.err != Some(CodecFailure) ==> r.image == image
  {
    var src := SourcePosition(ctx, op);
    if src < 0 then Applied(image, Some(NegativeSeek))
    else if |op.dstExtents| == 0 then Applied(image, Some(MissingExtent))
    else
      var dst := DestinationPosition(ctx, op);
      if dst < 0 then Applied(image, Some(NegativeSeek))
      else
        match op.opType
        case ReplaceXz => Streamed(image, dst, codecs.xz(Tail(data, src)))
        case ReplaceBz => Streamed(image, dst, codecs.bz(Tail(data, src)))
        case Replace =>
          var n := LowInt(op.dataLength);
          if n < 0 then Applied(image, Some(NegativeArraySize))
          else Applied(Overwrite(image, dst, Field(data, src, n)), None)
        case _ => Applied(image, Some(UnsupportedType(op.opType)))
  }

  /** The operations applied in order; the first error ends the run. The
      image never shrinks, and a run without error has only supported kinds. */
  function ApplyOps(ctx: Context, data: seq<byte>, image: seq<byte>, ops: seq<InstallOperation>, codecs: Codecs): (r: Applied)
    ensures |image| <= |r.image|
    ensures r.err.None? ==> forall i :: 0 <= i < |ops| ==> ops[i].opType in {Replace, ReplaceXz, ReplaceBz}
    decreases |ops|
  {
    if ops == [] then Applied(image, None)
    else
      var prefix := ops[..|ops| - 1];
      var before := ApplyOps(ctx, data, image, prefix, codecs);
      if before.err.Some? then before
      else
        assert forall i :: 0 <= i < |prefix| ==> prefix[i] == ops[i];
        ApplyOp(ctx, data, before.image, ops[|ops| - 1], codecs)
  }

  /** One more operation of the fold. */
  lemma ApplyOpsStep(ctx: Context, data: seq<byte>, image: seq<byte>, ops: seq<InstallOperation>, i: nat, codecs: Codecs)
    requires i < |ops|
    requires ApplyOps(ctx, data, image, ops[..i], codecs).err.None?
    ensures ApplyOps(ctx, data, image, ops[..i + 1], codecs)
              == ApplyOp(ctx, data, ApplyOps(ctx, data, image, ops[..i], codecs).image, ops[i], codecs)
  {
    assert ops[..i + 1][..i] == ops[..i];
  }

  /** `writeFromOperation`. */
  method WriteFromOperation(op: InstallOperation, partOutput: ImageFile, ota: PayloadFile, ctx: Context, codecs: Codecs)
    returns (err: Option<Error>)
    modifies partOutput, ota
    ensures Applied(partOutput.content, err) == ApplyOp(ctx, ota.data, old(partOutput.content), op, codecs)
  {
    var ok := ota.Seek(WrapLong(ctx.dataOffset + op.dataOffset));
    if !ok {
      return Some(NegativeSeek);
    }
    if |op.dstExtents| == 0 {
      return Some(MissingExtent);
    }
    ok := partOutput.Seek(WrapLong(op.dstExtents[0].startBlock * ctx.blockSize));
    if !ok {
      return Some(NegativeSeek);
    }
    match op.opType {
      case ReplaceXz =>
        var fis := ota.Remaining();
        var d := codecs.xz(fis);
        partOutput.Write(d.output);
        err := if d.complete then None else Some(CodecFailure);
      case ReplaceBz =>
        var fis := ota.Remaining();
        var d := codecs.bz(fis);
        partOutput.Write(d.output);
        err := if d.complete then None else Some(CodecFailure);
      case Replace =>
        var n := LowInt(op.dataLength);
        if n < 0 {
          return Some(NegativeArraySize);
        }
        var buf := ota.Read(n);
        partOutput.Write(buf);
        err := None;
      case _ =>
        err := Some(UnsupportedType(op.opType));
    }
  }

  /** Once an operation has failed, later operations change nothing (and a
      prefix that is the whole sequence is trivially the whole run). */
  lemma {:induction false} ApplyOpsStopsAtError(ctx: Context, data: seq<byte>, image: seq<byte>,
                                               ops: seq<InstallOperation>, i: nat, codecs: Codecs)
    requires i <= |ops|
    requires i == |ops| || ApplyOps(ctx, data, image, ops[..i], codecs).err.Some?
    ensures ApplyOps(ctx, data, image, ops, codecs) == ApplyOps(ctx, data, image, ops[..i], codecs)
    decreases |ops|
  {
    if i < |ops| {
      var prefix := ops[..|ops| - 1];
      assert prefix[..i] == ops[..i];
      ApplyOpsStopsAtError(ctx, data, image, prefix, i, codecs);
    } else {
      assert ops[..i] == ops;
    }
  }

  /** The output folder: whether it is there, and its `.img` files by partition name. */
  class OutputDir {
    var present: bool
    var files: map<string, seq<byte>>

    constructor (present: bool, files: map<string, seq<byte>>)
      ensures this.present == present && this.files == files
    {
      this.present := present;
      this.files := files;
    }

    /** `mkdir`: a new, empty folder. */
    method Mkdir()
      modifies this
      ensures present && files == map[]
    {
      present := true;
      files := map[];
    }
  }

  /** The output folder's files together with the error that stopped the run, if any. */
  datatype Extraction = Extraction(files: map<string, seq<byte>>, err: Option<Error>)

  /** One partition: its file is opened (an existing one is written into,
      not truncated), its operations run, and the file stays as written. */
  function ExtractOne(ctx: Context, data: seq<byte>, files: map<string, seq<byte>>,
                      part: PartitionUpdate, codecs: Codecs): (r: Extraction)
    ensures r.files.Keys == files.Keys + {part.partitionName}
    ensures forall k :: k in files && k != part.partitionName ==> r.files[k] == files[k]
    ensures part.partitionName in files ==> |files[part.partitionName]| <= |r.files[part.partitionName]|
  {
    var start := if part.partitionName in files then files[part.partitionName] else [];
    var r := ApplyOps(ctx, data, start, part.operations, codecs);
    Extraction(files[part.partitionName := r.image], r.err)
  }

  /** The partitions extracted in manifest order; the first error ends the run. */
  function ExtractAll(ctx: Context, data: seq<byte>, files: map<string, seq<byte>>,
                      parts: seq<PartitionUpdate>, codecs: Codecs): (r: Extraction)
    ensures files.Keys <= r.files.Keys
    ensures r.err.None? ==> forall i :: 0 <= i < |parts| ==> parts[i].partitionName in r.files
    decreases |parts|
  {
    if parts == [] then Extraction(files, None)
    else
      var prefix := parts[..|parts| - 1];
      var before := ExtractAll(ctx, data, files, prefix, codecs);
      if before.err.Some? then before
      else
        assert forall i :: 0 <= i < |prefix| ==> prefix[i] == parts[i];
        ExtractOne(ctx, data, before.files, parts[|parts| - 1], codecs)
  }

  /** The operation loop of `extractPartition`: each operation in manifest
      order, until one fails. */
  method WriteOperations(ops: seq<InstallOperation>, partOutput: ImageFile, ota: PayloadFile, ctx: Context, codecs: Codecs)
    returns (err: Option<Error>)
    modifies partOutput, ota
    ensures Applied(partOutput.content, err) == ApplyOps(ctx, ota.data, old(partOutput.content), ops, codecs)
  {
    var i := 0;
    err := None;
    while i < |ops| && err.None?
      invariant 0 <= i <= |ops|
      invariant Applied(partOutput.content, err) == ApplyOps(ctx, ota.data, old(partOutput.content), ops[..i], codecs)
    {
      ApplyOpsStep(ctx, ota.data, old(partOutput.content), ops, i, codecs);
      err := WriteFromOperation(ops[i], partOutput, ota, ctx, codecs);
      i := i + 1;
    }
    ApplyOpsStopsAtError(ctx, ota.data, old(partOutput.content), ops, i, codecs);
  }

  /** `extractPartition`: the partition's image file is opened, written by
      its operations, and kept in the output folder under the partition's name. */
  method ExtractPartition(part: PartitionUpdate, ota: PayloadFile, dir: OutputDir, ctx: Context, codecs: Codecs)
    returns (err: Option<Error>)
    modifies ota, dir
    ensures dir.present == old(dir.present)
    ensures Extraction(dir.files, err) == ExtractOne(ctx, ota.data, old(dir.files), part, codecs)
  {
    var name := part.partitionName;
    var start := if name in dir.files then dir.files[name] else [];
    var partOutput := new ImageFile(start);
    err := WriteOperations(part.operations, partOutput, ota, ctx, codecs);
    dir.files := dir.files[name := partOutput.content];
  }

  /** One more partition of the fold. */
  lemma ExtractAllStep(ctx: Context, data: seq<byte>, files: map<string, seq<byte>>,
                       parts: seq<PartitionUpdate>, i: nat, codecs: Codecs)
    requires i < |parts|
    requires ExtractAll(ctx, data, files, parts[..i], codecs).err.None?
    ensures ExtractAll(ctx, data, files, parts[..i + 1], codecs)
              == ExtractOne(ctx, data, ExtractAll(ctx, data, files, parts[..i], codecs).files, parts[i], codecs)
  {
    assert parts[..i + 1][..i] == parts[..i];
  }

  /** Once a partition has failed, later partitions are not started. */
  lemma {:induction false} ExtractAllStopsAtError(ctx: Context, data: seq<byte>, files: map<string, seq<byte>>,
                                                 parts: seq<PartitionUpdate>, i: nat, codecs: Codecs)
    requires i <= |parts|
    requires i == |parts| || ExtractAll(ctx, data, files, parts[..i], codecs).err.Some?
    ensures ExtractAll(ctx, data, files, parts, codecs) == ExtractAll(ctx, data, files, parts[..i], codecs)
    decreases |parts|
  {
    if i < |parts| {
      var prefix := parts[..|parts| - 1];
      assert prefix[..i] == parts[..i];
      ExtractAllStopsAtError(ctx, data, files, prefix, i, codecs);
    } else {
      assert parts[..i] == parts;
    }
  }
}

/** Properties of the operation executor. */
module ExtractFacts {
  import opened Bytes
  import opened Metadata
  import opened Outcomes
  import opened Payload
  import opened Extract

  lemma SmallLengthKept(n: Long)
    requires 0 <= n < TWO_31
    ensures LowInt(n) == n
  {
  }

  /** REPLACE: the `dataLength` bytes at `payload data offset + dataOffset`
      land at `startBlock * blockSize` of the image, bytes the payload does
      not have are written as 0, and nothing else in the image changes; a
      zero length writes nothing and leaves the image as it was. */
  lemma ReplaceCopiesSource(ctx: Context, data: seq<byte>, image: seq<byte>, op: InstallOperation, codecs: Codecs)
    requires op.opType == Replace && |op.dstExtents| > 0
    requires ctx.dataOffset + op.dataOffset < TWO_63 && 0 <= ctx.dataOffset + op.dataOffset
    requires 0 <= op.dstExtents[0].startBlock * ctx.blockSize < TWO_63
    requires 0 <= op.dataLength < TWO_31
    ensures var src, dst, n := ctx.dataOffset + op.dataOffset, op.dstExtents[0].startBlock * ctx.blockSize, op.dataLength;
      var r := ApplyOp(ctx, data, image, op, codecs);
      && r.err == None
      && |r.image| == (if n == 0 then |image| else Max(|image|, dst + n))
      && (n == 0 ==> r.image == image)
      && (n > 0 ==> r.image[dst..dst + n] == Field(data, src, n))
      && (n > 0 && src + n <= |data| ==> r.image[dst..dst + n] == data[src..src + n])
      && forall k :: 0 <= k < |r.image| && !(dst <= k < dst + n) ==>
           r.image[k] == if k < |image| then image[k] else 0
  {
    SmallLengthKept(op.dataLength);
    var src := ctx.dataOffset + op.dataOffset;
    var n := op.dataLength;
    if src + n <= |data| {
      FieldInside(data, src, n);
    }
  }

  /** REPLACE_XZ and REPLACE_BZ: what the decompressor streams from the source
      position lands at the destination position (no output leaves the image
      as it was); the run goes on only if the stream ended at its own end
      marker. */
  lemma CompressedWritesDecoderOutput(ctx: Context, data: seq<byte>, image: seq<byte>, op: InstallOperation, codecs: Codecs)
    requires op.opType == ReplaceXz || op.opType == ReplaceBz
    requires |op.dstExtents| > 0
    requires 0 <= ctx.dataOffset + op.dataOffset < TWO_63
    requires 0 <= op.dstExtents[0].startBlock * ctx.blockSize < TWO_63
    ensures var src, dst := ctx.dataOffset + op.dataOffset, op.dstExtents[0].startBlock * ctx.blockSize;
      var d := if op.opType == ReplaceXz then codecs.xz(Tail(data, src)) else codecs.bz(Tail(data, src));
      var r := ApplyOp(ctx, data, image, op, codecs);
      && |r.image| == (if d.output == [] then |image| else Max(|image|, dst + |d.output|))
      && (d.output == [] ==> r.image == image)
      && (d.output != [] ==> r.image[dst..dst + |d.output|] == d.output)
      && (r.err == None <==> d.complete)
      && (r.err != None ==> r.err == Some(CodecFailure))
      && forall k :: 0 <= k < |r.image| && !(dst <= k < dst + |d.output|) ==>
           r.image[k] == if k < |image| then image[k] else 0
  {
  }

  /** Any kind other than REPLACE, REPLACE_XZ and REPLACE_BZ (ZERO included)
      stops the run and writes nothing. */
  lemma UnsupportedTypeAborts(ctx: Context, data: seq<byte>, image: seq<byte>, op: InstallOperation, codecs: Codecs)
    requires op.opType !in {Replace, ReplaceXz, ReplaceBz}
    ensures var r := ApplyOp(ctx, data, image, op, codecs);
      && r.image == image
      && r.err.Some?
      && (SourcePosition(ctx, op) >= 0 && |op.dstExtents| > 0 && DestinationPosition(ctx, op) >= 0
          ==> r.err == Some(UnsupportedType(op.opType)))
  {
  }

  /** Only the first destination extent is used: the others, and every
      `numBlocks`, can be anything. */
  lemma OnlyFirstExtentUsed(ctx: Context, data: seq<byte>, image: seq<byte>,
                            op: InstallOperation, numBlocks: Long, more: seq<Extent>, codecs: Codecs)
    requires |op.dstExtents| > 0
    ensures var first := op.dstExtents[0];
      ApplyOp(ctx, data, image, op.(dstExtents := [Extent(first.startBlock, numBlocks)] + more), codecs)
        == ApplyOp(ctx, data, image, op, codecs)
  {
    var other := op.(dstExtents := [Extent(op.dstExtents[0].startBlock, numBlocks)] + more);
    assert other.dstExtents[0].startBlock == op.dstExtents[0].startBlock;
    assert SourcePosition(ctx, other) == SourcePosition(ctx, op);
    assert DestinationPosition(ctx, other) == DestinationPosition(ctx, op);
  }

  function Names(parts: seq<PartitionUpdate>): set<string>
  {
    set p | p in parts :: p.partitionName
  }

  lemma NamesAppend(prefix: seq<PartitionUpdate>, last: PartitionUpdate)
    ensures Names(prefix + [last]) == Names(prefix) + {last.partitionName}
  {
    var all := prefix + [last];
    forall n | n in Names(all)
      ensures n in Names(prefix) + {last.partitionName}
    {
      var p :| p in all && p.partitionName == n;
      if p != last {
        assert p in prefix;
      }
    }
    assert last in all;
    forall n | n in Names(prefix)
      ensures n in Names(all)
    {
      var p :| p in prefix && p.partitionName == n;
      assert p in all;
    }
  }

  /** The run creates files only for partitions in the list, and a successful
      run creates one for each; `UnstartedPartitionsNotCreated` narrows this
      to the partitions actually started. */
  lemma {:induction false} ExtractAllFiles(ctx: Context, data: seq<byte>, files: map<string, seq<byte>>,
                                          parts: seq<PartitionUpdate>, codecs: Codecs)
    ensures ExtractAll(ctx, data, files, parts, codecs).files.Keys <= files.Keys + Names(parts)
    ensures ExtractAll(ctx, data, files, parts, codecs).err.None? ==>
              ExtractAll(ctx, data, files, parts, codecs).files.Keys == files.Keys + Names(parts)
    decreases |parts|
  {
    if parts != [] {
      var prefix := parts[..|parts| - 1];
      var last := parts[|parts| - 1];
      ExtractAllFiles(ctx, data, files, prefix, codecs);
      var before := ExtractAll(ctx, data, files, prefix, codecs);
      assert parts == prefix + [last];
      NamesAppend(prefix, last);
      if before.err.None? {
        assert ExtractAll(ctx, data, files, parts, codecs) == ExtractOne(ctx, data, before.files, last, codecs);
      } else {
        assert ExtractAll(ctx, data, files, parts, codecs) == before;
      }
    }
  }

  /** When partition `i - 1` or an earlier one fails, the run ends with that
      error, and every file is either an old one or named after one of the
      first `i` partitions (a later partition with a new name gets no file). */
  lemma UnstartedPartitionsNotCreated(ctx: Context, data: seq<byte>, files: map<string, seq<byte>>,
                                      parts: seq<PartitionUpdate>, i: nat, codecs: Codecs)
    requires i <= |parts|
    requires ExtractAll(ctx, data, files, parts[..i], codecs).err.Some?
    ensures ExtractAll(ctx, data, files, parts, codecs).err == ExtractAll(ctx, data, files, parts[..i], codecs).err
    ensures ExtractAll(ctx, data, files, parts, codecs).files.Keys <= files.Keys + Names(parts[..i])
  {
    ExtractAllStopsAtError(ctx, data, files, parts, i, codecs);
    ExtractAllFiles(ctx, data, files, parts[..i], codecs);
  }

  /** Extracting the last of distinct partitions into a folder that already
      holds the images of the others adds its own image and keeps theirs. */
  lemma LastPartitionImage(ctx: Context, data: seq<byte>, files: map<string, seq<byte>>,
                           parts: seq<PartitionUpdate>, codecs: Codecs)
    requires parts != []
    requires forall i, j :: 0 <= i < j < |parts| ==> parts[i].partitionName != parts[j].partitionName
    requires parts[|parts| - 1].partitionName !in files
    requires forall i :: 0 <= i < |parts| - 1 ==>
      && parts[i].partitionName in files
      && files[parts[i].partitionName] == ApplyOps(ctx, data, [], parts[i].operations, codecs).image
    ensures var after := ExtractOne(ctx, data, files, parts[|parts| - 1], codecs);
      forall i :: 0 <= i < |parts| ==>
        && parts[i].partitionName in after.files
        && after.files[parts[i].partitionName] == ApplyOps(ctx, data, [], parts[i].operations, codecs).image
  {
    var last := |parts| - 1;
    var after := ExtractOne(ctx, data, files, parts[last], codecs);
    assert after.files[parts[last].partitionName] == ApplyOps(ctx, data, [], parts[last].operations, codecs).image;
    forall i | 0 <= i < last
      ensures parts[i].partitionName in after.files
      ensures after.files[parts[i].partitionName] == ApplyOps(ctx, data, [], parts[i].operations, codecs).image
    {
      assert parts[i].partitionName != parts[last].partitionName;
    }
  }

  /** With distinct partition names and a new output folder, a successful run
      leaves each partition's file holding exactly what its own operations
      write into an empty image. */
  lemma {:induction false} PartitionImages(ctx: Context, data: seq<byte>, parts: seq<PartitionUpdate>, codecs: Codecs)
    requires forall i, j :: 0 <= i < j < |parts| ==> parts[i].partitionName != parts[j].partitionName
    requires ExtractAll(ctx, data, map[], parts, codecs).err.None?
    ensures forall i :: 0 <= i < |parts| ==>
      && parts[i].partitionName in ExtractAll(ctx, data, map[], parts, codecs).files
      && ExtractAll(ctx, data, map[], parts, codecs).files[parts[i].partitionName]
           == ApplyOps(ctx, data, [], parts[i].operations, codecs).image
    decreases |parts|
  {
    if parts != [] {
      var last := |parts| - 1;
      var prefix := parts[..last];
      var before := ExtractAll(ctx, data, map[], prefix, codecs);
      assert before.err.None?;
      assert forall i :: 0 <= i < last ==> prefix[i] == parts[i];
      PartitionImages(ctx, data, prefix, codecs);
      ExtractAllFiles(ctx, data, map[], prefix, codecs);
      assert parts[last].partitionName !in before.files;
      assert ExtractAll(ctx, data, map[], parts, codecs) == ExtractOne(ctx, data, before.files, parts[last], codecs);
      LastPartitionImage(ctx, data, before.files, parts, codecs);
    }
  }
}
