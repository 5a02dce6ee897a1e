/** `main` once the arguments are in hand: the header, the manifest, the
    incremental-update and output-folder checks, then every partition in
    manifest order. Each error that ends the process is a returned error. */
module Extractor {
  import opened Bytes
  import opened Metadata
  import opened Outcomes
  import opened Payload
  import opened Extract

  /** The output folder after a run, and the error that ended it, if any. */
  datatype RunOutcome = RunOutcome(present: bool, files: map<string, seq<byte>>, err: Option<Error>)

  /** A whole run on a payload `data`, with the manifest decoder `decode` and
      the output folder found as `present` / `files`. */
  function RunSpec(data: seq<byte>, decode: seq<byte> -> Option<Manifest>, codecs: Codecs,
                   present: bool, files: map<string, seq<byte>>): (r: RunOutcome)
    ensures present ==> r.present && r.files == files && r.err.Some?
    ensures !r.present ==> r.files == files && r.err.Some?
    ensures r.err.None? ==> r.present && !present
  {
    var parsed := ParseHeader(data);
    if parsed.Failure? then RunOutcome(present, files, Some(parsed.error))
    else
      var h := parsed.value;
      var dam := decode(h.manifest);
      if dam.None? then RunOutcome(present, files, Some(ManifestUnreadable))
      else if dam.value.minorVersion != 0 then RunOutcome(present, files, Some(IncrementalOta))
      else if present then RunOutcome(present, files, Some(OutputExists))
      else
        var r := ExtractAll(Context(h.dataOffset, dam.value.blockSize), data, map[], dam.value.partitions, codecs);
        RunOutcome(true, r.files, r.err)
  }

  /** The partition loop of `main`: each partition in manifest order, until one fails. */
  method ExtractPartitions(parts: seq<PartitionUpdate>, ota: PayloadFile, dir: OutputDir, ctx: Context, codecs: Codecs)
    returns (err: Option<Error>)
    modifies ota, dir
    ensures dir.present == old(dir.present)
    ensures Extraction(dir.files, err) == ExtractAll(ctx, ota.data, old(dir.files), parts, codecs)
  {
    ghost var files := dir.files;
    var i := 0;
    err := None;
    while i < |parts| && err.None?
      invariant 0 <= i <= |parts|
      invariant dir.present == old(dir.present)
      invariant Extraction(dir.files, err) == ExtractAll(ctx, ota.data, files, parts[..i], codecs)
    {
      ExtractAllStep(ctx, ota.data, files, parts, i, codecs);
      err := ExtractPartition(parts[i], ota, dir, ctx, codecs);
      i := i + 1;
    }
    ExtractAllStopsAtError(ctx, ota.data, files, parts, i, codecs);
  }

  /** `main`: the payload is read from its start; `offset` is the file
      pointer after the header and `targetBlkSize` the manifest's block size. */
  method Run(ota: PayloadFile, decode: seq<byte> -> Option<Manifest>, codecs: Codecs, dir: OutputDir)
    returns (err: Option<Error>)
    requires ota.pos == 0
    modifies ota, dir
    ensures RunOutcome(dir.present, dir.files, err)
              == RunSpec(ota.data, decode, codecs, old(dir.present), old(dir.files))
  {
    var header := ReadHeader(ota);
    if header.Failure? {
      return Some(header.error);
    }
    var offset := ota.pos;
    var dam := decode(header.value.manifest);
    if dam.None? {
      return Some(ManifestUnreadable);
    }
    var targetBlkSize := dam.value.blockSize;
    if dam.value.minorVersion != 0 {
      return Some(IncrementalOta);
    }
    if dir.present {
      return Some(OutputExists);
    }
    dir.Mkdir();
    err := ExtractPartitions(dam.value.partitions, ota, dir, Context(offset, targetBlkSize), codecs);
  }
}

/** Properties of a whole run. */
module ExtractorFacts {
  import opened Bytes
  import opened Metadata
  import opened Outcomes
  import opened Payload
  import opened PayloadFacts
  import opened Extract
  import opened ExtractFacts
  import opened Extractor

  /** A file that does not start with "CrAU" is rejected before anything else
      happens: no manifest is decoded and the output folder is left as it is. */
  lemma BadMagicStopsEverything(data: seq<byte>, decode: seq<byte> -> Option<Manifest>, codecs: Codecs,
                                present: bool, files: map<string, seq<byte>>)
    requires |data| < 4 || data[..4] != MAGIC
    ensures RunSpec(data, decode, codecs, present, files) == RunOutcome(present, files, Some(UnsupportedFile))
  {
    MagicChecked(data);
  }

  /** An incremental update (`minorVersion != 0`) is rejected whether or not
      the output folder exists, and the folder is neither checked nor created. */
  lemma IncrementalRejectedBeforeOutputFolder(data: seq<byte>, decode: seq<byte> -> Option<Manifest>, codecs: Codecs,
                                              present: bool, files: map<string, seq<byte>>)
    requires ParseHeader(data).Success?
    requires decode(ParseHeader(data).value.manifest).Some?
    requires decode(ParseHeader(data).value.manifest).value.minorVersion != 0
    ensures RunSpec(data, decode, codecs, present, files) == RunOutcome(present, files, Some(IncrementalOta))
  {
  }

  /** A full update with an existing output folder is rejected before any
      partition is extracted: the folder's files stay as they were. */
  lemma ExistingOutputRejected(data: seq<byte>, decode: seq<byte> -> Option<Manifest>, codecs: Codecs,
                               files: map<string, seq<byte>>)
    requires ParseHeader(data).Success?
    requires decode(ParseHeader(data).value.manifest).Some?
    requires decode(ParseHeader(data).value.manifest).value.minorVersion == 0
    ensures RunSpec(data, decode, codecs, true, files) == RunOutcome(true, files, Some(OutputExists))
  {
  }

  /** The output folder is created exactly when the header parses, the
      manifest decodes, the update is full and the folder is not there yet;
      otherwise the run ends with an error and the folder is left as it was. */
  lemma ExtractionReachedOnlyFromNewFolder(data: seq<byte>, decode: seq<byte> -> Option<Manifest>, codecs: Codecs,
                                           present: bool, files: map<string, seq<byte>>)
    ensures var r := RunSpec(data, decode, codecs, present, files);
      (r.present && !present)
        <==> (&& ParseHeader(data).Success?
              && decode(ParseHeader(data).value.manifest).Some?
              && decode(ParseHeader(data).value.manifest).value.minorVersion == 0
              && !present)
    ensures var r := RunSpec(data, decode, codecs, present, files);
      !(r.present && !present) ==> r.present == present && r.files == files && r.err.Some?
  {
  }

  /** A run that creates the output folder fills it only with files named
      after the manifest's partitions, and, when it succeeds, with one file
      for every partition. */
  lemma RunFilesArePartitions(data: seq<byte>, decode: seq<byte> -> Option<Manifest>, codecs: Codecs,
                              files: map<string, seq<byte>>)
    requires ParseHeader(data).Success?
    requires decode(ParseHeader(data).value.manifest).Some?
    requires decode(ParseHeader(data).value.manifest).value.minorVersion == 0
    ensures var parts := decode(ParseHeader(data).value.manifest).value.partitions;
      var r := RunSpec(data, decode, codecs, false, files);
      && r.present
      && r.files.Keys <= Names(parts)
      && (r.err.None? ==> r.files.Keys == Names(parts))
  {
    var h := ParseHeader(data).value;
    var m := decode(h.manifest).value;
    ExtractAllFiles(Context(h.dataOffset, m.blockSize), data, map[], m.partitions, codecs);
  }

  /** A successful run over distinct partition names leaves, for each
      partition, the image its own operations write into an empty file, with
      operation data read from the header's data offset on. */
  lemma SuccessfulRunImages(data: seq<byte>, decode: seq<byte> -> Option<Manifest>, codecs: Codecs,
                            files: map<string, seq<byte>>)
    requires ParseHeader(data).Success?
    requires decode(ParseHeader(data).value.manifest).Some?
    requires decode(ParseHeader(data).value.manifest).value.minorVersion == 0
    requires var parts := decode(ParseHeader(data).value.manifest).value.partitions;
      forall i, j :: 0 <= i < j < |parts| ==> parts[i].partitionName != parts[j].partitionName
    requires RunSpec(data, decode, codecs, false, files).err.None?
    ensures var h := ParseHeader(data).value;
      var m := decode(h.manifest).value;
      var r := RunSpec(data, decode, codecs, false, files);
      forall i :: 0 <= i < |m.partitions| ==>
        && m.partitions[i].partitionName in r.files
        && r.files[m.partitions[i].partitionName]
             == ApplyOps(Context(h.dataOffset, m.blockSize), data, [], m.partitions[i].operations, codecs).image
  {
    var h := ParseHeader(data).value;
    var m := decode(h.manifest).value;
    PartitionImages(Context(h.dataOffset, m.blockSize), data, m.partitions, codecs);
  }
}
