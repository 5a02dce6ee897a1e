/** The payload file and its header framing:
      magic "CrAU" (4 bytes) | format version (8) | manifest size (8)
      | manifest signature size (4, only when version > 1)
      | manifest | manifest signature (only when version > 1) | operation data.
    The header is read with unchecked `RandomAccessFile.read` calls: a read
    that hits the end of the file leaves the rest of its buffer zero. */
module Payload {
  import opened Bytes
  import opened Outcomes

  /** "CrAU" */
  const MAGIC: seq<byte> := [67, 114, 65, 85]

  const VERSION_AT := 4
  const MANIFEST_SIZE_AT := 12
  const SIGNATURE_SIZE_AT := 20

  function Min(a: int, b: int): int { if a <= b then a else b }

  /** How many bytes a read into an `n`-byte buffer at position `at` of a
      `len`-byte file delivers: all `n`, unless the file ends first. */
  function Available(len: nat, at: nat, n: nat): (k: nat)
    ensures k <= n
    ensures k == n || at + k >= len
    ensures at < len ==> at + k <= len
    ensures at >= len ==> k == 0
  {
    if at >= len then 0 else Min(n, len - at)
  }

  function Zeros(n: nat): (z: seq<byte>)
    ensures |z| == n && forall i :: 0 <= i < n ==> z[i] == 0
  {
    seq(n, _ => 0)
  }

  /** The content of an `n`-byte buffer after an unchecked read at absolute
      position `at`: the file's bytes where it has them, 0 past its end. */
  function Field(data: seq<byte>, at: nat, n: nat): (buf: seq<byte>)
    ensures |buf| == n
    ensures forall i :: 0 <= i < n ==> buf[i] == if at + i < |data| then data[at + i] else 0
  {
    if at >= |data| then Zeros(n)
    else
      var k := Available(|data|, at, n);
      data[at..at + k] + Zeros(n - k)
  }

  /** What a stream opened on the file at position `at` delivers. */
  function Tail(data: seq<byte>, at: nat): (rest: seq<byte>)
    ensures |rest| == if at < |data| then |data| - at else 0
    ensures forall i :: 0 <= i < |rest| ==> rest[i] == data[at + i]
  {
    if at < |data| then data[at..] else []
  }

  lemma FieldInside(data: seq<byte>, at: nat, n: nat)
    requires at + n <= |data|
    ensures Field(data, at, n) == data[at..at + n]
  {
  }

  /** A read from where a sequence of unchecked reads leaves the file
      pointer is the field at the nominal offset, and the pointer again
      stops at the nominal offset or the end of the file. */
  lemma ReadAtCursor(data: seq<byte>, at: nat, n: nat)
    ensures Field(data, Min(at, |data|), n) == Field(data, at, n)
    ensures Min(at, |data|) + Available(|data|, Min(at, |data|), n) == Min(at + n, |data|)
  {
  }

  /** The input file (`RandomAccessFile(path, "r")`) and its file pointer. */
  class PayloadFile {
    const data: seq<byte>
    var pos: nat

    constructor (data: seq<byte>)
      ensures this.data == data && pos == 0
    {
      this.data := data;
      pos := 0;
    }

    /** `seek`: a negative position throws, any other is accepted. */
    method Seek(p: Long) returns (ok: bool)
      modifies this
      ensures ok <==> p >= 0
      ensures pos == if ok then p else old(pos)
    {
      ok := p >= 0;
      if ok {
        pos := p;
      }
    }

    /** `read(buffer)` into a fresh `n`-byte buffer, result count ignored. */
    method Read(n: nat) returns (buf: seq<byte>)
      modifies this
      ensures buf == Field(data, old(pos), n)
      ensures pos == old(pos) + Available(|data|, old(pos), n)
    {
      buf := Field(data, pos, n);
      pos := pos + Available(|data|, pos, n);
    }

    /** The bytes an input stream opened on the file's channel delivers. */
    method Remaining() returns (rest: seq<byte>)
      ensures rest == Tail(data, pos)
      ensures |rest| == if pos < |data| then |data| - pos else 0
      ensures forall i :: 0 <= i < |rest| ==> rest[i] == data[pos + i]
    {
      rest := Tail(data, pos);
    }
  }

  datatype Header = Header(
    version: Long,
    manifestSize: nat,
    signatureSize: nat,
    manifest: seq<byte>,
    signature: seq<byte>,
    dataOffset: nat)    // where operation data starts

  /** Where the manifest starts: after the signature-size field when the
      version is above 1. */
  function ManifestAt(version: int): (at: nat)
    ensures at == |MAGIC| + 8 + 8 + (if version > 1 then 4 else 0)
  {
    if version > 1 then SIGNATURE_SIZE_AT + 4 else SIGNATURE_SIZE_AT
  }

  /** The header whose fields have been read: the manifest and the signature
      follow the size fields back to back. Below version 2 no signature size
      is read, so the signature is empty. */
  function HeaderOf(data: seq<byte>, version: Long, manifestSize: nat, signatureSize: nat): (h: Header)
    requires version <= 1 ==> signatureSize == 0
    ensures h.version == version && h.manifestSize == manifestSize && h.signatureSize == signatureSize
    ensures |h.manifest| == manifestSize
    ensures |h.signature| == if version > 1 then signatureSize else 0
    ensures ManifestAt(version) + manifestSize + signatureSize <= |data| ==>
              h.dataOffset == ManifestAt(version) + manifestSize + signatureSize
    ensures h.dataOffset <= |data|
  {
    var manifestAt := ManifestAt(version);
    var signatureAt := manifestAt + manifestSize;
    Header(
      version, manifestSize, signatureSize,
      Field(data, manifestAt, manifestSize),
      if version > 1 then Field(data, signatureAt, signatureSize) else [],
      Min(signatureAt + signatureSize, |data|))
  }

  /** The header as laid out at absolute offsets in the file. */
  function ParseHeader(data: seq<byte>): (r: Result<Header>)
    ensures r.Failure? ==> r.error == UnsupportedFile || r.error == NegativeArraySize
    ensures r == Failure(UnsupportedFile) <==> Field(data, 0, 4) != MAGIC
    ensures r.Success? ==> && |r.value.manifest| == r.value.manifestSize < TWO_31
                           && r.value.signatureSize < TWO_31
                           && r.value.dataOffset <= |data|
  {
    if Field(data, 0, 4) != MAGIC then Failure(UnsupportedFile)
    else
      var version := DecodeLong(Field(data, VERSION_AT, 8));
      var manifestSize := DecodeInt(Field(data, MANIFEST_SIZE_AT, 8));
      var signatureSize := if version > 1 then DecodeInt(Field(data, SIGNATURE_SIZE_AT, 4)) else 0;
      if manifestSize < 0 || signatureSize < 0 then Failure(NegativeArraySize)
      else Success(HeaderOf(data, version, manifestSize, signatureSize))
  }

  lemma ParseHeaderFields(data: seq<byte>, version: Long, manifestSize: Int, signatureSize: Int)
    requires Field(data, 0, 4) == MAGIC
    requires version == DecodeLong(Field(data, VERSION_AT, 8))
    requires manifestSize == DecodeInt(Field(data, MANIFEST_SIZE_AT, 8))
    requires signatureSize == if version > 1 then DecodeInt(Field(data, SIGNATURE_SIZE_AT, 4)) else 0
    ensures manifestSize < 0 || signatureSize < 0 ==> ParseHeader(data) == Failure(NegativeArraySize)
    ensures manifestSize >= 0 && signatureSize >= 0 ==>
      ParseHeader(data) == Success(HeaderOf(data, version, manifestSize, signatureSize))
  {
  }

  /** One unchecked read, seen from the nominal offset `at` of the field. */
  method ReadField(ota: PayloadFile, ghost at: nat, n: nat) returns (buf: seq<byte>)
    requires ota.pos == Min(at, |ota.data|)
    modifies ota
    ensures buf == Field(ota.data, at, n)
    ensures ota.pos == Min(at + n, |ota.data|)
  {
    ReadAtCursor(ota.data, at, n);
    buf := ota.Read(n);
  }

  /** The version and the two size fields, read after the magic. The
      signature-size buffer stays all zero below version 2. */
  method ReadSizeFields(ota: PayloadFile) returns (version: Long, manifestSizeBytes: seq<byte>, signatureSizeBytes: seq<byte>)
    requires ota.pos == Min(VERSION_AT, |ota.data|)
    modifies ota
    ensures version == DecodeLong(Field(ota.data, VERSION_AT, 8))
    ensures manifestSizeBytes == Field(ota.data, MANIFEST_SIZE_AT, 8)
    ensures signatureSizeBytes == if version > 1 then Field(ota.data, SIGNATURE_SIZE_AT, 4) else Zeros(4)
    ensures ota.pos == Min(ManifestAt(version), |ota.data|)
  {
    var versionBytes := ReadField(ota, VERSION_AT, 8);
    version := ToLong(versionBytes);
    manifestSizeBytes := ReadField(ota, MANIFEST_SIZE_AT, 8);
    signatureSizeBytes := Zeros(4);
    if version > 1 {
      signatureSizeBytes := ReadField(ota, SIGNATURE_SIZE_AT, 4);
    }
  }

  /** The header reading in `main`: field after field from the file pointer,
      then the file pointer as the start of the operation data. */
  method ReadHeader(ota: PayloadFile) returns (r: Result<Header>)
    requires ota.pos == 0
    modifies ota
    ensures r == ParseHeader(ota.data)
    ensures r == Failure(UnsupportedFile) ==> ota.pos == Min(4, |ota.data|)
    ensures r.Success? ==> ota.pos == r.value.dataOffset
  {
    ghost var data := ota.data;
    var magicBytes := ReadField(ota, 0, 4);
    if magicBytes != MAGIC {
      return Failure(UnsupportedFile);
    }
    var version, manifestSizeBytes, signatureSizeBytes := ReadSizeFields(ota);
    ghost var at: nat := ManifestAt(version);
    var manifestSize := ToInt(manifestSizeBytes);
    ZeroBytesDecodeToZero(Zeros(4));
    ParseHeaderFields(data, version, manifestSize, DecodeInt(signatureSizeBytes));
    if manifestSize < 0 {
      return Failure(NegativeArraySize);
    }
    var manifest := ReadField(ota, at, manifestSize);
    at := at + manifestSize;
    var signatureSize := ToInt(signatureSizeBytes);
    if signatureSize < 0 {
      return Failure(NegativeArraySize);
    }
    var signature := Zeros(signatureSize);
    if version > 1 {
      signature := ReadField(ota, at, signatureSize);
      at := at + signatureSize;
    }
    r := Success(Header(version, manifestSize, signatureSize, manifest, signature, ota.pos));
  }
}

/** Properties of the header framing. */
module PayloadFacts {
  import opened Bytes
  import opened Outcomes
  import opened Payload

  /** The file is rejected as unsupported exactly when its first four bytes
      are not "CrAU" (a file shorter than four bytes included). */
  lemma MagicChecked(data: seq<byte>)
    ensures ParseHeader(data) == Failure(UnsupportedFile) <==> |data| < 4 || data[..4] != MAGIC
  {
    if |data| >= 4 {
      FieldInside(data, 0, 4);
    } else {
      assert Field(data, 0, 4)[3] == 0;
    }
  }

  /** Operation data starts right after the signature block: the sum of the
      field sizes, cut at the end of the file (reads past it are short and
      unchecked). Below version 2 there is no signature at all. */
  lemma DataOffsetAfterSignature(data: seq<byte>)
    requires ParseHeader(data).Success?
    ensures var h := ParseHeader(data).value;
      && h.dataOffset == Min(4 + 8 + 8 + (if h.version > 1 then 4 else 0) + h.manifestSize + h.signatureSize, |data|)
      && |h.manifest| == h.manifestSize
      && (h.version <= 1 ==> h.signatureSize == 0 && h.signature == [])
      && (h.version > 1 ==> |h.signature| == h.signatureSize)
  {
  }

  /** An 8-byte version with its top bit set reads as a negative `Long`, so
      no signature-size field is read and the manifest starts at byte 20. */
  lemma TopBitVersionHasNoSignature(data: seq<byte>)
    requires |data| > VERSION_AT && data[VERSION_AT] >= 128
    requires ParseHeader(data).Success?
    ensures var h := ParseHeader(data).value;
      && h.version < 0
      && h.signatureSize == 0 && h.signature == []
      && h.manifest == Field(data, 20, h.manifestSize)
  {
    var f := Field(data, VERSION_AT, 8);
    assert f[0] == data[VERSION_AT];
    LongSignBit(f);
  }

  /** Only the low four bytes of the 8-byte manifest size count (`toInt`). */
  lemma ManifestSizeIsLowWord(data: seq<byte>)
    requires ParseHeader(data).Success?
    ensures ParseHeader(data).value.manifestSize == DecodeInt(Field(data, MANIFEST_SIZE_AT + 4, 4))
  {
    var f := Field(data, MANIFEST_SIZE_AT, 8);
    IntUsesLastFourBytes(f);
    assert f[4..] == Field(data, MANIFEST_SIZE_AT + 4, 4);
  }

  /** A manifest size whose low word has its top bit set is rejected. */
  lemma NegativeManifestSizeRejected(data: seq<byte>)
    requires |data| > 16 && data[..4] == MAGIC && data[16] >= 128
    ensures ParseHeader(data) == Failure(NegativeArraySize)
  {
    FieldInside(data, 0, 4);
    var f := Field(data, MANIFEST_SIZE_AT, 8);
    IntUsesLastFourBytes(f);
    var low := f[4..];
    BigEndianHead(low);
    Pow256Values();
    assert low[0] == data[16];
    assert low[0] * Pow256(3) >= 128 * Pow256(3);
  }

  /** A header written with the layout above. */
  function Frame(version: nat, manifest: seq<byte>, signature: seq<byte>): seq<byte>
  {
    MAGIC + EncodeBE(version, 8) + EncodeBE(|manifest|, 8)
    + (if version > 1 then EncodeBE(|signature|, 4) else [])
    + manifest
    + (if version > 1 then signature else [])
  }

  lemma FieldHead(piece: seq<byte>, post: seq<byte>)
    ensures Field(piece + post, 0, |piece|) == piece
  {
    FieldInside(piece + post, 0, |piece|);
    assert (piece + post)[..|piece|] == piece;
  }

  lemma FieldSkip(pre: seq<byte>, data: seq<byte>, at: nat, n: nat)
    ensures Field(pre + data, |pre| + at, n) == Field(data, at, n)
  {
    var x, y := Field(pre + data, |pre| + at, n), Field(data, at, n);
    assert forall i :: 0 <= i < n ==> x[i] == y[i];
  }

  lemma SizeRoundTrip(v: nat, n: nat)
    requires v < TWO_31 && (n == 4 || n == 8)
    ensures DecodeInt(EncodeBE(v, n)) == v
  {
    Pow256Values();
    Pow256Monotone(4, n);
    DecodeEncode(v, n);
  }

  /** The header as its pieces, innermost last: magic, version, manifest
      size, signature size (or nothing), manifest, signature (or nothing). */
  function Pieces(version: nat, manifest: seq<byte>, signature: seq<byte>, rest: seq<byte>): seq<seq<byte>>
  {
    [MAGIC, EncodeBE(version, 8), EncodeBE(|manifest|, 8),
     if version > 1 then EncodeBE(|signature|, 4) else [],
     manifest,
     if version > 1 then signature else [],
     rest]
  }

  /** The concatenation of `ps[k..]`. */
  function Join(ps: seq<seq<byte>>, k: nat): seq<byte>
    requires k <= |ps|
    decreases |ps| - k
  {
    if k == |ps| then [] else ps[k] + Join(ps, k + 1)
  }

  /** The offset of piece `k`. */
  function Offset(ps: seq<seq<byte>>, k: nat): nat
    requires k <= |ps|
  {
    if k == 0 then 0 else Offset(ps, k - 1) + |ps[k - 1]|
  }

  lemma {:induction false} JoinLength(ps: seq<seq<byte>>, k: nat)
    requires k <= |ps|
    ensures |Join(ps, 0)| == Offset(ps, k) + |Join(ps, k)|
    decreases k
  {
    if k > 0 {
      JoinLength(ps, k - 1);
    }
  }

  /** Piece `k` is the field at its offset. */
  lemma {:induction false} PieceIsField(ps: seq<seq<byte>>, j: nat, k: nat, at: nat)
    requires j <= k < |ps| && at == Offset(ps, k) - Offset(ps, j)
    ensures Field(Join(ps, j), at, |ps[k]|) == ps[k]
    decreases k - j
  {
    if j == k {
      FieldHead(ps[k], Join(ps, k + 1));
    } else {
      OffsetGrows(ps, j + 1, k);
      FieldSkip(ps[j], Join(ps, j + 1), at - |ps[j]|, |ps[k]|);
      PieceIsField(ps, j + 1, k, at - |ps[j]|);
    }
  }

  lemma {:induction false} OffsetGrows(ps: seq<seq<byte>>, j: nat, k: nat)
    requires j <= k <= |ps|
    ensures Offset(ps, j) <= Offset(ps, k)
    decreases k - j
  {
    if j < k {
      OffsetGrows(ps, j, k - 1);
    }
  }

  lemma JoinPieces(version: nat, manifest: seq<byte>, signature: seq<byte>, rest: seq<byte>)
    ensures var ps := Pieces(version, manifest, signature, rest);
      && Join(ps, 0) == Frame(version, manifest, signature) + rest
      && Offset(ps, 1) == VERSION_AT
      && Offset(ps, 2) == MANIFEST_SIZE_AT
      && Offset(ps, 3) == SIGNATURE_SIZE_AT
      && Offset(ps, 4) == ManifestAt(version)
      && Offset(ps, 5) == ManifestAt(version) + |manifest|
      && Offset(ps, 6) == |Frame(version, manifest, signature)|
  {
    JoinOfPieces(version, manifest, signature, rest);
    OffsetsOfPieces(version, manifest, signature, rest);
  }

  lemma JoinOfPieces(version: nat, manifest: seq<byte>, signature: seq<byte>, rest: seq<byte>)
    ensures Join(Pieces(version, manifest, signature, rest), 0) == Frame(version, manifest, signature) + rest
  {
    var ps := Pieces(version, manifest, signature, rest);
    assert Join(ps, 7) == [];
    assert Join(ps, 6) == rest;
    assert Join(ps, 5) == ps[5] + rest;
    assert Join(ps, 4) == ps[4] + (ps[5] + rest);
    assert Join(ps, 3) == ps[3] + (ps[4] + (ps[5] + rest));
    assert Join(ps, 2) == ps[2] + (ps[3] + (ps[4] + (ps[5] + rest)));
    assert Join(ps, 1) == ps[1] + (ps[2] + (ps[3] + (ps[4] + (ps[5] + rest))));
    assert Join(ps, 0) == ps[0] + (ps[1] + (ps[2] + (ps[3] + (ps[4] + (ps[5] + rest)))));
  }

  lemma OffsetsOfPieces(version: nat, manifest: seq<byte>, signature: seq<byte>, rest: seq<byte>)
    ensures var ps := Pieces(version, manifest, signature, rest);
      && Offset(ps, 1) == VERSION_AT
      && Offset(ps, 2) == MANIFEST_SIZE_AT
      && Offset(ps, 3) == SIGNATURE_SIZE_AT
      && Offset(ps, 4) == ManifestAt(version)
      && Offset(ps, 5) == ManifestAt(version) + |manifest|
      && Offset(ps, 6) == |Frame(version, manifest, signature)|
  {
    var ps := Pieces(version, manifest, signature, rest);
    assert Offset(ps, 1) == 4;
    assert Offset(ps, 2) == 12;
    assert Offset(ps, 3) == 20;
  }

  /** Parsing a header written with the layout gives back its fields, and the
      operation data starts right after it, whatever follows. */
  lemma FrameRoundTrip(version: nat, manifest: seq<byte>, signature: seq<byte>, rest: seq<byte>)
    requires version < TWO_63 && |manifest| < TWO_31 && |signature| < TWO_31
    requires version <= 1 ==> signature == []
    ensures ParseHeader(Frame(version, manifest, signature) + rest)
      == Success(Header(version, |manifest|, |signature|, manifest, signature,
                        |Frame(version, manifest, signature)|))
  {
    var ps := Pieces(version, manifest, signature, rest);
    var data := Join(ps, 0);
    JoinPieces(version, manifest, signature, rest);
    JoinLength(ps, 6);
    PieceIsField(ps, 0, 0, 0);
    PieceIsField(ps, 0, 1, VERSION_AT);
    PieceIsField(ps, 0, 2, MANIFEST_SIZE_AT);
    PieceIsField(ps, 0, 4, ManifestAt(version));
    LongRoundTrip(version);
    SizeRoundTrip(|manifest|, 8);
    if version > 1 {
      PieceIsField(ps, 0, 3, SIGNATURE_SIZE_AT);
      PieceIsField(ps, 0, 5, ManifestAt(version) + |manifest|);
      SizeRoundTrip(|signature|, 4);
    }
    ParseHeaderOk(data, version, manifest, signature, |Frame(version, manifest, signature)|);
  }

  lemma ParseHeaderOk(data: seq<byte>, version: Long, manifest: seq<byte>, signature: seq<byte>, offset: nat)
    requires Field(data, 0, 4) == MAGIC
    requires version == DecodeLong(Field(data, VERSION_AT, 8))
    requires |manifest| < TWO_31 && |signature| < TWO_31
    requires |manifest| == DecodeInt(Field(data, MANIFEST_SIZE_AT, 8))
    requires version > 1 ==> |signature| == DecodeInt(Field(data, SIGNATURE_SIZE_AT, 4))
    requires version <= 1 ==> signature == []
    requires Field(data, ManifestAt(version), |manifest|) == manifest
    requires version > 1 ==> Field(data, ManifestAt(version) + |manifest|, |signature|) == signature
    requires offset == ManifestAt(version) + |manifest| + |signature| <= |data|
    ensures ParseHeader(data) == Success(Header(version, |manifest|, |signature|, manifest, signature, offset))
  {
    ParseHeaderFields(data, version, |manifest|, |signature|);
    var h := HeaderOf(data, version, |manifest|, |signature|);
    assert h.manifest == manifest && h.signature == signature && h.dataOffset == offset;
  }
}
