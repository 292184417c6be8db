/** The container-format classifier `check_file_type` and the dispatcher
    `parse_file`. The classifier decides from a reader's bytes which
    container the stream holds; the dispatcher turns that tag and a file
    name into a parser handle or hands the reader back unchanged. */
module ImportHelper {
  import opened Streams

  /** The container tags the classifier can return. */
  datatype FileType = AssetsFile | BundleFile | WebFile | ZIP | ResourceFile

  /** The compression magics probed for. Their values are defined by the
      compression helpers, which are not part of this model, so they are
      parameters: `gzip` is compared with the 2 bytes at offset 0 and
      `brotli` with the 6 bytes at offset 0x20. */
  datatype Magics = Magics(gzip: seq<byte>, brotli: seq<byte>)

  // Signature literals, as bytes.
  const UnityWeb: seq<byte> := [0x55, 0x6E, 0x69, 0x74, 0x79, 0x57, 0x65, 0x62]  // "UnityWeb"
  const UnityRaw: seq<byte> := [0x55, 0x6E, 0x69, 0x74, 0x79, 0x52, 0x61, 0x77]  // "UnityRaw"
  const FaSignature: seq<byte> := [0xFA, 0xFA, 0xFA, 0xFA, 0xFA, 0xFA, 0xFA, 0xFA]  // eight 0xFA bytes
  const UnityFS: seq<byte> := [0x55, 0x6E, 0x69, 0x74, 0x79, 0x46, 0x53]  // "UnityFS"
  const BundleSignatures: seq<seq<byte>> := [UnityWeb, UnityRaw, FaSignature, UnityFS]

  const UnityWebData: seq<byte> :=  // "UnityWebData"
    [0x55, 0x6E, 0x69, 0x74, 0x79, 0x57, 0x65, 0x62, 0x44, 0x61, 0x74, 0x61]
  const TuanjieWebData: seq<byte> :=  // "TuanjieWebData"
    [0x54, 0x75, 0x61, 0x6E, 0x6A, 0x69, 0x65, 0x57, 0x65, 0x62, 0x44, 0x61, 0x74, 0x61]

  /** The ZIP local-file-header magic "PK\x03\x04" (PKWARE APPNOTE section 4.3.7). */
  const ZipSignature: seq<byte> := [0x50, 0x4B, 0x03, 0x04]

  /** The longest signature read, and the stream lengths below which each
      stage gives up. */
  const SignatureLength := 20
  const MinStructuralLength := 128
  const BrotliOffset := 0x20

  predicate StartsWith(s: seq<byte>, prefix: seq<byte>) {
    |prefix| <= |s| && s[..|prefix|] == prefix
  }

  /** The signature: the bytes from `pos` up to the first NUL, at most 20. */
  function Signature(data: seq<byte>, pos: nat): (sig: seq<byte>)
    ensures |sig| <= SignatureLength
  {
    NulTerminated(data, pos, SignatureLength)
  }

  /** The fields of an assets-file header, read only to be validated. */
  datatype Header = Header(metadataSize: int, fileSize: int, version: int, dataOffset: int)

  /** Bytes that reading a header may touch: four u32, then for version 22
      or later one u8, three reserved bytes, one u32 and three i64. */
  const HeaderReadLength := 48

  /** The header as read from offset 0 in the reader's own byte order. For
      version 22 and later the endian byte at offset 16 is skipped, not
      applied, and the sizes are re-read from offset 20: `metadataSize` as a
      u32, `fileSize` and `dataOffset` as signed i64. */
  function ReadHeader(data: seq<byte>, bigEndian: bool): (h: Header)
    requires |data| >= HeaderReadLength
    ensures h.version == U32At(data, 8, bigEndian)
    ensures 0 <= h.metadataSize < 0x1_0000_0000
    ensures h.version < 22 ==> 0 <= h.fileSize < 0x1_0000_0000 && 0 <= h.dataOffset < 0x1_0000_0000
    ensures h.version >= 22 ==>
              -0x8000_0000_0000_0000 <= h.fileSize < 0x8000_0000_0000_0000
              && -0x8000_0000_0000_0000 <= h.dataOffset < 0x8000_0000_0000_0000
  {
    var version := U32At(data, 8, bigEndian);
    if version >= 22 then
      Header(U32At(data, 20, bigEndian), I64At(data, 24, bigEndian), version, I64At(data, 32, bigEndian))
    else
      Header(U32At(data, 0, bigEndian), U32At(data, 4, bigEndian), version, U32At(data, 12, bigEndian))
  }

  predicate OutOfRange(x: int, length: nat) {
    x < 0 || x > length
  }

  /** The consistency test of the structural stage: none of the rejecting
      conditions holds. */
  predicate HeaderPlausible(h: Header, length: nat): (ok: bool)
    ensures ok <==> 0 <= h.version <= 100 && h.version <= length
                    && 0 <= h.metadataSize <= h.fileSize <= length
                    && 0 <= h.dataOffset <= h.fileSize
  {
    !(h.version < 0 || h.version > 100
      || OutOfRange(h.fileSize, length) || OutOfRange(h.metadataSize, length)
      || OutOfRange(h.version, length) || OutOfRange(h.dataOffset, length)
      || h.fileSize < h.metadataSize || h.fileSize < h.dataOffset)
  }

  /** The tag `check_file_type` gives a reader holding `data` at position
      `pos` in byte order `bigEndian`. */
  function Classify(data: seq<byte>, pos: nat, bigEndian: bool, magics: Magics): (t: FileType)
    ensures |data| < SignatureLength ==> t == ResourceFile
    ensures t == BundleFile ==> Signature(data, pos) in BundleSignatures
    ensures t == ZIP ==> Signature(data, pos) == ZipSignature
    ensures t == AssetsFile ==>
              |data| >= MinStructuralLength && HeaderPlausible(ReadHeader(data, bigEndian), |data|)
    ensures t == WebFile ==>
              StartsWith(Signature(data, pos), UnityWebData) || StartsWith(Signature(data, pos), TuanjieWebData)
              || (|data| >= MinStructuralLength
                  && (magics.gzip == data[0..2] || magics.brotli == data[BrotliOffset..BrotliOffset + 6]))
  {
    if |data| < SignatureLength then ResourceFile
    else
      var signature := Signature(data, pos);
      if signature in BundleSignatures then BundleFile
      else if StartsWith(signature, UnityWebData) || StartsWith(signature, TuanjieWebData) then WebFile
      else if signature == ZipSignature then ZIP
      else if |data| < MinStructuralLength then ResourceFile
      else if magics.gzip == data[0..2] then WebFile
      else if magics.brotli == data[BrotliOffset..BrotliOffset + 6] then WebFile
      else if HeaderPlausible(ReadHeader(data, bigEndian), |data|) then AssetsFile
      else ResourceFile
  }

  /** Where `check_file_type` leaves the cursor: untouched on a short
      stream, at 0 on every other path. */
  function PosAfter(data: seq<byte>, pos: nat): (p: nat)
    ensures p == 0 || p == pos
  {
    if |data| < SignatureLength then pos else 0
  }

  /** The speculative header read of the structural stage, from offset 0. */
  method ReadCandidateHeader(reader: EndianBinaryReader) returns (h: Header)
    requires reader.pos == 0 && |reader.data| >= HeaderReadLength
    modifies reader`pos
    ensures h == ReadHeader(reader.data, reader.bigEndian)
    ensures reader.pos == if h.version >= 22 then HeaderReadLength else 16
  {
    ghost var data, bigEndian := reader.data, reader.bigEndian;
    var metadataSize := reader.ReadU32();
    var fileSize := reader.ReadU32();
    var version := reader.ReadU32();
    var dataOffset := reader.ReadU32();
    assert version == U32At(data, 8, bigEndian);
    if version >= 22 {
      var rawEndian := reader.ReadU8();
      var endian := rawEndian != 0;  // decoded, never applied to the reader
      var reserved := reader.ReadBytes(3);
      metadataSize := reader.ReadU32();
      fileSize := reader.ReadI64();
      dataOffset := reader.ReadI64();
      var unknown := reader.ReadI64();
      assert metadataSize == U32At(data, 20, bigEndian);
      assert fileSize == I64At(data, 24, bigEndian) && dataOffset == I64At(data, 32, bigEndian);
    }
    h := Header(metadataSize, fileSize, version, dataOffset);
  }

  /** `check_file_type` on an existing reader. */
  method CheckFileType(reader: EndianBinaryReader, magics: Magics) returns (typ: FileType)
    modifies reader`pos, reader`bigEndian
    ensures typ == Classify(old(reader.data), old(reader.pos), old(reader.bigEndian), magics)
    ensures reader.data == old(reader.data) && reader.bigEndian == old(reader.bigEndian)
    ensures reader.pos == PosAfter(reader.data, old(reader.pos))
  {
    if reader.Length() < SignatureLength {
      return ResourceFile;
    }
    var signature := reader.ReadStringToNull(SignatureLength);
    reader.pos := 0;
    if signature in BundleSignatures {
      return BundleFile;
    } else if StartsWith(signature, UnityWebData) || StartsWith(signature, TuanjieWebData) {
      return WebFile;
    } else if signature == ZipSignature {
      return ZIP;
    }
    if reader.Length() < MinStructuralLength {
      return ResourceFile;
    }
    var magic := reader.ReadBytes(2);
    reader.pos := 0;
    if magics.gzip == magic {
      return WebFile;
    }
    reader.pos := BrotliOffset;
    magic := reader.ReadBytes(6);
    reader.pos := 0;
    if magics.brotli == magic {
      return WebFile;
    }

    // Read as if this were an assets file and check the header.
    var oldEndian := reader.bigEndian;
    reader.pos := 0;
    var header := ReadCandidateHeader(reader);
    reader.bigEndian := oldEndian;
    reader.pos := 0;
    if !HeaderPlausible(header, reader.Length()) {
      return ResourceFile;
    } else {
      return AssetsFile;
    }
  }

  /** Name suffixes that make an `AssetsFile` stream a plain resource. */
  const ExcludedSuffixes: seq<string> := [".resS", ".resource", ".config", ".xml", ".dat"]

  predicate EndsWith(name: string, suffix: string) {
    |suffix| <= |name| && name[|name| - |suffix|..] == suffix
  }

  predicate HasExcludedSuffix(name: string) {
    exists i :: 0 <= i < |ExcludedSuffixes| && EndsWith(name, ExcludedSuffixes[i])
  }

  /** What `parse_file` returns: a handle for one of the three downstream
      parsers, built over the reader with the caller's parent, name and
      dependency flag, or the reader itself. `P` stands for the parent file
      object, which belongs to the downstream parsers. */
  datatype Parsed<P> =
    | Serialized(reader: EndianBinaryReader, parent: P, name: string, isDependency: bool)
    | Bundle(reader: EndianBinaryReader, parent: P, name: string, isDependency: bool)
    | Web(reader: EndianBinaryReader, parent: P, name: string, isDependency: bool)
    | Raw(reader: EndianBinaryReader)

  /** The case split of `parse_file` once the tag is known. */
  function Dispatch<P>(reader: EndianBinaryReader, parent: P, name: string, typ: FileType, isDependency: bool): (f: Parsed<P>)
    ensures f.reader == reader
    ensures !f.Raw? ==> f.parent == parent && f.name == name && f.isDependency == isDependency
  {
    if typ == AssetsFile && !HasExcludedSuffix(name) then Serialized(reader, parent, name, isDependency)
    else if typ == BundleFile then Bundle(reader, parent, name, isDependency)
    else if typ == WebFile then Web(reader, parent, name, isDependency)
    else Raw(reader)
  }

  datatype Option<T> = None | Some(value: T)

  /** `parse_file`, with the same defaults: no tag, not a dependency. A
      missing tag is computed by the classifier, which moves the reader's
      cursor; a given tag leaves the reader untouched. */
  method ParseFile<P>(reader: EndianBinaryReader, parent: P, name: string, magics: Magics,
                      typ: Option<FileType> := None, isDependency: bool := false)
    returns (f: Parsed<P>)
    modifies reader`pos, reader`bigEndian
    ensures var resolved :=
              if typ.None? then Classify(old(reader.data), old(reader.pos), old(reader.bigEndian), magics)
              else typ.value;
            f == Dispatch(reader, parent, name, resolved, isDependency)
    ensures reader.data == old(reader.data) && reader.bigEndian == old(reader.bigEndian)
    ensures reader.pos == if typ.None? then PosAfter(reader.data, old(reader.pos)) else old(reader.pos)
  {
    var t: FileType;
    if typ.None? {
      t := CheckFileType(reader, magics);
    } else {
      t := typ.value;
    }
    f := Dispatch(reader, parent, name, t, isDependency);
  }
}
