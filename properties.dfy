/** What `check_file_type` and `parse_file` promise, stated about the
    specification functions `Classify` and `Dispatch`, which the methods
    `CheckFileType` and `ParseFile` are proved to compute. */
module ImportHelperProperties {
  import opened Streams
  import opened ImportHelper

  predicate NoNul(s: seq<byte>) {
    forall i :: 0 <= i < |s| ==> s[i] != 0
  }

  /** A signature that none of the three signature tests accepts. */
  predicate NoSignatureMatch(sig: seq<byte>) {
    sig !in BundleSignatures
    && !StartsWith(sig, UnityWebData) && !StartsWith(sig, TuanjieWebData)
    && sig != ZipSignature
  }

  lemma BundleLiterals()
    ensures forall k :: 0 <= k < |BundleSignatures| ==>
              |BundleSignatures[k]| <= 8 && NoNul(BundleSignatures[k])
  {
  }

  // ---------------------------------------------------------------------
  // The signature read

  /** A run without NUL that is followed by a NUL, and is shorter than the
      cap, is exactly what the NUL-terminated read returns. */
  lemma {:induction false} NulTerminatedExact(data: seq<byte>, start: nat, lit: seq<byte>, max: nat)
    requires |lit| < max && start + |lit| < |data|
    requires data[start..start + |lit|] == lit && NoNul(lit)
    requires data[start + |lit|] == 0
    ensures NulTerminated(data, start, max) == lit
    decreases |lit|
  {
    if lit != [] {
      assert data[start + 1..start + 1 + |lit[1..]|] == lit[1..];
      NulTerminatedExact(data, start + 1, lit[1..], max - 1);
      assert lit == [data[start]] + lit[1..];
    }
  }

  /** A run without NUL that fits under the cap is a prefix of what the
      NUL-terminated read returns. */
  lemma {:induction false} NulTerminatedPrefix(data: seq<byte>, start: nat, p: seq<byte>, max: nat)
    requires |p| <= max && start + |p| <= |data|
    requires data[start..start + |p|] == p && NoNul(p)
    ensures StartsWith(NulTerminated(data, start, max), p)
    decreases |p|
  {
    if p != [] {
      assert data[start + 1..start + 1 + |p[1..]|] == p[1..];
      NulTerminatedPrefix(data, start + 1, p[1..], max - 1);
      var rest := NulTerminated(data, start + 1, max - 1);
      assert NulTerminated(data, start, max) == [data[start]] + rest;
      assert p == [data[start]] + p[1..];
    }
  }

  // ---------------------------------------------------------------------
  // Stage 1: short streams

  /** A stream shorter than 20 bytes is a resource file. */
  lemma ShortStreamIsResource(data: seq<byte>, pos: nat, bigEndian: bool, magics: Magics)
    requires |data| < SignatureLength
    ensures Classify(data, pos, bigEndian, magics) == ResourceFile
  {
  }

  // ---------------------------------------------------------------------
  // Stage 2: signatures

  /** A signature equal to one of the bundle literals gives `BundleFile`,
      whatever else the stream holds. */
  lemma BundleSignatureWins(data: seq<byte>, pos: nat, bigEndian: bool, magics: Magics)
    requires |data| >= SignatureLength && Signature(data, pos) in BundleSignatures
    ensures Classify(data, pos, bigEndian, magics) == BundleFile
  {
  }

  /** A bundle literal followed by a NUL at the cursor gives `BundleFile`. */
  lemma BundleAtCursor(data: seq<byte>, pos: nat, k: nat, bigEndian: bool, magics: Magics)
    requires |data| >= SignatureLength && k < |BundleSignatures|
    requires pos + |BundleSignatures[k]| < |data|
    requires data[pos..pos + |BundleSignatures[k]|] == BundleSignatures[k]
    requires data[pos + |BundleSignatures[k]|] == 0
    ensures Classify(data, pos, bigEndian, magics) == BundleFile
  {
    BundleLiterals();
    NulTerminatedExact(data, pos, BundleSignatures[k], SignatureLength);
  }

  /** A signature that starts with one of the web-data prefixes is never a
      bundle literal (those are at most 8 bytes), so it gives `WebFile`. */
  lemma WebDataSignature(data: seq<byte>, pos: nat, bigEndian: bool, magics: Magics)
    requires |data| >= SignatureLength
    requires StartsWith(Signature(data, pos), UnityWebData) || StartsWith(Signature(data, pos), TuanjieWebData)
    ensures Signature(data, pos) !in BundleSignatures
    ensures Classify(data, pos, bigEndian, magics) == WebFile
  {
    BundleLiterals();
  }

  /** Bytes spelling a web-data prefix at the cursor give `WebFile`: the
      prefix survives the NUL-terminated read. */
  lemma WebDataAtCursor(data: seq<byte>, pos: nat, prefix: seq<byte>, bigEndian: bool, magics: Magics)
    requires |data| >= SignatureLength
    requires prefix == UnityWebData || prefix == TuanjieWebData
    requires pos + |prefix| <= |data| && data[pos..pos + |prefix|] == prefix
    ensures Classify(data, pos, bigEndian, magics) == WebFile
  {
    NulTerminatedPrefix(data, pos, prefix, SignatureLength);
    WebDataSignature(data, pos, bigEndian, magics);
  }

  /** "PK\x03\x04" followed by a NUL at the cursor gives `ZIP`. */
  lemma ZipAtCursor(data: seq<byte>, pos: nat, bigEndian: bool, magics: Magics)
    requires |data| >= SignatureLength && pos + 4 < |data|
    requires data[pos..pos + 4] == ZipSignature && data[pos + 4] == 0
    ensures Classify(data, pos, bigEndian, magics) == ZIP
  {
    NulTerminatedExact(data, pos, ZipSignature, SignatureLength);
    BundleLiterals();
  }

  /** The ZIP test is an exact match on the NUL-terminated signature: the
      ZIP magic followed by a non-NUL byte is not classified as `ZIP`. */
  lemma ZipNeedsTerminator(data: seq<byte>, bigEndian: bool, magics: Magics)
    requires |data| >= SignatureLength
    requires data[..4] == ZipSignature && data[4] != 0
    ensures Classify(data, 0, bigEndian, magics) != ZIP
  {
    var p := data[..5];
    assert p[..4] == ZipSignature;
    NulTerminatedPrefix(data, 0, p, SignatureLength);
    assert |Signature(data, 0)| >= 5;
  }

  // ---------------------------------------------------------------------
  // Stages 3 to 5: length floor and compression magics

  /** Past the signature tests: a stream under 128 bytes is a resource
      file; otherwise the GZIP magic at offset 0, then the Brotli magic at
      offset 0x20, give `WebFile`. */
  lemma MagicStages(data: seq<byte>, pos: nat, bigEndian: bool, magics: Magics)
    requires |data| >= SignatureLength && NoSignatureMatch(Signature(data, pos))
    ensures |data| < MinStructuralLength ==> Classify(data, pos, bigEndian, magics) == ResourceFile
    ensures |data| >= MinStructuralLength && magics.gzip == data[..2] ==>
              Classify(data, pos, bigEndian, magics) == WebFile
    ensures |data| >= MinStructuralLength && magics.brotli == data[0x20..0x26] ==>
              Classify(data, pos, bigEndian, magics) == WebFile
  {
  }

  // ---------------------------------------------------------------------
  // Stage 6: the structural test

  /** When every earlier test fails, the stream is an assets file exactly
      when the header read from offset 0 is consistent with the stream
      length, and a resource file otherwise. */
  lemma StructuralStage(data: seq<byte>, pos: nat, bigEndian: bool, magics: Magics)
    requires |data| >= MinStructuralLength && NoSignatureMatch(Signature(data, pos))
    requires magics.gzip != data[..2] && magics.brotli != data[0x20..0x26]
    ensures var h := ReadHeader(data, bigEndian);
            var n := |data|;
            Classify(data, pos, bigEndian, magics) == AssetsFile
            <==> (0 <= h.version <= 100 && h.version <= n
                  && 0 <= h.fileSize <= n && 0 <= h.metadataSize <= n && 0 <= h.dataOffset <= n
                  && h.fileSize >= h.metadataSize && h.fileSize >= h.dataOffset)
    ensures Classify(data, pos, bigEndian, magics) in {AssetsFile, ResourceFile}
  {
  }

  /** The endian byte at offset 16 of an extended header is never applied:
      changing it does not change the header that is read. */
  lemma EndianByteIgnored(data: seq<byte>, b: byte, bigEndian: bool)
    requires |data| >= HeaderReadLength
    ensures ReadHeader(data[16 := b], bigEndian) == ReadHeader(data, bigEndian)
  {
    var d := data[16 := b];
    assert d[0..4] == data[0..4] && d[4..8] == data[4..8];
    assert d[8..12] == data[8..12] && d[12..16] == data[12..16];
    assert d[20..24] == data[20..24] && d[24..32] == data[24..32] && d[32..40] == data[32..40];
  }

  /** The 16 bytes of a version-21-or-earlier header with the given fields. */
  function HeaderBytes(h: Header, bigEndian: bool): (bs: seq<byte>)
    requires 0 <= h.metadataSize < 0x1_0000_0000 && 0 <= h.fileSize < 0x1_0000_0000
    requires 0 <= h.version < 0x1_0000_0000 && 0 <= h.dataOffset < 0x1_0000_0000
    ensures |bs| == 16
  {
    Encode(h.metadataSize, 4, bigEndian) + Encode(h.fileSize, 4, bigEndian)
    + Encode(h.version, 4, bigEndian) + Encode(h.dataOffset, 4, bigEndian)
  }

  /** A header written with `HeaderBytes` reads back as the same fields. */
  lemma ReadHeaderBytes(data: seq<byte>, h: Header, bigEndian: bool)
    requires 0 <= h.metadataSize < 0x1_0000_0000 && 0 <= h.fileSize < 0x1_0000_0000
    requires 0 <= h.version < 22 && 0 <= h.dataOffset < 0x1_0000_0000
    requires |data| >= HeaderReadLength && data[..16] == HeaderBytes(h, bigEndian)
    ensures ReadHeader(data, bigEndian) == h
  {
    Pow256Widths();
    var e := HeaderBytes(h, bigEndian);
    assert data[0..4] == e[0..4] == Encode(h.metadataSize, 4, bigEndian);
    assert data[4..8] == e[4..8] == Encode(h.fileSize, 4, bigEndian);
    assert data[8..12] == e[8..12] == Encode(h.version, 4, bigEndian);
    assert data[12..16] == e[12..16] == Encode(h.dataOffset, 4, bigEndian);
    UnsignedEncode(h.metadataSize, 4, bigEndian);
    UnsignedEncode(h.fileSize, 4, bigEndian);
    UnsignedEncode(h.version, 4, bigEndian);
    UnsignedEncode(h.dataOffset, 4, bigEndian);
  }

  /** An extended header (version 22 or later) reads back its fields from
      the re-read layout, whatever the other bytes hold: the version from
      offset 8, the metadata size as a u32 at offset 20, and the file size
      and data offset as signed i64 at offsets 24 and 32, all in the
      reader's byte order. */
  lemma ReadExtendedHeader(data: seq<byte>, h: Header, bigEndian: bool)
    requires 22 <= h.version < 0x1_0000_0000 && 0 <= h.metadataSize < 0x1_0000_0000
    requires -0x8000_0000_0000_0000 <= h.fileSize < 0x8000_0000_0000_0000
    requires -0x8000_0000_0000_0000 <= h.dataOffset < 0x8000_0000_0000_0000
    requires |data| >= HeaderReadLength
    requires data[8..12] == Encode(h.version, 4, bigEndian)
    requires data[20..24] == Encode(h.metadataSize, 4, bigEndian)
    requires data[24..32] == Encode(h.fileSize % 0x1_0000_0000_0000_0000, 8, bigEndian)
    requires data[32..40] == Encode(h.dataOffset % 0x1_0000_0000_0000_0000, 8, bigEndian)
    ensures ReadHeader(data, bigEndian) == h
  {
    U32AtEncode(data, 8, h.version, bigEndian);
    U32AtEncode(data, 20, h.metadataSize, bigEndian);
    I64AtEncode(data, 24, h.fileSize, bigEndian);
    I64AtEncode(data, 32, h.dataOffset, bigEndian);
  }

  /** In an extended header, eight 0xFF bytes at offset 24 are the file size
      -1, so the `< 0` check rejects the header and the stream is never an
      assets file. */
  lemma NegativeFileSizeRejected(data: seq<byte>, pos: nat, bigEndian: bool, magics: Magics)
    requires |data| >= HeaderReadLength && U32At(data, 8, bigEndian) >= 22
    requires data[24..32] == Ones(8)
    ensures ReadHeader(data, bigEndian).fileSize == -1
    ensures !HeaderPlausible(ReadHeader(data, bigEndian), |data|)
    ensures Classify(data, pos, bigEndian, magics) != AssetsFile
  {
    I64AtOnes(data, 24, bigEndian);
  }

  /** The signature of a stream that starts with a small header: in little
      endian the one byte 10, then NUL; in big endian a NUL at once. */
  lemma SmallHeaderSignature(data: seq<byte>, h: Header, bigEndian: bool)
    requires h.metadataSize == 10 && h.fileSize == 1000 && h.version == 21
    requires 0 <= h.dataOffset < 0x1_0000_0000
    requires |data| >= HeaderReadLength && data[..16] == HeaderBytes(h, bigEndian)
    ensures NoSignatureMatch(Signature(data, 0))
  {
    var e := Encode(10, 4, bigEndian);
    assert e == data[0..4];
    if bigEndian {
      assert EncodeLE(10, 4) == [10, 0, 0, 0];
      assert e[0] == 0;
      NulTerminatedExact(data, 0, [], SignatureLength);
    } else {
      assert e == [10, 0, 0, 0];
      assert data[0..1] == [10];
      NulTerminatedExact(data, 0, [10], SignatureLength);
    }
    BundleLiterals();
  }

  /** Version 21, metadata size 10, file size 1000, data offset 50, on a
      stream of 2000 bytes: an assets file. */
  lemma AssetsHeaderAccepted(data: seq<byte>, bigEndian: bool, magics: Magics)
    requires |data| == 2000 && data[..16] == HeaderBytes(Header(10, 1000, 21, 50), bigEndian)
    requires magics.gzip != data[..2] && magics.brotli != data[0x20..0x26]
    ensures Classify(data, 0, bigEndian, magics) == AssetsFile
  {
    SmallHeaderSignature(data, Header(10, 1000, 21, 50), bigEndian);
    ReadHeaderBytes(data, Header(10, 1000, 21, 50), bigEndian);
  }

  /** The same header with data offset 5000, beyond the stream's end: a
      resource file. */
  lemma OffsetBeyondLengthRejected(data: seq<byte>, bigEndian: bool, magics: Magics)
    requires |data| == 2000 && data[..16] == HeaderBytes(Header(10, 1000, 21, 5000), bigEndian)
    requires magics.gzip != data[..2] && magics.brotli != data[0x20..0x26]
    ensures Classify(data, 0, bigEndian, magics) == ResourceFile
  {
    SmallHeaderSignature(data, Header(10, 1000, 21, 5000), bigEndian);
    ReadHeaderBytes(data, Header(10, 1000, 21, 5000), bigEndian);
  }

  // ---------------------------------------------------------------------
  // Repeated calls

  /** A second call sees the cursor the first one left: at 0, or untouched
      on a short stream. From a cursor at 0 the two calls agree. */
  lemma RepeatFromStart(data: seq<byte>, pos: nat, bigEndian: bool, magics: Magics)
    requires pos == 0 || |data| < SignatureLength
    ensures Classify(data, PosAfter(data, pos), bigEndian, magics) == Classify(data, pos, bigEndian, magics)
  {
  }

  /** The signature is read from the cursor, not from offset 0: a UnityFS
      bundle read with the cursor at 1 is a resource file, so a first call
      from there and the second call (from 0) disagree. */
  lemma CursorDecidesSignature(magics: Magics)
    ensures var data := UnityFS + seq(13, _ => 0);
            Classify(data, 0, false, magics) == BundleFile
            && Classify(data, 1, false, magics) == ResourceFile
            && PosAfter(data, 1) == 0
  {
    var data := UnityFS + seq(13, _ => 0);
    assert data[0..7] == UnityFS;
    NulTerminatedExact(data, 0, UnityFS, SignatureLength);
    assert data[1..7] == UnityFS[1..];
    NulTerminatedExact(data, 1, UnityFS[1..], SignatureLength);
    BundleLiterals();
    assert UnityFS[1..] !in BundleSignatures;
  }

  /** Two calls in a row on one reader. */
  method CheckFileTypeTwice(reader: EndianBinaryReader, magics: Magics) returns (first: FileType, second: FileType)
    modifies reader`pos, reader`bigEndian
    ensures old(reader.pos) == 0 || |reader.data| < SignatureLength ==> first == second
    ensures second == Classify(reader.data, PosAfter(reader.data, old(reader.pos)), reader.bigEndian, magics)
    ensures reader.data == old(reader.data) && reader.bigEndian == old(reader.bigEndian)
    ensures reader.pos == PosAfter(reader.data, old(reader.pos))
  {
    ghost var data, pos, bigEndian := reader.data, reader.pos, reader.bigEndian;
    first := CheckFileType(reader, magics);
    second := CheckFileType(reader, magics);
    if pos == 0 || |data| < SignatureLength {
      RepeatFromStart(data, pos, bigEndian, magics);
    }
  }

  // ---------------------------------------------------------------------
  // Dispatch

  /** The tag alone picks the handle kind, except that an excluded suffix
      turns an assets file into the raw reader. */
  lemma DispatchCases<P>(reader: EndianBinaryReader, parent: P, name: string, typ: FileType, isDependency: bool)
    ensures var f := Dispatch(reader, parent, name, typ, isDependency);
            (f.Serialized? <==> typ == AssetsFile && !HasExcludedSuffix(name))
            && (f.Bundle? <==> typ == BundleFile)
            && (f.Web? <==> typ == WebFile)
            && (f == Raw(reader) <==> typ in {ZIP, ResourceFile} || (typ == AssetsFile && HasExcludedSuffix(name)))
  {
  }

  /** An assets file named `data.resS` is handed back as the raw reader;
      the same stream named `data.assets` gets a serialized-file handle. */
  lemma ResSOverride<P>(reader: EndianBinaryReader, parent: P, isDependency: bool)
    ensures Dispatch(reader, parent, "data.resS", AssetsFile, isDependency) == Raw(reader)
    ensures Dispatch(reader, parent, "data.assets", AssetsFile, isDependency)
            == Serialized(reader, parent, "data.assets", isDependency)
  {
    assert EndsWith("data.resS", ExcludedSuffixes[0]);
    var n := "data.assets";
    assert n[6..] == "ssets" && n[4..] == ".assets" && n[7..] == "sets" && n[8..] == "ets";
    forall i | 0 <= i < |ExcludedSuffixes| ensures !EndsWith(n, ExcludedSuffixes[i]) {
    }
  }
}
