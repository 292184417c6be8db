# UnityPy container classifier and dispatcher, in Dafny

This project models the entry point of UnityPy's file loading,
`UnityPy/helpers/ImportHelper.py`:

- `check_file_type` probes an `EndianBinaryReader` and decides which
  container the stream holds: `BundleFile`, `WebFile`, `ZIP`, `AssetsFile`
  or `ResourceFile`. It runs a fixed chain of tests, and the first one that
  matches decides. The chain is: the length floor of 20 bytes; the
  NUL-terminated signature (at most 20 bytes) compared exactly with the
  bundle literals, by prefix with the web-data literals, and exactly with
  the ZIP magic; the length floor of 128 bytes; the GZIP magic at offset 0;
  the Brotli magic at offset 0x20; and last a speculative read of an
  assets-file header, checked against the stream length.
- `parse_file` maps a tag, computing it when none is given, and a file name
  to a `SerializedFile`, `BundleFile` or `WebFile` handle, or to the reader
  itself. A list of excluded name suffixes overrides `AssetsFile`.

Files:

- `streams.dfy` (module `Streams`): what the classifier assumes of the
  reader. It is a class with fields `data`, `pos` and `bigEndian`, and its
  reads of u8, u32, signed i64, raw runs and NUL-terminated strings. Each
  read is specified by a pure decoding function (`U32At`, `I64At`,
  `NulTerminated`). `Encode` is proved to be the inverse of the integer
  decodings: of `U32At` directly, and of `I64At` after the value is
  wrapped to 64 bits. `NulTerminated` is instead pinned down by its own
  contract.
- `import_helper.dfy` (module `ImportHelper`): the pure specification
  `Classify(data, pos, bigEndian, magics)` of the classifier, the method
  `CheckFileType` that works on the reader the way the source does and is
  proved to return `Classify` of the reader's state on entry, the pure
  case split `Dispatch`, and the method `ParseFile`.
- `properties.dfy` (module `ImportHelperProperties`): lemmas that state each
  stage's outcome, the worked header examples, how repeated calls behave,
  and the dispatch rules.

Behaviour kept exactly as the code has it:

- The endian byte of a version-22-or-later header is decoded and never
  applied. The extended fields are read in the reader's own byte order
  (`EndianByteIgnored`). The reader's flag is saved and written back, so it
  is unchanged on return.
- The signature is read from the reader's current position, not from
  offset 0. Every path past the length floor then leaves the position at 0;
  the position on entry is not restored. So two calls agree when the
  position on entry is 0 (`RepeatFromStart`), and they can disagree
  otherwise (`CursorDecidesSignature`).
- The ZIP test compares the whole NUL-terminated signature with
  `PK\x03\x04`. A stream holding that magic is `ZIP` only when byte 4 is
  NUL (`ZipNeedsTerminator`). The magic itself is the local-file-header
  signature of section 4.3.7 of PKWARE's APPNOTE.
- `metadataSize` is re-read as a u32. `fileSize` and `dataOffset` are
  re-read as signed 64-bit values, so the `< 0` checks apply to them. The
  test `version < 0` is kept, although a u32 is never negative.

## Model

| member | source | states |
|---|---|---|
| `Streams.NulTerminated` | UnityPy/helpers/ImportHelper.py:56 | the signature read returns at most the cap of bytes, all non-NUL and equal to the stream's bytes from the start offset, and it stops only at the cap, the end of the stream or a NUL |
| `Streams.EndianBinaryReader.ReadStringToNull` | UnityPy/helpers/ImportHelper.py:56 | the reader loop returns exactly `NulTerminated` from the current position and advances past what it read and the NUL that stopped it |
| `Streams.U32At` | UnityPy/helpers/ImportHelper.py:89-92 | a `read_u_int` field is a value in [0, 2^32) |
| `Streams.I64At` | UnityPy/helpers/ImportHelper.py:99-100 | a `read_long` field is a signed value in [-2^63, 2^63), so it can be negative |
| `Streams.UnsignedEncode` | UnityPy/helpers/ImportHelper.py:89-101 | decoding in either byte order inverts encoding in that order, for every value that fits |
| `Streams.U32AtEncode` | UnityPy/helpers/ImportHelper.py:89-92 | a u32 field written with `Encode` in the reader's byte order reads back as the same value |
| `Streams.I64AtEncode` | UnityPy/helpers/ImportHelper.py:99-100 | a signed 64-bit field written as the encoding of its 64-bit wrap reads back as the same, possibly negative, value |
| `Streams.EndianBinaryReader.ReadU8` | UnityPy/helpers/ImportHelper.py:95 | `read_u_byte` returns the byte at the cursor and advances it by one |
| `Streams.EndianBinaryReader.ReadBytes` | UnityPy/helpers/ImportHelper.py:74-79 | `read_bytes(n)` returns the n bytes at the cursor and advances it by n |
| `Streams.EndianBinaryReader.ReadU32` | UnityPy/helpers/ImportHelper.py:89-92 | `read_u_int` returns `U32At` of the 4 bytes at the cursor in the reader's byte order and advances it by 4 |
| `Streams.EndianBinaryReader.ReadI64` | UnityPy/helpers/ImportHelper.py:99-101 | `read_long` returns `I64At` of the 8 bytes at the cursor in the reader's byte order and advances it by 8 |
| `ImportHelper.Signature` | UnityPy/helpers/ImportHelper.py:56 | the signature is the NUL-terminated read from the cursor, at most 20 bytes |
| `ImportHelper.ReadHeader` | UnityPy/helpers/ImportHelper.py:88-101 | the version is the u32 at offset 8; the metadata size is always a u32; before version 22 file size and data offset are u32 values, from version 22 on they are signed 64-bit values |
| `ImportHelper.HeaderPlausible` | UnityPy/helpers/ImportHelper.py:107-116 | the check passes exactly when 0 ≤ version ≤ 100 and version ≤ length, 0 ≤ metadata size ≤ file size ≤ length, and 0 ≤ data offset ≤ file size |
| `ImportHelper.Classify` | UnityPy/helpers/ImportHelper.py:53-118 | a stream under 20 bytes is `ResourceFile`; `BundleFile` and `ZIP` only come from an exact signature match; `WebFile` only from a web-data prefix or, on a stream of at least 128 bytes, a compression magic; `AssetsFile` only from a stream of at least 128 bytes whose header passes the check |
| `ImportHelper.PosAfter` | UnityPy/helpers/ImportHelper.py:53-105 | the cursor after a call is either where it was (short stream) or 0 |
| `ImportHelper.ReadCandidateHeader` | UnityPy/helpers/ImportHelper.py:88-101 | the sequence of header reads from offset 0 yields `ReadHeader` of the bytes in the reader's byte order, with the cursor after 16 or 48 bytes |
| `ImportHelper.CheckFileType` | UnityPy/helpers/ImportHelper.py:53-118 | returns `Classify` of the bytes, position and byte order on entry; the bytes and the byte-order flag are unchanged; the position is unchanged on a stream under 20 bytes and 0 otherwise |
| `ImportHelperProperties.ShortStreamIsResource` | UnityPy/helpers/ImportHelper.py:53-54 | a stream under 20 bytes is `ResourceFile` |
| `ImportHelperProperties.BundleSignatureWins` | UnityPy/helpers/ImportHelper.py:56-65 | a signature equal to `UnityWeb`, `UnityRaw`, eight 0xFA bytes or `UnityFS` gives `BundleFile`, whatever the other bytes are |
| `ImportHelperProperties.BundleAtCursor` | UnityPy/helpers/ImportHelper.py:56-65 | one of those literals followed by a NUL at the cursor gives `BundleFile` |
| `ImportHelperProperties.WebDataSignature` | UnityPy/helpers/ImportHelper.py:59-67 | a signature starting with `UnityWebData` or `TuanjieWebData` is no bundle literal and gives `WebFile` |
| `ImportHelperProperties.WebDataAtCursor` | UnityPy/helpers/ImportHelper.py:56-67 | a web-data prefix spelled at the cursor gives `WebFile`, whatever follows it |
| `ImportHelperProperties.ZipAtCursor` | UnityPy/helpers/ImportHelper.py:68-69 | `PK\x03\x04` followed by a NUL at the cursor gives `ZIP` |
| `ImportHelperProperties.ZipNeedsTerminator` | UnityPy/helpers/ImportHelper.py:68-69 | `PK\x03\x04` at offset 0 followed by a non-NUL byte never gives `ZIP` |
| `ImportHelperProperties.MagicStages` | UnityPy/helpers/ImportHelper.py:70-82 | with no signature match, a stream under 128 bytes is `ResourceFile`; otherwise the GZIP magic at offset 0 or the Brotli magic at offset 0x20 gives `WebFile` |
| `ImportHelperProperties.StructuralStage` | UnityPy/helpers/ImportHelper.py:84-118 | when every earlier test fails, the result is `AssetsFile` exactly when version ≤ 100, each of file size, metadata size, version and data offset lies in [0, length], file size ≥ metadata size and file size ≥ data offset; otherwise it is `ResourceFile` |
| `ImportHelperProperties.EndianByteIgnored` | UnityPy/helpers/ImportHelper.py:94-101 | the header read does not depend on the endian byte at offset 16 |
| `ImportHelperProperties.ReadExtendedHeader` | UnityPy/helpers/ImportHelper.py:94-101 | a version-22-or-later header reads back its version from offset 8, its metadata size as a u32 at offset 20, and its file size and data offset as signed i64 at offsets 24 and 32, in the reader's byte order, whatever the other bytes hold |
| `ImportHelperProperties.NegativeFileSizeRejected` | UnityPy/helpers/ImportHelper.py:99-116 | in an extended header, eight 0xFF bytes at offset 24 are file size -1, the header fails the check, and the stream is never `AssetsFile` |
| `ImportHelperProperties.ReadHeaderBytes` | UnityPy/helpers/ImportHelper.py:88-92 | a pre-22 header written field by field in the reader's byte order reads back as the same fields |
| `ImportHelperProperties.AssetsHeaderAccepted` | UnityPy/helpers/ImportHelper.py:84-118 | version 21, metadata size 10, file size 1000, data offset 50, on a 2000-byte stream, gives `AssetsFile` in either byte order |
| `ImportHelperProperties.OffsetBeyondLengthRejected` | UnityPy/helpers/ImportHelper.py:107-116 | the same header with data offset 5000 gives `ResourceFile` |
| `ImportHelperProperties.RepeatFromStart` | UnityPy/helpers/ImportHelper.py:53-118 | from a cursor at 0, or on a short stream, a second call sees the same state and returns the same tag |
| `ImportHelperProperties.CursorDecidesSignature` | UnityPy/helpers/ImportHelper.py:56-58 | a UnityFS bundle is `BundleFile` with the cursor at 0 but `ResourceFile` with the cursor at 1, and the call leaves the cursor at 0 |
| `ImportHelperProperties.CheckFileTypeTwice` | UnityPy/helpers/ImportHelper.py:53-118 | two calls on one reader agree when the first starts at position 0 or the stream is short, and leave the reader's bytes and byte order as they were |
| `ImportHelper.Dispatch` | UnityPy/helpers/ImportHelper.py:130-146 | every result holds the same reader, and every parser handle holds the caller's parent, name and dependency flag |
| `ImportHelperProperties.DispatchCases` | UnityPy/helpers/ImportHelper.py:130-146 | a serialized-file handle exactly for `AssetsFile` with no excluded suffix, bundle and web handles exactly for their tags, and the raw reader exactly for `ZIP`, `ResourceFile` or an excluded `AssetsFile` |
| `ImportHelperProperties.ResSOverride` | UnityPy/helpers/ImportHelper.py:130-139 | an `AssetsFile` named `data.resS` is handed back as the raw reader, one named `data.assets` gets a serialized-file handle |
| `ImportHelper.ParseFile` | UnityPy/helpers/ImportHelper.py:121-146 | a missing tag is `Classify` of the reader on entry and moves the cursor as `CheckFileType` does; a given tag leaves the reader untouched; the result is `Dispatch` of the resolved tag |

## Left out

- Turning a path, bytes or stream into a reader (lines 46-51) is file I/O
  and dynamic typing. The model starts from an existing reader.
- `list_all_files`, `find_all_files`, `find_sensitive_path` and
  `file_name_without_extension` walk or name paths on the filesystem; they
  are not modelled.
- The parsers `SerializedFile`, `BundleFile` and `WebFile` are downstream.
  A handle is a datatype value that records the reader, parent, name and
  dependency flag passed to the constructor. The parent is a type parameter.
- The values of `GZIP_MAGIC` and `BROTLI_MAGIC` come from the compression
  helpers, which are not part of this model. They are a `Magics` parameter
  of the classifier, compared with the 2 bytes at offset 0 and the 6 bytes
  at offset 0x20.
- The reader's own code is not part of this model; `streams.dfy` states
  what the classifier assumes of it. Its text decoding in
  `read_string_to_null` is left out: the signature is the raw bytes before
  the first NUL, compared with the byte values of the literals.
- Line 62's literal `"\xfa"` repeated eight times is text. Whether eight
  0xFA bytes in the stream decode to it depends on that decoding, which is
  not shown. Comparing it as eight 0xFA bytes (`FaSignature`) is this
  model's choice.
- Reads past the end of the stream, which the reader reports as errors, are
  excluded by the preconditions of the u8, u32, i64 and raw-run reads. The
  classifier issues none of those past the end: after the 128-byte floor it
  reads only the first 48 bytes.
- Streams.EndianBinaryReader.ReadStringToNull: two of its behaviours are
  this model's choice, since the reader's own code is not modelled. It
  stops at the end of the stream, returning the empty signature when the
  cursor is already past the end on entry, where the real reader may raise
  instead. It also leaves the cursor past the NUL, which never matters
  because every caller resets the cursor to 0.
