/** The seekable, endian-aware binary reader that the classifier probes.
    Only the part the classifier uses is modelled: the byte content, the
    cursor, the byte-order flag, and reads of u8, u32, signed i64, raw runs
    and NUL-terminated strings. */
module Streams {

  /** One byte of the stream. */
  type byte = x: int | 0 <= x < 256

  /** 256 to the power n: one more than the largest n-byte unsigned value. */
  function Pow256(n: nat): (p: nat)
    ensures p >= 1
  {
    if n == 0 then 1 else 256 * Pow256(n - 1)
  }

  function Reverse<T>(s: seq<T>): (r: seq<T>)
    ensures |r| == |s|
    ensures forall i :: 0 <= i < |s| ==> r[i] == s[|s| - 1 - i]
  {
    if s == [] then [] else Reverse(s[1..]) + [s[0]]
  }

  /** Unsigned value of a little-endian byte run. */
  function UnsignedLE(bs: seq<byte>): (v: nat)
    ensures v < Pow256(|bs|)
  {
    if bs == [] then 0 else bs[0] + 256 * UnsignedLE(bs[1..])
  }

  /** Unsigned value of a byte run in the given byte order. */
  function Unsigned(bs: seq<byte>, bigEndian: bool): (v: nat)
    ensures v < Pow256(|bs|)
  {
    UnsignedLE(if bigEndian then Reverse(bs) else bs)
  }

  /** Two's-complement reading of an unsigned 64-bit value. */
  function ToInt64(u: nat): (v: int)
    requires u < 0x1_0000_0000_0000_0000
    ensures -0x8000_0000_0000_0000 <= v < 0x8000_0000_0000_0000
    ensures v % 0x1_0000_0000_0000_0000 == u
  {
    if u >= 0x8000_0000_0000_0000 then u - 0x1_0000_0000_0000_0000 else u
  }

  lemma Pow256Widths()
    ensures Pow256(4) == 0x1_0000_0000
    ensures Pow256(8) == 0x1_0000_0000_0000_0000
  {
    assert Pow256(2) == 0x1_0000;
    assert Pow256(4) == 0x1_0000_0000;
    assert Pow256(6) == 0x1_0000_0000_0000;
  }

  /** The unsigned 32-bit value stored at `off` (struct format `I`). */
  function U32At(data: seq<byte>, off: nat, bigEndian: bool): (v: int)
    requires off + 4 <= |data|
    ensures 0 <= v < 0x1_0000_0000
  {
    Pow256Widths();
    Unsigned(data[off..off + 4], bigEndian)
  }

  /** The signed 64-bit value stored at `off` (struct format `q`). */
  function I64At(data: seq<byte>, off: nat, bigEndian: bool): (v: int)
    requires off + 8 <= |data|
    ensures -0x8000_0000_0000_0000 <= v < 0x8000_0000_0000_0000
  {
    Pow256Widths();
    ToInt64(Unsigned(data[off..off + 8], bigEndian))
  }

  /** The bytes from `start` up to, not including, the first NUL, stopping
      after at most `max` bytes or at the end of the stream. */
  function NulTerminated(data: seq<byte>, start: nat, max: nat): (s: seq<byte>)
    ensures |s| <= max
    ensures s == [] || start + |s| <= |data|
    ensures forall i :: 0 <= i < |s| ==> s[i] == data[start + i] && s[i] != 0
    ensures |s| == max || start + |s| >= |data| || data[start + |s|] == 0
    decreases max
  {
    if max == 0 || start >= |data| || data[start] == 0 then []
    else [data[start]] + NulTerminated(data, start + 1, max - 1)
  }

  /** Little-endian encoding of `v` in `n` bytes (low bytes of `v`). */
  function EncodeLE(v: nat, n: nat): (bs: seq<byte>)
    ensures |bs| == n
  {
    if n == 0 then [] else [v % 256] + EncodeLE(v / 256, n - 1)
  }

  /** Encoding of `v` in `n` bytes in the given byte order; the inverse of
      `Unsigned` (see `UnsignedEncode`). */
  function Encode(v: nat, n: nat, bigEndian: bool): (bs: seq<byte>)
    ensures |bs| == n
  {
    if bigEndian then Reverse(EncodeLE(v, n)) else EncodeLE(v, n)
  }

  lemma {:induction false} ReverseReverse<T>(s: seq<T>)
    ensures Reverse(Reverse(s)) == s
  {
    var r := Reverse(Reverse(s));
    assert |r| == |s|;
    forall i | 0 <= i < |s| ensures r[i] == s[i] {
      assert r[i] == Reverse(s)[|s| - 1 - i];
    }
  }

  lemma {:induction false} UnsignedLEEncode(v: nat, n: nat)
    requires v < Pow256(n)
    ensures UnsignedLE(EncodeLE(v, n)) == v
  {
    if n > 0 {
      assert v / 256 < Pow256(n - 1);
      UnsignedLEEncode(v / 256, n - 1);
      assert EncodeLE(v, n)[1..] == EncodeLE(v / 256, n - 1);
    }
  }

  /** Decoding an encoded value gives the value back, in either byte order. */
  lemma UnsignedEncode(v: nat, n: nat, bigEndian: bool)
    requires v < Pow256(n)
    ensures Unsigned(Encode(v, n, bigEndian), bigEndian) == v
  {
    UnsignedLEEncode(v, n);
    if bigEndian {
      ReverseReverse(EncodeLE(v, n));
    }
  }

  /** Reading the 64-bit wrap of a signed value as two's complement gives
      the value back. */
  lemma ToInt64Wrap(v: int)
    requires -0x8000_0000_0000_0000 <= v < 0x8000_0000_0000_0000
    ensures ToInt64(v % 0x1_0000_0000_0000_0000) == v
  {
  }

  /** `U32At` inverts a 4-byte `Encode`. */
  lemma U32AtEncode(data: seq<byte>, off: nat, v: int, bigEndian: bool)
    requires off + 4 <= |data| && 0 <= v < 0x1_0000_0000
    requires data[off..off + 4] == Encode(v, 4, bigEndian)
    ensures U32At(data, off, bigEndian) == v
  {
    Pow256Widths();
    UnsignedEncode(v, 4, bigEndian);
  }

  /** `I64At` inverts an 8-byte `Encode` of a signed value's 64-bit wrap. */
  lemma I64AtEncode(data: seq<byte>, off: nat, v: int, bigEndian: bool)
    requires off + 8 <= |data| && -0x8000_0000_0000_0000 <= v < 0x8000_0000_0000_0000
    requires data[off..off + 8] == Encode(v % 0x1_0000_0000_0000_0000, 8, bigEndian)
    ensures I64At(data, off, bigEndian) == v
  {
    Pow256Widths();
    UnsignedEncode(v % 0x1_0000_0000_0000_0000, 8, bigEndian);
    ToInt64Wrap(v);
  }

  /** n bytes of 0xFF. */
  function Ones(n: nat): (s: seq<byte>)
    ensures |s| == n && forall i :: 0 <= i < n ==> s[i] == 0xFF
  {
    seq(n, _ => 0xFF)
  }

  lemma {:induction false} UnsignedLEOnes(n: nat)
    ensures UnsignedLE(Ones(n)) == Pow256(n) - 1
  {
    if n > 0 {
      assert Ones(n)[1..] == Ones(n - 1);
      UnsignedLEOnes(n - 1);
    }
  }

  /** Eight 0xFF bytes read as a signed 64-bit value are -1, in either byte
      order. */
  lemma I64AtOnes(data: seq<byte>, off: nat, bigEndian: bool)
    requires off + 8 <= |data| && data[off..off + 8] == Ones(8)
    ensures I64At(data, off, bigEndian) == -1
  {
    Pow256Widths();
    UnsignedLEOnes(8);
    assert Reverse(Ones(8)) == Ones(8);
  }

  /** A reader over an in-memory byte stream. `pos` may lie beyond the end,
      as a Python `Position` may be set to any offset. */
  class EndianBinaryReader {
    var data: seq<byte>
    var pos: nat
    var bigEndian: bool

    constructor (data: seq<byte>, bigEndian: bool)
      ensures this.data == data && pos == 0 && this.bigEndian == bigEndian
    {
      this.data := data;
      this.pos := 0;
      this.bigEndian := bigEndian;
    }

    function Length(): (n: nat)
      reads this
      ensures n == |data|
    {
      |data|
    }

    method ReadU8() returns (b: byte)
      requires pos < |data|
      modifies this`pos
      ensures b == data[old(pos)] && pos == old(pos) + 1
    {
      b := data[pos];
      pos := pos + 1;
    }

    method ReadBytes(n: nat) returns (bs: seq<byte>)
      requires pos + n <= |data|
      modifies this`pos
      ensures bs == data[old(pos)..old(pos) + n] && pos == old(pos) + n
    {
      bs := data[pos..pos + n];
      pos := pos + n;
    }

    method ReadU32() returns (v: int)
      requires pos + 4 <= |data|
      modifies this`pos
      ensures v == U32At(data, old(pos), bigEndian) && pos == old(pos) + 4
    {
      v := U32At(data, pos, bigEndian);
      pos := pos + 4;
    }

    method ReadI64() returns (v: int)
      requires pos + 8 <= |data|
      modifies this`pos
      ensures v == I64At(data, old(pos), bigEndian) && pos == old(pos) + 8
    {
      v := I64At(data, pos, bigEndian);
      pos := pos + 8;
    }

    /** Reads bytes one at a time until a NUL, `maxLength` bytes or the end
        of the stream; a NUL that stops the read is consumed. */
    method ReadStringToNull(maxLength: nat) returns (s: seq<byte>)
      modifies this`pos
      ensures s == NulTerminated(data, old(pos), maxLength)
      ensures pos == old(pos) + |s| + (if |s| < maxLength && old(pos) + |s| < |data| then 1 else 0)
    {
      s := [];
      while |s| < maxLength && pos < |data| && data[pos] != 0
        invariant pos == old(pos) + |s| && |s| <= maxLength
        invariant NulTerminated(data, old(pos), maxLength) == s + NulTerminated(data, pos, maxLength - |s|)
        decreases maxLength - |s|
      {
        var c := ReadU8();
        s := s + [c];
      }
      if |s| < maxLength && pos < |data| {
        var nul := ReadU8();
      }
    }
  }
}
