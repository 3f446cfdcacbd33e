/** Native little-endian integers over byte sequences: how the C# code reads
    int32, uint16 and IntPtr fields through pointer casts and explicit struct
    layouts on x86/x64. */
module Bytes {

  type byte = b: int | 0 <= b < 0x100

  /** A .NET `int` (System.Int32). */
  type int32 = x: int | -0x8000_0000 <= x < 0x8000_0000

  /** A .NET `ushort` (System.UInt16). */
  type uint16 = x: int | 0 <= x < 0x1_0000

  /** 256^n: the number of values that n bytes can hold. */
  function Pow256(n: nat): (r: nat)
    ensures r >= 1
  {
    if n == 0 then 1 else 256 * Pow256(n - 1)
  }

  lemma Pow256Values()
    ensures Pow256(2) == 0x1_0000
    ensures Pow256(4) == 0x1_0000_0000
    ensures Pow256(8) == 0x1_0000_0000_0000_0000
  {
  }

  function Zeros(n: nat): (s: seq<byte>)
    ensures |s| == n && forall i :: 0 <= i < n ==> s[i] == 0
  {
    seq(n, _ => 0)
  }

  /** The unsigned value of a little-endian byte sequence (least significant byte first). */
  function FromLE(s: seq<byte>): (u: nat)
    ensures u < Pow256(|s|)
  {
    if s == [] then 0 else s[0] + 256 * FromLE(s[1..])
  }

  /** The `width` little-endian bytes of an unsigned value that fits in them. */
  function ToLE(u: nat, width: nat): (s: seq<byte>)
    requires u < Pow256(width)
    ensures |s| == width && FromLE(s) == u
  {
    if width == 0 then []
    else
      var rest := ToLE(u / 256, width - 1);
      assert ([u % 256] + rest)[1..] == rest;
      [u % 256] + rest
  }

  /** FromLE is injective on sequences of one width: the byte encoding is unique. */
  lemma {:induction false} FromLEInjective(a: seq<byte>, b: seq<byte>)
    requires |a| == |b| && FromLE(a) == FromLE(b)
    ensures a == b
  {
    if a != [] {
      assert a[0] == FromLE(a) % 256 && b[0] == FromLE(b) % 256;
      assert FromLE(a[1..]) == FromLE(a) / 256 && FromLE(b[1..]) == FromLE(b) / 256;
      FromLEInjective(a[1..], b[1..]);
      assert a == [a[0]] + a[1..] && b == [b[0]] + b[1..];
    }
  }

  /** Half the range of `width` bytes: the bound of the two's complement range. */
  function Half(width: nat): nat
  {
    Pow256(width) / 2
  }

  lemma HalfDoubles(width: nat)
    requires width > 0
    ensures 2 * Half(width) == Pow256(width)
  {
    assert Pow256(width) == 256 * Pow256(width - 1);
  }

  predicate FitsSigned(x: int, width: nat)
  {
    -(Half(width) as int) <= x < Half(width)
  }

  /** Two's complement reading of `width` bytes' unsigned value. */
  function ToSigned(u: nat, width: nat): (x: int)
    requires width > 0 && u < Pow256(width)
    ensures FitsSigned(x, width)
    ensures x == u || x == u - Pow256(width)
  {
    HalfDoubles(width);
    if u >= Half(width) then u - Pow256(width) else u
  }

  /** The unsigned bit pattern of a signed value in `width` bytes. */
  function ToUnsigned(x: int, width: nat): (u: nat)
    requires width > 0 && FitsSigned(x, width)
    ensures u < Pow256(width) && ToSigned(u, width) == x
  {
    HalfDoubles(width);
    if x < 0 then x + Pow256(width) else x
  }

  /** Signed little-endian field of `width` bytes at byte offset `off`. */
  function ReadSigned(b: seq<byte>, off: nat, width: nat): (x: int)
    requires width > 0 && off + width <= |b|
    ensures FitsSigned(x, width)
  {
    ToSigned(FromLE(b[off..off + width]), width)
  }

  /** Little-endian encoding of a signed value in `width` bytes. */
  function SignedBytes(x: int, width: nat): (s: seq<byte>)
    requires width > 0 && FitsSigned(x, width)
    ensures |s| == width && ReadSigned(s, 0, width) == x
  {
    var s := ToLE(ToUnsigned(x, width), width);
    assert s[0..width] == s;
    s
  }

  /** `*(int*)(p + off)` on a little-endian machine. */
  function ReadInt32(b: seq<byte>, off: nat): (x: int32)
    requires off + 4 <= |b|
  {
    Pow256Values();
    ReadSigned(b, off, 4)
  }

  /** A `ushort` field at byte offset `off`. */
  function ReadUInt16(b: seq<byte>, off: nat): (x: uint16)
    requires off + 2 <= |b|
  {
    Pow256Values();
    FromLE(b[off..off + 2])
  }

  function Int32Bytes(x: int32): (s: seq<byte>)
    ensures |s| == 4
  {
    Pow256Values();
    SignedBytes(x, 4)
  }

  function UInt16Bytes(x: uint16): (s: seq<byte>)
    ensures |s| == 2
  {
    Pow256Values();
    ToLE(x, 2)
  }

  lemma {:induction false} FromLEZeros(n: nat)
    ensures FromLE(Zeros(n)) == 0
  {
    if n > 0 {
      assert Zeros(n)[1..] == Zeros(n - 1);
      FromLEZeros(n - 1);
    }
  }

  /** A field reads as the value whose encoding occupies its bytes. */
  lemma ReadInt32Slice(s: seq<byte>, off: nat, x: int32)
    requires off + 4 <= |s| && s[off..off + 4] == Int32Bytes(x)
    ensures ReadInt32(s, off) == x
  {
    Pow256Values();
    assert Int32Bytes(x)[0..4] == Int32Bytes(x);
  }

  lemma ReadUInt16Slice(s: seq<byte>, off: nat, x: uint16)
    requires off + 2 <= |s| && s[off..off + 2] == UInt16Bytes(x)
    ensures ReadUInt16(s, off) == x
  {
  }

  lemma ReadSignedSlice(s: seq<byte>, off: nat, width: nat, x: int)
    requires width > 0 && FitsSigned(x, width)
    requires off + width <= |s| && s[off..off + width] == SignedBytes(x, width)
    ensures ReadSigned(s, off, width) == x
  {
    assert SignedBytes(x, width)[0..width] == SignedBytes(x, width);
  }

  /** Reading a field back from where it was written, with any bytes before and after. */
  lemma ReadInt32At(pre: seq<byte>, x: int32, post: seq<byte>)
    ensures ReadInt32(pre + Int32Bytes(x) + post, |pre|) == x
  {
    var s := pre + Int32Bytes(x) + post;
    assert s[|pre|..|pre| + 4] == Int32Bytes(x);
    Pow256Values();
    assert ReadSigned(Int32Bytes(x), 0, 4) == x;
    assert Int32Bytes(x)[0..4] == Int32Bytes(x);
  }

  /** Encoding what FromLE read gives back the bytes it read. */
  lemma ToLEFromLE(s: seq<byte>)
    ensures ToLE(FromLE(s), |s|) == s
  {
    FromLEInjective(ToLE(FromLE(s), |s|), s);
  }

  /** A signed field read and written back is the bytes it was read from: reading loses nothing. */
  lemma SignedBytesOfRead(b: seq<byte>, off: nat, width: nat)
    requires width > 0 && off + width <= |b|
    ensures SignedBytes(ReadSigned(b, off, width), width) == b[off..off + width]
  {
    var u := FromLE(b[off..off + width]);
    HalfDoubles(width);
    assert ToUnsigned(ToSigned(u, width), width) == u;
    ToLEFromLE(b[off..off + width]);
  }

  lemma Int32BytesOfRead(b: seq<byte>, off: nat)
    requires off + 4 <= |b|
    ensures Int32Bytes(ReadInt32(b, off)) == b[off..off + 4]
  {
    SignedBytesOfRead(b, off, 4);
  }

  lemma UInt16BytesOfRead(b: seq<byte>, off: nat)
    requires off + 2 <= |b|
    ensures UInt16Bytes(ReadUInt16(b, off)) == b[off..off + 2]
  {
    ToLEFromLE(b[off..off + 2]);
  }

  /** C# `unchecked` int32 arithmetic: the result modulo 2^32, read as two's complement. */
  function WrapInt32(x: int): (r: int32)
    ensures -0x8000_0000 <= x < 0x8000_0000 ==> r == x
  {
    var u := x % 0x1_0000_0000;
    if u >= 0x8000_0000 then u - 0x1_0000_0000 else u
  }

  /** The wrapped value differs from the exact one by a multiple of 2^32. */
  lemma WrapInt32Congruent(x: int)
    ensures (WrapInt32(x) - x) % 0x1_0000_0000 == 0
  {
  }

  function Min(a: int, b: int): (m: int)
    ensures m <= a && m <= b && (m == a || m == b)
  {
    if a < b then a else b
  }
}
