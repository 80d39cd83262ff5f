/** A file that may be missing, a value that may be absent. */
module Options {
  datatype Option<T> = None | Some(value: T)
}

/** Fixed-width integer types and the little-endian byte codec used by the
    bitmap headers, which are read and written as raw little-endian records. */
module Bytes {

  type byte = x: int | 0 <= x < 0x100
  type u16 = x: int | 0 <= x < 0x1_0000
  type u32 = x: int | 0 <= x < 0x1_0000_0000
  type i32 = x: int | -0x8000_0000 <= x < 0x8000_0000

  /** 256 to the power n: the number of values an n-byte field can hold. */
  function Pow256(n: nat): (r: nat)
    ensures r >= 1
  {
    if n == 0 then 1 else 0x100 * Pow256(n - 1)
  }

  /** The n-byte little-endian encoding of v (least significant byte first). */
  function LeBytes(v: nat, n: nat): (r: seq<byte>)
    requires v < Pow256(n)
    ensures |r| == n
  {
    if n == 0 then [] else [v % 0x100] + LeBytes(v / 0x100, n - 1)
  }

  /** The unsigned value of a little-endian byte string. */
  function LeValue(s: seq<byte>): (v: nat)
    ensures v < Pow256(|s|)
  {
    if s == [] then 0
    else
      var rest := LeValue(s[1..]);
      assert rest <= Pow256(|s| - 1) - 1;
      assert 0x100 * rest <= 0x100 * Pow256(|s| - 1) - 0x100;
      s[0] + 0x100 * rest
  }

  /** Decoding an encoded value gives the value back. */
  lemma {:induction false} LeValueOfLeBytes(v: nat, n: nat)
    requires v < Pow256(n)
    ensures LeValue(LeBytes(v, n)) == v
  {
    if n > 0 {
      LeValueOfLeBytes(v / 0x100, n - 1);
      assert LeBytes(v, n)[1..] == LeBytes(v / 0x100, n - 1);
    }
  }

  /** Encoding a decoded string gives the string back: the codec is a bijection
      between n-byte strings and the values below 256^n. */
  lemma {:induction false} LeBytesOfLeValue(s: seq<byte>)
    ensures LeBytes(LeValue(s), |s|) == s
  {
    if s != [] {
      LeBytesOfLeValue(s[1..]);
      LowByte(s[0], LeValue(s[1..]));
    }
  }

  /** The low byte and the rest of b + 256*rest. */
  lemma LowByte(b: byte, rest: nat)
    ensures (b + 0x100 * rest) % 0x100 == b && (b + 0x100 * rest) / 0x100 == rest
  {
  }

  /** The bit pattern of a signed 32-bit value (two's complement). */
  function I32ToU32(v: i32): (u: u32)
    ensures (u < 0x8000_0000) == (v >= 0)
  {
    if v < 0 then v + 0x1_0000_0000 else v
  }

  /** The signed 32-bit value with bit pattern u. */
  function U32ToI32(u: u32): (v: i32)
    ensures I32ToU32(v) == u
  {
    if u < 0x8000_0000 then u else u - 0x1_0000_0000
  }

  lemma SignedRoundTrip(v: i32)
    ensures U32ToI32(I32ToU32(v)) == v
  {
  }

  function U16Bytes(v: u16): (r: seq<byte>)
    ensures |r| == 2 && LeValue(r) == v
  {
    LeValueOfLeBytes(v, 2);
    LeBytes(v, 2)
  }

  function U32Bytes(v: u32): (r: seq<byte>)
    ensures |r| == 4 && LeValue(r) == v
  {
    LeValueOfLeBytes(v, 4);
    LeBytes(v, 4)
  }

  function I32Bytes(v: i32): (r: seq<byte>)
    ensures |r| == 4 && U32ToI32(LeValue(r)) == v
  {
    U32Bytes(I32ToU32(v))
  }

  function ReadU16(s: seq<byte>): (v: u16)
    requires |s| == 2
    ensures U16Bytes(v) == s
  {
    LeBytesOfLeValue(s);
    LeValue(s)
  }

  function ReadU32(s: seq<byte>): (v: u32)
    requires |s| == 4
    ensures U32Bytes(v) == s
  {
    LeBytesOfLeValue(s);
    LeValue(s)
  }

  function ReadI32(s: seq<byte>): (v: i32)
    requires |s| == 4
    ensures I32Bytes(v) == s
  {
    U32ToI32(ReadU32(s))
  }
}
