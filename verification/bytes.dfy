/**
 * Fixed-width integers and their little-endian byte forms, as produced by
 * .NET's BitConverter.GetBytes and consumed by BinaryReader.ReadInt32/ReadInt64.
 */
module Bytes {

  type uint8 = x: int | 0 <= x < 0x100
  type int32 = x: int | -0x8000_0000 <= x < 0x8000_0000
  type int64 = x: int | -0x8000_0000_0000_0000 <= x < 0x8000_0000_0000_0000

  const MaxInt32: int := 0x7FFF_FFFF
  const MaxInt64: int := 0x7FFF_FFFF_FFFF_FFFF

  /** 256 to the power n: the number of values an n-byte unsigned field can hold. */
  function Pow256(n: nat): (r: nat)
    ensures r >= 1
  {
    if n == 0 then 1 else 256 * Pow256(n - 1)
  }

  /** The n-byte little-endian form of an unsigned value. */
  function LittleEndian(u: nat, n: nat): (bs: seq<uint8>)
    requires u < Pow256(n)
    ensures |bs| == n
  {
    if n == 0 then [] else [u % 256] + LittleEndian(u / 256, n - 1)
  }

  /** The unsigned value of a little-endian byte sequence. */
  function FromLittleEndian(bs: seq<uint8>): (u: nat)
    ensures u < Pow256(|bs|)
  {
    if bs == [] then 0 else bs[0] + 256 * FromLittleEndian(bs[1..])
  }

  lemma {:induction false} FromToLittleEndian(u: nat, n: nat)
    requires u < Pow256(n)
    ensures FromLittleEndian(LittleEndian(u, n)) == u
  {
    if n > 0 {
      var bs := LittleEndian(u, n);
      assert bs[1..] == LittleEndian(u / 256, n - 1);
      FromToLittleEndian(u / 256, n - 1);
    }
  }

  lemma {:induction false} ToFromLittleEndian(bs: seq<uint8>)
    ensures LittleEndian(FromLittleEndian(bs), |bs|) == bs
  {
    if bs != [] {
      var u := FromLittleEndian(bs);
      var rest := FromLittleEndian(bs[1..]);
      assert u % 256 == bs[0] && u / 256 == rest;
      ToFromLittleEndian(bs[1..]);
    }
  }

  /** Half the range of an n-byte field: the bound of its signed values. */
  function Half(n: nat): (h: int)
    requires n >= 1
    ensures h >= 1 && Pow256(n) == 2 * h
  {
    128 * Pow256(n - 1)
  }

  /** Two's-complement reinterpretation of a signed value in an n-byte field. */
  function ToUnsigned(x: int, n: nat): (u: nat)
    requires n >= 1
    requires -Half(n) <= x < Half(n)
    ensures u < Pow256(n)
  {
    if x < 0 then x + Pow256(n) else x
  }

  function ToSigned(u: nat, n: nat): (x: int)
    requires n >= 1
    requires u < Pow256(n)
    ensures -Half(n) <= x < Half(n)
  {
    if u >= Half(n) then u - Pow256(n) else u
  }

  /** BitConverter.GetBytes(int): four bytes, least significant first. */
  function Int32Bytes(x: int32): (bs: seq<uint8>)
    ensures |bs| == 4
  {
    LittleEndian(ToUnsigned(x, 4), 4)
  }

  /** The value BinaryReader.ReadInt32 yields from four bytes. */
  function Int32Of(bs: seq<uint8>): (x: int32)
    requires |bs| == 4
  {
    ToSigned(FromLittleEndian(bs), 4)
  }

  /** BitConverter.GetBytes(long): eight bytes, least significant first. */
  function Int64Bytes(x: int64): (bs: seq<uint8>)
    ensures |bs| == 8
  {
    LittleEndian(ToUnsigned(x, 8), 8)
  }

  /** The value BinaryReader.ReadInt64 yields from eight bytes. */
  function Int64Of(bs: seq<uint8>): (x: int64)
    requires |bs| == 8
  {
    ToSigned(FromLittleEndian(bs), 8)
  }

  lemma Int32RoundTrip(x: int32)
    ensures Int32Of(Int32Bytes(x)) == x
  {
    FromToLittleEndian(ToUnsigned(x, 4), 4);
  }

  lemma Int32BytesRoundTrip(bs: seq<uint8>)
    requires |bs| == 4
    ensures Int32Bytes(Int32Of(bs)) == bs
  {
    ToFromLittleEndian(bs);
  }

  lemma Int64RoundTrip(x: int64)
    ensures Int64Of(Int64Bytes(x)) == x
  {
    FromToLittleEndian(ToUnsigned(x, 8), 8);
  }

  lemma Int64BytesRoundTrip(bs: seq<uint8>)
    requires |bs| == 8
    ensures Int64Bytes(Int64Of(bs)) == bs
  {
    ToFromLittleEndian(bs);
  }

  /** Distinct 32-bit values have distinct byte forms. */
  lemma Int32BytesInjective(x: int32, y: int32)
    ensures Int32Bytes(x) == Int32Bytes(y) <==> x == y
  {
    if Int32Bytes(x) == Int32Bytes(y) {
      Int32RoundTrip(x);
      Int32RoundTrip(y);
    }
  }

  /**
   * C#'s unchecked int arithmetic: the result wraps to the 32-bit
   * two's-complement range.
   */
  function Wrap32(x: int): (r: int32)
    ensures (r - x) % 0x1_0000_0000 == 0
  {
    var m := x % 0x1_0000_0000;
    if m >= 0x8000_0000 then m - 0x1_0000_0000 else m
  }

  lemma Wrap32InRange(x: int)
    requires -0x8000_0000 <= x < 0x8000_0000
    ensures Wrap32(x) == x
  {
  }
}
