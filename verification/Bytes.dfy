/**
 * Octets as they arrive on the socket, and the integer readings of groups of
 * them: the signed reading of one octet, the little-endian reading of several,
 * and two's complement.  Every reading comes with its inverse, so that the
 * decoder can be checked against an encoder.
 */
module Bytes {

  /** One octet, as the unsigned value of its bit pattern. */
  type Byte = b: int | 0 <= b < 0x100

  /** 256 to the power n: the number of distinct n-octet patterns. */
  function Pow256(n: nat): (p: nat)
    ensures p >= 1
  {
    if n == 0 then 1 else 0x100 * Pow256(n - 1)
  }

  /** The JVM's signed reading of an octet (Kotlin `Byte`). */
  function SignedByte(b: Byte): (v: int)
    ensures -0x80 <= v < 0x80
    ensures v == b || v == b - 0x100
  {
    if b < 0x80 then b else b - 0x100
  }

  /** The octet whose signed reading is v. */
  function ByteOfSigned(v: int): (b: Byte)
    requires -0x80 <= v < 0x80
    ensures SignedByte(b) == v
  {
    if v < 0 then v + 0x100 else v
  }

  /** The unsigned little-endian reading of bs: bs[0] is the least significant octet. */
  function LeValue(bs: seq<Byte>): (u: nat)
    ensures u < Pow256(|bs|)
  {
    if |bs| == 0 then 0 else bs[0] + 0x100 * LeValue(bs[1..])
  }

  /** The n octets, least significant first, whose little-endian reading is u. */
  function LeEncode(u: nat, n: nat): (bs: seq<Byte>)
    requires u < Pow256(n)
    ensures |bs| == n
  {
    if n == 0 then [] else [u % 0x100] + LeEncode(u / 0x100, n - 1)
  }

  /** Encoding then reading gives back the number. */
  lemma {:induction false} LeValueOfEncode(u: nat, n: nat)
    requires u < Pow256(n)
    ensures LeValue(LeEncode(u, n)) == u
    decreases n
  {
    if n > 0 {
      LeValueOfEncode(u / 0x100, n - 1);
      assert LeEncode(u, n)[1..] == LeEncode(u / 0x100, n - 1);
    }
  }

  /** Reading then encoding gives back the octets: the reading is injective. */
  lemma {:induction false} LeEncodeOfValue(bs: seq<Byte>)
    ensures LeEncode(LeValue(bs), |bs|) == bs
    decreases |bs|
  {
    if |bs| > 0 {
      var u := LeValue(bs);
      assert u % 0x100 == bs[0];
      assert u / 0x100 == LeValue(bs[1..]);
      LeEncodeOfValue(bs[1..]);
    }
  }

  /** Half the n-octet patterns: the first one whose two's complement reading is negative. */
  function Half(n: nat): (h: nat)
    requires 0 < n
    ensures 2 * h == Pow256(n)
  {
    0x80 * Pow256(n - 1)
  }

  /** Two's complement reading of an n-octet unsigned value. */
  function Signed(u: nat, n: nat): (v: int)
    requires 0 < n && u < Pow256(n)
    ensures -(Half(n) as int) <= v < Half(n)
    ensures v == u || v == u - Pow256(n)
  {
    if u < Half(n) then u else u - Pow256(n)
  }

  /** The n-octet unsigned value whose two's complement reading is v. */
  function Unsigned(v: int, n: nat): (u: nat)
    requires 0 < n && -(Half(n) as int) <= v < Half(n)
    ensures u < Pow256(n)
    ensures Signed(u, n) == v
  {
    if v < 0 then v + Pow256(n) else v
  }
}
