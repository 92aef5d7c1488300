/**
 * Bytes and the little-endian scalars of the POD HD500 channel: the 16-bit
 * length words of fragments and messages, and the 32-bit words a message is
 * made of (its tag and its integer and float fields).
 */
module Bytes {

  newtype byte = x: int | 0 <= x < 256

  const U16Limit: nat := 0x1_0000
  const U32Limit: nat := 0x1_0000_0000

  /** The unsigned 16-bit little-endian value at s[off..off+2]. */
  function U16Le(s: seq<byte>, off: nat): (v: nat)
    requires off + 2 <= |s|
    ensures v < U16Limit
    ensures v % 256 == s[off] as nat && v / 256 == s[off + 1] as nat
  {
    s[off] as nat + s[off + 1] as nat * 256
  }

  /** The unsigned 32-bit little-endian value at s[off..off+4]. */
  function U32Le(s: seq<byte>, off: nat): (v: nat)
    requires off + 4 <= |s|
    ensures v < U32Limit
  {
    var lo := U16Le(s, off);
    var hi := U16Le(s, off + 2);
    lo + hi * U16Limit
  }

  /** The two bytes of v, least significant first. */
  function EncodeU16(v: nat): (s: seq<byte>)
    requires v < U16Limit
    ensures |s| == 2
  {
    [(v % 256) as byte, (v / 256) as byte]
  }

  /** The four bytes of v, least significant first. */
  function EncodeU32(v: nat): (s: seq<byte>)
    requires v < U32Limit
    ensures |s| == 4
  {
    EncodeU16(v % U16Limit) + EncodeU16(v / U16Limit)
  }

  /** A run of n zero bytes (padding between fields). */
  function Zeros(n: nat): (s: seq<byte>)
    ensures |s| == n && forall i :: 0 <= i < n ==> s[i] == 0
  {
    seq(n, _ => 0)
  }

  lemma U16RoundTrip(v: nat)
    requires v < U16Limit
    ensures U16Le(EncodeU16(v), 0) == v
  {
  }

  lemma U16Encode(s: seq<byte>, off: nat)
    requires off + 2 <= |s|
    ensures EncodeU16(U16Le(s, off)) == s[off..off + 2]
  {
  }

  /** Reading back the four bytes of v gives v. */
  lemma U32RoundTrip(v: nat)
    requires v < U32Limit
    ensures U32Le(EncodeU32(v), 0) == v
  {
    var s := EncodeU32(v);
    U16RoundTrip(v % U16Limit);
    U16RoundTrip(v / U16Limit);
    assert s[..2] == EncodeU16(v % U16Limit);
    assert s[2..] == EncodeU16(v / U16Limit);
    assert U16Le(s, 0) == U16Le(s[..2], 0);
    assert U16Le(s, 2) == U16Le(s[2..], 0);
  }

  /** Encoding the value read at off gives back exactly the four bytes there. */
  lemma U32Encode(s: seq<byte>, off: nat)
    requires off + 4 <= |s|
    ensures EncodeU32(U32Le(s, off)) == s[off..off + 4]
  {
    var lo := U16Le(s, off);
    var hi := U16Le(s, off + 2);
    var v := U32Le(s, off);
    assert v % U16Limit == lo && v / U16Limit == hi;
    U16Encode(s, off);
    U16Encode(s, off + 2);
  }

  /** The 32-bit word at off depends only on the four bytes there. */
  lemma U32LeWindow(s: seq<byte>, t: seq<byte>, off: nat, toff: nat)
    requires off + 4 <= |s| && toff + 4 <= |t|
    requires s[off..off + 4] == t[toff..toff + 4]
    ensures U32Le(s, off) == U32Le(t, toff)
  {
    assert s[off] == s[off..off + 4][0] && t[toff] == t[toff..toff + 4][0];
    assert s[off + 1] == s[off..off + 4][1] && t[toff + 1] == t[toff..toff + 4][1];
    assert s[off + 2] == s[off..off + 4][2] && t[toff + 2] == t[toff..toff + 4][2];
    assert s[off + 3] == s[off..off + 4][3] && t[toff + 3] == t[toff..toff + 4][3];
  }
}
