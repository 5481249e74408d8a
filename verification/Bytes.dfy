/**
  Octets, network-order fields and in-place splicing of byte strings: loads and stores through C
  pointers are functions of the buffer's octets and an offset, and a network-order field is most
  significant octet first whatever the host's order.
 */
module Bytes {

  type byte = x: int | 0 <= x < 0x100
  type u16 = x: int | 0 <= x < 0x1_0000
  type u32 = x: int | 0 <= x < 0x1_0000_0000
  type u64 = x: int | 0 <= x < 0x1_0000_0000_0000_0000

  const TWO32: int := 0x1_0000_0000
  const TWO64: int := 0x1_0000_0000_0000_0000

  /** The octet at i, or 0 past the end: the total model of a read through a C pointer. */
  function At(b: seq<byte>, i: nat): byte {
    if i < |b| then b[i] else 0
  }

  /** The network-order 16-bit field at i (ntohs of a load). */
  function Be16(b: seq<byte>, i: nat): u16 {
    At(b, i) * 0x100 + At(b, i + 1)
  }

  /** The network-order 32-bit field at i (ntohl of a load). */
  function Be32(b: seq<byte>, i: nat): u32 {
    Be16(b, i) * 0x1_0000 + Be16(b, i + 2)
  }

  /** The two octets that htons(v) stores. */
  function Octets16(v: u16): (s: seq<byte>)
    ensures |s| == 2
  {
    [v / 0x100, v % 0x100]
  }

  /** The four octets that htonl(v) stores. */
  function Octets32(v: u32): (s: seq<byte>)
    ensures |s| == 4
  {
    Octets16(v / 0x1_0000) + Octets16(v % 0x1_0000)
  }

  /** b with the octets of s written at i: memcpy into the middle of a buffer. */
  function Splice(b: seq<byte>, i: nat, s: seq<byte>): (r: seq<byte>)
    requires i + |s| <= |b|
    ensures |r| == |b|
    ensures forall k :: 0 <= k < |b| ==> r[k] == if i <= k < i + |s| then s[k - i] else b[k]
  {
    b[..i] + s + b[i + |s|..]
  }

  /** Writing a field touches nothing outside it: the slices on either side are as before. */
  lemma SpliceOutside(b: seq<byte>, i: nat, s: seq<byte>, lo: nat, hi: nat)
    requires i + |s| <= |b| && lo <= hi <= |b|
    requires hi <= i || i + |s| <= lo
    ensures Splice(b, i, s)[lo..hi] == b[lo..hi]
  {
  }

  /** Strings that agree up to mid agree on every slice below it. */
  lemma PrefixSlice(x: seq<byte>, y: seq<byte>, mid: nat, lo: nat, hi: nat)
    requires mid <= |x| && mid <= |y| && lo <= hi <= mid && x[..mid] == y[..mid]
    ensures x[lo..hi] == y[lo..hi]
  {
    assert x[lo..hi] == x[..mid][lo..hi] && y[lo..hi] == y[..mid][lo..hi];
  }

  /** Loading a network-order word and storing it gives the octets back, and the other way round. */
  lemma OctetsOfWord(x: seq<byte>)
    requires |x| >= 4
    ensures Octets32(Be32(x, 0)) == x[..4]
  {
    var hi, lo := Be16(x, 0), Be16(x, 2);
    assert Be32(x, 0) / 0x1_0000 == hi && Be32(x, 0) % 0x1_0000 == lo;
    OctetsOfHalf(x[0], x[1]);
    OctetsOfHalf(x[2], x[3]);
    assert x[..4] == [x[0], x[1]] + [x[2], x[3]];
  }

  lemma OctetsOfHalf(a: byte, b: byte)
    ensures Octets16(a as int * 0x100 + b as int) == [a, b]
  {
  }

  lemma WordOfOctets(v: u32, t: seq<byte>)
    ensures Be32(Octets32(v) + t, 0) == v
  {
  }

  lemma Regroup(x: seq<byte>, y: seq<byte>, t: seq<byte>)
    ensures x + (y + t) == (x + y) + t
  {
  }
}
