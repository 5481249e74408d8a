/**
  The Internet checksum (checksum.c). The program sums 32-bit little-endian words into a 64-bit
  accumulator and folds twice; RFC 1071 sums 16-bit big-endian words with end-around carry.
 */
module Checksum {
  import opened Bytes

  // ----- RFC 1071: the reference definition

  /** One's-complement addition of 16-bit numbers (end-around carry). */
  function OnesAdd(a: u16, b: u16): u16 {
    if a + b > 0xFFFF then a + b - 0xFFFF else a + b
  }

  /** The 16-bit one's-complement sum of the network-order words of p, an odd last octet padded with zero. */
  function OnesSum(p: seq<byte>): u16 {
    if |p| == 0 then 0 else OnesAdd(Be16(p, 0), if |p| == 1 then 0 else OnesSum(p[2..]))
  }

  /** The checksum as it is read from the wire. */
  function WireChecksum(p: seq<byte>): u16 {
    0xFFFF - OnesSum(p)
  }

  // ----- What the program computes

  /** A 16-bit load on a little-endian host. */
  function Le16(lo: byte, hi: byte): u16 {
    lo + 0x100 * hi as int
  }

  /** A 32-bit load on a little-endian host. */
  function Le32(p: seq<byte>): u32
    requires |p| >= 4
  {
    Le16(p[0], p[1]) + 0x1_0000 * Le16(p[2], p[3])
  }

  /** The trailing 0 to 3 octets: a 16-bit load if two are left, then the last octet as ntohs(b << 8). */
  function TailSum(p: seq<byte>): nat
    requires |p| < 4
  {
    if |p| == 0 then 0
    else if |p| == 1 then p[0]
    else Le16(p[0], p[1]) + Le16(if |p| == 3 then p[2] else 0, 0)
  }

  /** The value that a pass over p adds to the accumulator, were the accumulator unbounded. */
  function LeSum(p: seq<byte>): nat {
    if |p| < 4 then TailSum(p) else Le32(p) + LeSum(p[4..])
  }

  /** One addition to the accumulator, which is 64 bits wide and wraps. */
  method Accumulate(sum: u64, word: u32, ghost wraps: nat) returns (r: u64, ghost wraps': nat)
    ensures r + wraps' * TWO64 == sum + word + wraps * TWO64
  {
    wraps' := wraps + (sum + word) / TWO64;
    r := (sum + word) % TWO64;
  }

  /** ip_checksum_partial. */
  method IpChecksumPartial(p: seq<byte>, start: u64) returns (sum: u64)
    ensures sum == (start + LeSum(p)) % TWO64
    ensures |p| <= TWO32 && start <= TWO32 * 16 ==> sum == start + LeSum(p)
  {
    sum := start;
    var i: nat, len: nat := 0, |p|;
    ghost var wraps: nat := 0;
    while len >= 4
      invariant i + len == |p|
      invariant sum + wraps * TWO64 + LeSum(p[i..]) == start + LeSum(p)
      decreases len
    {
      assert p[i..][4..] == p[i + 4..];
      sum, wraps := Accumulate(sum, Le32(p[i..]), wraps);
      i, len := i + 4, len - 4;
    }
    sum, wraps := AccumulateTail(p[i..], sum, wraps);
    LeSumBound(p);
    Unwrapped(sum, wraps, start + LeSum(p));
  }

  /** The octets that are left when no 32-bit word is. */
  method AccumulateTail(rest: seq<byte>, start: u64, ghost before: nat) returns (sum: u64, ghost wraps: nat)
    requires |rest| < 4
    ensures sum + wraps * TWO64 == start + TailSum(rest) + before * TWO64
  {
    sum, wraps := start, before;
    var i, len := 0, |rest|;
    if len >= 2 {
      sum, wraps := Accumulate(sum, Le16(rest[0], rest[1]), wraps);
      i, len := i + 2, len - 2;
    }
    if len > 0 {
      sum, wraps := Accumulate(sum, Le16(rest[i], 0), wraps);
    }
  }

  lemma Unwrapped(sum: u64, wraps: nat, total: nat)
    requires sum + wraps * TWO64 == total
    ensures sum == total % TWO64
  {
  }

  /** No accumulator overflow: four gigabytes of 0xFF octets stay far below 2^64. */
  lemma {:induction false} LeSumBound(p: seq<byte>)
    ensures LeSum(p) <= (|p| / 4 + 1) * (TWO32 - 1)
    ensures |p| <= TWO32 ==> LeSum(p) + TWO32 * 16 < TWO64
    decreases |p|
  {
    if |p| >= 4 {
      LeSumBound(p[4..]);
      assert |p[4..]| / 4 == |p| / 4 - 1;
    }
  }

  /** The unique representative of n mod 65535 that is zero only for n = 0. */
  function Canon(n: nat): u16 {
    if n == 0 then 0 else (n - 1) % 0xFFFF + 1
  }

  /** ip_checksum_fold: two folding loops and a complement truncated to 16 bits. */
  method IpChecksumFold(total: u64) returns (r: u16)
    ensures r == 0xFFFF - Canon(total)
  {
    var sum: u64 := total;
    while sum / TWO32 != 0
      invariant Canon(sum) == Canon(total)
      decreases sum
    {
      CanonFold32(sum / TWO32, sum % TWO32);
      sum := sum / TWO32 + sum % TWO32;
    }
    while (sum / 0x1_0000) % 0x1_0000 != 0
      invariant sum < TWO32 && Canon(sum) == Canon(total)
      decreases sum
    {
      CanonFold16(sum / 0x1_0000, sum % 0x1_0000);
      sum := sum / 0x1_0000 + sum % 0x1_0000;
    }
    r := (TWO64 - 1 - sum) % 0x1_0000;
  }

  /** Adding the high part to the low part keeps the residue: 2^16 and 2^32 are 1 modulo 65535. */
  lemma CanonFold16(hi: nat, lo: nat)
    ensures Canon(hi * 0x1_0000 + lo) == Canon(hi + lo)
  {
  }

  lemma CanonFold32(hi: nat, lo: nat)
    ensures Canon(hi * TWO32 + lo) == Canon(hi + lo)
  {
    CanonFold16(hi * 0x1_0000, lo);
    CanonFold16(hi, lo);
  }

  // ----- The two agree

  /** The 16-bit integer sum of the network-order words, without end-around carry. */
  function BeSum(p: seq<byte>): nat {
    if |p| == 0 then 0 else Be16(p, 0) + if |p| == 1 then 0 else BeSum(p[2..])
  }

  lemma CanonAdd(a: nat, b: nat)
    ensures OnesAdd(Canon(a), Canon(b)) == Canon(a + b)
  {
  }

  /** End-around carry computes the residue of the integer sum. */
  lemma {:induction false} OnesSumIsCanon(p: seq<byte>)
    ensures OnesSum(p) == Canon(BeSum(p))
    decreases |p|
  {
    if |p| > 1 {
      OnesSumIsCanon(p[2..]);
      CanonAdd(Be16(p, 0), BeSum(p[2..]));
    }
    if |p| != 0 {
      assert Canon(Be16(p, 0)) == Be16(p, 0);
    }
  }

  /** Byte-order independence (RFC 1071 section 2 (B)): a word sum and its byte-swapped twin differ by a factor 256. */
  lemma {:induction false} LeSumSwaps(p: seq<byte>) returns (q: int)
    ensures BeSum(p) == 0x100 * LeSum(p) - q * 0xFFFF
    ensures LeSum(p) == 0 <==> BeSum(p) == 0
    decreases |p|
  {
    if |p| < 4 {
      q := if |p| < 2 then 0 else p[1];
      assert |p| >= 2 ==> BeSum(p) == Be16(p, 0) + BeSum(p[2..]);
      assert |p| == 3 ==> BeSum(p[2..]) == Be16(p[2..], 0);
    } else {
      var q0 := LeSumSwaps(p[4..]);
      assert p[2..][2..] == p[4..];
      assert BeSum(p) == Be16(p, 0) + Be16(p, 2) + BeSum(p[4..]);
      q := q0 + p[1] + 0x100 * p[2] as int + 0x1_0001 * p[3] as int;
    }
  }

  /** The checksum as the little-endian host holds it in a 16-bit variable, and so stores it low octet first. */
  function NativeChecksum(p: seq<byte>): u16 {
    0xFFFF - Canon(LeSum(p))
  }

  function Swap16(v: u16): u16 {
    v % 0x100 * 0x100 + v / 0x100
  }

  lemma SwapCanon(le: nat, be: nat, q: int)
    requires be == 0x100 * le - q * 0xFFFF
    requires le == 0 <==> be == 0
    ensures Swap16(0xFFFF - Canon(le)) == 0xFFFF - Canon(be)
  {
    var c := Canon(le);
    if le != 0 {
      var hi, lo := c / 0x100, c % 0x100;
      assert 0x100 * c == hi * 0x1_0000 + lo * 0x100;
      ghost var m := (le - 1) / 0xFFFF;
      assert le == m * 0xFFFF + c;
      assert be == (0x100 * m - q + hi) * 0xFFFF + (hi + lo * 0x100);
      CanonUnique(be, hi + lo * 0x100, 0x100 * m - q + hi);
    }
  }

  lemma CanonUnique(n: nat, c: nat, m: int)
    requires 0 < c <= 0xFFFF && n != 0 && n == m * 0xFFFF + c
    ensures Canon(n) == c
  {
  }

  /**
    The main theorem: for every byte string, odd lengths included, the folded 32-bit little-endian
    sum puts on the wire exactly the complement of the RFC 1071 sum.
   */
  lemma ChecksumIsRfc1071(p: seq<byte>)
    ensures Swap16(NativeChecksum(p)) == WireChecksum(p)
  {
    var q := LeSumSwaps(p);
    SwapCanon(LeSum(p), BeSum(p), q);
    OnesSumIsCanon(p);
  }

  // ----- Pseudo-headers

  /** The IPv4 pseudo-header of RFC 793 section 3.1. */
  function PseudoHeader4(src: seq<byte>, dst: seq<byte>, protocol: byte, len: u16): (r: seq<byte>) {
    src + dst + [0, protocol] + Octets16(len)
  }

  /** The IPv6 pseudo-header of RFC 2460 section 8.1. */
  function PseudoHeader6(src: seq<byte>, dst: seq<byte>, protocol: byte, len: u32): (r: seq<byte>) {
    src + dst + Octets32(len) + [0, 0, 0, protocol]
  }

  lemma {:induction false} LeSumAppend(a: seq<byte>, b: seq<byte>)
    requires |a| % 4 == 0
    ensures LeSum(a + b) == LeSum(a) + LeSum(b)
    decreases |a|
  {
    if a == [] {
      assert a + b == b;
    } else {
      LeSumAppend(a[4..], b);
      assert (a + b)[4..] == a[4..] + b;
    }
  }

  /** tcp_udp_v4_checksum: the pseudo-header and the payload are summed in two passes. */
  method TcpUdpV4Checksum(src: seq<byte>, dst: seq<byte>, protocol: byte, payload: seq<byte>, len: u16)
    returns (r: u16)
    requires |src| == 4 && |dst| == 4 && len == |payload|
    ensures Swap16(r) == WireChecksum(PseudoHeader4(src, dst, protocol, len) + payload)
  {
    var pseudo := PseudoHeader4(src, dst, protocol, len);
    var sum := IpChecksumPartial(pseudo, 0);
    LeSumBound(pseudo);
    sum := IpChecksumPartial(payload, sum);
    LeSumAppend(pseudo, payload);
    ChecksumIsRfc1071(pseudo + payload);
    r := IpChecksumFold(sum);
  }

  method TcpUdpV6Checksum(src: seq<byte>, dst: seq<byte>, protocol: byte, payload: seq<byte>, len: u32)
    returns (r: u16)
    requires |src| == 16 && |dst| == 16 && len == |payload|
    ensures Swap16(r) == WireChecksum(PseudoHeader6(src, dst, protocol, len) + payload)
  {
    var pseudo := PseudoHeader6(src, dst, protocol, len);
    var sum := IpChecksumPartial(pseudo, 0);
    LeSumBound(pseudo);
    sum := IpChecksumPartial(payload, sum);
    LeSumAppend(pseudo, payload);
    ChecksumIsRfc1071(pseudo + payload);
    r := IpChecksumFold(sum);
  }

  /** ipv4_checksum, also used for ICMPv4 messages. */
  method Ipv4Checksum(header: seq<byte>) returns (r: u16)
    requires |header| <= TWO32
    ensures Swap16(r) == WireChecksum(header)
  {
    var sum := IpChecksumPartial(header, 0);
    ChecksumIsRfc1071(header);
    r := IpChecksumFold(sum);
  }

  // ----- Storing and verifying

  lemma {:induction false} BeSumSplit(p: seq<byte>, k: nat)
    requires k % 2 == 0 && k <= |p|
    ensures BeSum(p) == BeSum(p[..k]) + BeSum(p[k..])
    decreases |p|
  {
    if k == 0 {
      assert p[..k] == [] && p[k..] == p;
    } else {
      BeSumSplit(p[2..], k - 2);
      assert p[2..][..k - 2] == p[..k][2..] && p[2..][k - 2..] == p[k..];
    }
  }

  /**
    Exactly which values make a packet verify. A receiver recomputes 0 if and only if the field
    holds the checksum of the packet with that field zeroed; where that checksum is zero, the other
    representation of zero, 0xFFFF, passes as well.
   */
  lemma VerifiesIff(p: seq<byte>, k: nat, c: u16)
    requires k % 2 == 0 && k + 2 <= |p| && Be16(p, k) == 0
    ensures WireChecksum(Splice(p, k, Octets16(c))) == 0
            <==> c == WireChecksum(p) || (c == 0xFFFF && WireChecksum(p) == 0)
  {
    var p' := Splice(p, k, Octets16(c));
    BeSumSplit(p, k);
    BeSumSplit(p', k);
    SpliceOutside(p, k, Octets16(c), 0, k);
    SpliceOutside(p, k, Octets16(c), k + 2, |p|);
    assert p'[k..][2..] == p'[k + 2..|p|] && p[k..][2..] == p[k + 2..|p|];
    assert Be16(p'[k..], 0) == c && Be16(p[k..], 0) == 0;
    OnesSumIsCanon(p);
    OnesSumIsCanon(p');
    CanonAdd(BeSum(p), c);
    OnesAddComplement(OnesSum(p), c);
  }

  lemma OnesAddComplement(s: u16, c: u16)
    ensures Canon(c) == c
    ensures OnesAdd(s, c) == 0xFFFF <==> c == 0xFFFF - s || (c == 0xFFFF && s == 0xFFFF)
  {
  }

  // ----- Filling in a checksum field

  /**
    How every checksum is filled in: zero the 16-bit field at lo + field, sum the pseudo-header and the
    len octets from lo, and store the result in the field.
   */
  function FillChecksum(b: seq<byte>, lo: nat, len: nat, field: nat, pseudo: seq<byte>): (r: seq<byte>)
    requires lo + field + 2 <= |b| && lo + len <= |b|
    ensures |r| == |b| && r[..lo] == b[..lo]
    ensures field + 2 <= len ==> r[lo + len..] == b[lo + len..]
  {
    var zeroed := Splice(b, lo + field, Octets16(0));
    Splice(zeroed, lo + field, Octets16(WireChecksum(pseudo + zeroed[lo..lo + len])))
  }

  /** A filled-in field verifies: a receiver that sums the same octets gets zero, for any contents. */
  lemma FillVerifies(b: seq<byte>, lo: nat, len: nat, field: nat, pseudo: seq<byte>)
    requires field + 2 <= len && lo + len <= |b| && field % 2 == 0 && |pseudo| % 2 == 0
    ensures WireChecksum(pseudo + FillChecksum(b, lo, len, field, pseudo)[lo..lo + len]) == 0
  {
    var zeroed := Splice(b, lo + field, Octets16(0));
    var covered := pseudo + zeroed[lo..lo + len];
    var c := WireChecksum(covered);
    var filled := Splice(zeroed, lo + field, Octets16(c));
    assert pseudo + filled[lo..lo + len] == Splice(covered, |pseudo| + field, Octets16(c));
    assert covered[|pseudo| + field] == 0 && covered[|pseudo| + field + 1] == 0;
    VerifiesIff(covered, |pseudo| + field, c);
  }

  lemma FillPlainVerifies(b: seq<byte>, lo: nat, len: nat, field: nat)
    requires field + 2 <= len && lo + len <= |b| && field % 2 == 0
    ensures WireChecksum(FillChecksum(b, lo, len, field, [])[lo..lo + len]) == 0
  {
    FillVerifies(b, lo, len, field, []);
    var r := FillChecksum(b, lo, len, field, [])[lo..lo + len];
    assert [] + r == r;
  }
}
