/** Built and checksummed packets octet by octet: where the checksums go, and every field read back. */
module SegmentOctets {
  // The positions are those of RFC 9293, RFC 768 and RFC 792; nothing here refers to how the builder or the
  // checksum code places a field.

  import opened Wrappers
  import opened Bytes
  import opened Checksum
  import opened WireFormat
  import opened PacketParser
  import opened Packets
  import opened Encapsulation
  import opened Encapsulate
  import opened PacketChecksum
  import opened TcpPacket

  // ----- Where checksums go

  /** The two octets of the checksum of a segment of this type that starts at t. */
  predicate InCheck(kind: HeaderType, t: nat, k: int) {
    match kind
    case TCP => k == t + 16 || k == t + 17
    case UDP => k == t + 6 || k == t + 7
    case ICMPV4 => k == t + 2 || k == t + 3
    case ICMPV6 => k == t + 2 || k == t + 3
    case _ => false
  }

  /** Those, and octets 10 and 11 of an IPv4 header. */
  predicate MayChange(h: Header, g: Header, k: int) {
    InCheck(g.kind, g.offset, k) || (h.kind == IPV4 && (k == h.offset + 10 || k == h.offset + 11))
  }

  /** checksum_packet stores checksums and nothing else. */
  lemma {:induction false} OnlyChecksumsChange(b: seq<byte>, h: Header, g: Header, k: nat)
    requires Summable(b, h, g) && k < |b| && !MayChange(h, g, k)
    ensures Checksummed(b, h, g)[k] == b[k]
  {
    ChecksummedSame(b, h, g);
  }

  /** The receiver's sum over IPv4: addresses, protocol, length of the segment, and the segment. */
  predicate VerifiesOver4(r: seq<byte>, o: nat, protocol: byte, t: nat, len: nat) {
    && o + 20 <= |r| && t + len <= |r| && len < 0x1_0000
    && OnesSum(r[o + 12..o + 20] + [0, protocol, len / 256, len % 256] + r[t..t + len]) == 65535
  }

  /** Over IPv6, with a 32-bit length, of which a segment uses the lower half. */
  predicate VerifiesOver6(r: seq<byte>, o: nat, protocol: byte, t: nat, len: nat) {
    && o + 40 <= |r| && t + len <= |r| && len < 0x1_0000
    && OnesSum(r[o + 8..o + 40] + [0, 0, len / 256, len % 256, 0, 0, 0, protocol] + r[t..t + len]) == 65535
  }

  predicate Verifies(r: seq<byte>, h: Header, g: Header) {
    match h.kind
    case IPV4 =>
      (match g.kind
       case TCP => VerifiesOver4(r, h.offset, 6, g.offset, g.totalBytes)
       case UDP => VerifiesOver4(r, h.offset, 17, g.offset, g.totalBytes)
       case _ => g.offset + g.totalBytes <= |r| && OnesSum(r[g.offset..g.offset + g.totalBytes]) == 65535)
    case IPV6 =>
      (match g.kind
       case TCP => VerifiesOver6(r, h.offset, 6, g.offset, g.totalBytes)
       case UDP => VerifiesOver6(r, h.offset, 17, g.offset, g.totalBytes)
       case _ => VerifiesOver6(r, h.offset, 58, g.offset, g.totalBytes))
    case _ => false
  }

  lemma {:induction false} PseudoOctets(r: seq<byte>, h: Header, g: Header)
    requires Checkable(h, g) && Fits(h, g, |r|)
    ensures var p, o, lo, hi := Pseudo(r, h, g), h.offset, g.totalBytes % 256, g.totalBytes / 256;
            var number := if g.kind == TCP then 6 else if g.kind == UDP then 17 else 58;
            if h.kind != IPV4 then p == r[o + 8..o + 40] + [0, 0, hi, lo, 0, 0, 0, number]
            else if g.kind == ICMPV4 then p == []
            else p == r[o + 12..o + 20] + [0, number, hi, lo]
  {
    var o := h.offset;
    if h.kind == IPV4 {
      assert r[o + 12..o + 16] + r[o + 16..o + 20] == r[o + 12..o + 20];
    } else {
      assert r[o + 8..o + 24] + r[o + 24..o + 40] == r[o + 8..o + 40];
    }
  }

  /** A checksum inside the segment verifies at a receiver. */
  lemma {:induction false} ChecksumVerifies(b: seq<byte>, h: Header, g: Header)
    requires Unchecked(b, h, g)
    ensures Verifies(Checksummed(b, h, g), h, g)
  {
    var r := Checksummed(b, h, g);
    ChecksummedVerifies(b, h, g);
    PseudoOctets(r, h, g);
    assert [] + r[g.offset..g.offset + g.totalBytes] == r[g.offset..g.offset + g.totalBytes];
  }

  // ----- What a receiver reads from a built segment

  /** The octets at i, in network order. */
  function Two(s: seq<byte>, i: nat): nat
    requires i + 2 <= |s|
  {
    s[i] as int * 256 + s[i + 1]
  }

  function Four(s: seq<byte>, i: nat): nat
    requires i + 4 <= |s|
  {
    s[i] as int * 16777216 + s[i + 1] as int * 65536 + s[i + 2] as int * 256 + s[i + 3]
  }

  predicate FlagsRead(flags: string, octet: byte) {
    && ('F' in flags <==> octet % 2 == 1) && ('S' in flags <==> octet / 2 % 2 == 1)
    && ('R' in flags <==> octet / 4 % 2 == 1) && ('P' in flags <==> octet / 8 % 2 == 1)
    && ('.' in flags <==> octet / 16 % 2 == 1) && ('U' in flags <==> octet / 32 % 2 == 1)
    && ('E' in flags <==> octet / 64 % 2 == 1) && ('W' in flags <==> octet / 128 == 1)
  }

  /** The segment s reads back as the script's choices f; its checksum may be anything. */
  predicate ReadsAs(s: seq<byte>, f: TcpFields) {
    var options := if f.options.Some? then f.options.value else [];
    && |s| == 20 + |options| + f.payloadBytes
    && Two(s, 0) == f.srcPort && Two(s, 2) == f.dstPort
    && Four(s, 4) == f.startSequence && Four(s, 8) == f.ackSequence
    && s[12] / 16 * 4 == 20 + |options| && s[12] % 16 == 0
    && FlagsRead(f.flags, s[13])
    && Two(s, 14) == (if f.window == -1 then 0 else f.window % 65536)
    && Two(s, 18) == f.urgPtr
    && s[20..20 + |options|] == options
    && forall k :: 20 + |options| <= k < |s| ==> s[k] == 0
  }

  lemma LowBit(x: nat, rest: nat)
    requires x <= 1
    ensures (x + 2 * rest) % 2 == x && (x + 2 * rest) / 2 == rest
  {
  }

  lemma FlagOctet(f: TcpFields)
    ensures FlagsRead(f.flags, f.FlagByte())
  {
    var s := f.flags;
    var v7: nat := Flag('W', s);
    var v6: nat := Flag('E', s) + 2 * v7;
    var v5: nat := Flag('U', s) + 2 * v6;
    var v4: nat := Flag('.', s) + 2 * v5;
    var v3: nat := Flag('P', s) + 2 * v4;
    var v2: nat := Flag('R', s) + 2 * v3;
    var v1: nat := Flag('S', s) + 2 * v2;
    LowBit(Flag('F', s), v1);
    LowBit(Flag('S', s), v2);
    LowBit(Flag('R', s), v3);
    LowBit(Flag('P', s), v4);
    LowBit(Flag('.', s), v5);
    LowBit(Flag('U', s), v6);
    LowBit(Flag('E', s), v7);
    Halved(s, f.FlagByte(), v1, v2, v3, v4, v5, v6, v7);
  }

  lemma Halved(s: string, v: byte, v1: nat, v2: nat, v3: nat, v4: nat, v5: nat, v6: nat, v7: nat)
    requires v / 2 == v1 && v1 / 2 == v2 && v2 / 2 == v3 && v3 / 2 == v4
    requires v4 / 2 == v5 && v5 / 2 == v6 && v6 / 2 == v7
    requires v % 2 == Flag('F', s) && v1 % 2 == Flag('S', s) && v2 % 2 == Flag('R', s) && v3 % 2 == Flag('P', s)
    requires v4 % 2 == Flag('.', s) && v5 % 2 == Flag('U', s) && v6 % 2 == Flag('E', s) && v7 == Flag('W', s)
    ensures FlagsRead(s, v)
  {
    assert v / 4 == v2 && v / 8 == v3 && v / 16 == v4 && v / 32 == v5 && v / 64 == v6 && v / 128 == v7;
  }

  lemma {:induction false} HalfReads(s: seq<byte>, i: nat, v: u16)
    requires i + 2 <= |s| && s[i..i + 2] == Octets16(v)
    ensures Two(s, i) == v
  {
    assert s[i] == s[i..i + 2][0] && s[i + 1] == s[i..i + 2][1];
  }

  lemma {:induction false} WordReads(s: seq<byte>, i: nat, v: u32)
    requires i + 4 <= |s| && s[i..i + 4] == Octets32(v)
    ensures Four(s, i) == v
  {
    var w := s[i..i + 4];
    assert s[i] == w[0] && s[i + 1] == w[1] && s[i + 2] == w[2] && s[i + 3] == w[3];
    assert v == v / 65536 * 65536 + v % 65536;
  }

  /** The pieces of the built segment, in their places. */
  lemma {:induction false} HeaderPieces(f: TcpFields, s: seq<byte>)
    requires f.HeaderBytes() <= MAX_TCP_HEADER_BYTES && s == f.Header() + Zeros(f.payloadBytes)
    ensures s[0..2] == Octets16(f.srcPort) && s[2..4] == Octets16(f.dstPort)
    ensures s[4..8] == Octets32(f.startSequence) && s[8..12] == Octets32(f.ackSequence)
    ensures s[12] == f.HeaderBytes() / 4 * 0x10 && s[13] == f.FlagByte()
    ensures s[14..16] == Octets16(f.Window()) && s[18..20] == Octets16(f.urgPtr)
    ensures s[20..f.HeaderBytes()] == f.OptionBytes()
    ensures forall k :: f.HeaderBytes() <= k < |s| ==> s[k] == 0
  {
    var front := Octets16(f.srcPort) + Octets16(f.dstPort) + Octets32(f.startSequence) + Octets32(f.ackSequence);
    var flags, o := [f.HeaderBytes() / 4 * 0x10, f.FlagByte()], f.OptionBytes();
    var w, u := Octets16(f.Window()), Octets16(f.urgPtr);
    FrontPieces(Octets16(f.srcPort), Octets16(f.dstPort), Octets32(f.startSequence), Octets32(f.ackSequence), front);
    BackPieces(front, flags, w, u, o, Zeros(f.payloadBytes), s);
    assert forall k :: 0 <= k < 12 ==> s[k] == front[k];
    assert s[0..2] == front[0..2] && s[2..4] == front[2..4] && s[4..8] == front[4..8] && s[8..12] == front[8..12];
  }

  lemma FrontPieces(a: seq<byte>, b: seq<byte>, c: seq<byte>, d: seq<byte>, x: seq<byte>)
    requires |a| == |b| == 2 && |c| == |d| == 4 && x == a + b + c + d
    ensures x[0..2] == a && x[2..4] == b && x[4..8] == c && x[8..12] == d
  {
  }

  lemma BackPieces(x: seq<byte>, flags: seq<byte>, w: seq<byte>, u: seq<byte>, o: seq<byte>, z: seq<byte>, s: seq<byte>)
    requires |x| == 12 && |flags| == |w| == |u| == 2 && s == x + flags + w + [0, 0] + u + o + z
    ensures s[..12] == x && s[12] == flags[0] && s[13] == flags[1] && s[14..16] == w && s[18..20] == u
    ensures s[20..20 + |o|] == o && s[20 + |o|..] == z
  {
    assert s == (x + flags + w + [0, 0] + u) + (o + z);
  }

  lemma {:induction false} BuiltReads(f: TcpFields, s: seq<byte>)
    requires f.HeaderBytes() <= MAX_TCP_HEADER_BYTES && |f.OptionBytes()| % 4 == 0
    requires s == f.Header() + Zeros(f.payloadBytes)
    ensures ReadsAs(s, f)
  {
    HeaderPieces(f, s);
    HalfReads(s, 0, f.srcPort);
    HalfReads(s, 2, f.dstPort);
    WordReads(s, 4, f.startSequence);
    WordReads(s, 8, f.ackSequence);
    FlagOctet(f);
    HalfReads(s, 14, f.Window());
    HalfReads(s, 18, f.urgPtr);
  }

  /** A checksum in its place does not disturb them. */
  lemma {:induction false} ReadsBehindChecksum(s: seq<byte>, r: seq<byte>, f: TcpFields)
    requires ReadsAs(s, f) && |r| == |s| && forall k :: 0 <= k < |s| && k != 16 && k != 17 ==> r[k] == s[k]
    ensures ReadsAs(r, f)
  {
  }

  /** And what is read from the IP header in front: traffic class, flow label, time to live, total length. */
  predicate IpReadsAs(family: AddressFamily, r: seq<byte>, info: IpInfo, ipBytes: nat) {
    if family.AF_INET? then
      && |r| >= 20 && r[0] == 0x45 && r[1] == info.tos && Two(r, 2) == ipBytes && r[9] == 6
      && r[8] == (if info.ttl == 0 then 255 else info.ttl)
    else
      && |r| >= 40 && r[0] / 16 == 6 && r[0] % 16 * 16 + r[1] / 16 == info.tos
      && r[1] % 16 * 65536 + Two(r, 2) == info.flowLabel % 0x10_0000
      && Two(r, 4) + 40 == ipBytes && r[6] == 6 && r[7] == (if info.ttl == 0 then 255 else info.ttl)
  }

  lemma {:induction false} Ipv4Reads(n: u16, info: IpInfo, rest: seq<byte>)
    ensures IpReadsAs(AF_INET, Ipv4HeaderBytes(n, info.tos, info.ttl, 6) + rest, info, n)
  {
  }

  lemma {:induction false} Ipv6Reads(n: u16, info: IpInfo, rest: seq<byte>)
    requires n >= 40
    ensures IpReadsAs(AF_INET6, Ipv6HeaderBytes(n, info.tos, info.flowLabel, info.ttl, 6) + rest, info, n)
  {
    var r := Ipv6HeaderBytes(n, info.tos, info.flowLabel, info.ttl, 6) + rest;
    FlowLabel(info.flowLabel);
    assert r[2] == info.flowLabel % 0x1_0000 / 0x100 && r[3] == info.flowLabel % 0x1_0000 % 0x100;
  }

  lemma {:induction false} FlowLabel(v: u32)
    ensures v / 0x1_0000 % 0x10 * 0x1_0000 + v % 0x1_0000 == v % 0x10_0000
  {
    var high, low := v / 0x1_0000, v % 0x1_0000;
    assert v == (high / 0x10) * 0x10_0000 + (high % 0x10) * 0x1_0000 + low;
  }

  /**
    The whole packet, built and checksummed: only its checksums differ from what was built, every field
    of the IP and TCP headers reads back as the script's, and a receiver's sums come out right.
   */
  lemma {:induction false} TcpReadsBack(family: AddressFamily, direction: Direction, info: IpInfo, f: TcpFields)
    requires f.Accepted(family, direction) && f.IpBytes(family) <= 0xFFFF
    ensures var b, hs := f.Bytes(family, info), f.Headers(family);
            && Summable(b, hs[0], hs[1])
            && var r := Checksummed(b, hs[0], hs[1]);
               && Reads(family, info, f, r)
               && Verifies(r, hs[0], hs[1])
               && (family.AF_INET? ==> OnesSum(r[0..20]) == 65535)
  {
    var b, hs := f.Bytes(family, info), f.Headers(family);
    TcpUnchecked(family, direction, info, f);
    BytesRead(family, info, f, b);
    ChecksummedReads(family, info, f, b, hs[0], hs[1], Checksummed(b, hs[0], hs[1]));
  }

  lemma ChecksummedReads(family: AddressFamily, info: IpInfo, f: TcpFields, b: seq<byte>,
                         h: WireFormat.Header, g: WireFormat.Header, r: seq<byte>)
    requires Unchecked(b, h, g) && r == Checksummed(b, h, g) && h.offset == 0 && Of(family, h, g)
    requires Reads(family, info, f, b)
    ensures Reads(family, info, f, r) && Verifies(r, h, g) && (family.AF_INET? ==> OnesSum(r[0..20]) == 65535)
  {
    forall k | 0 <= k < |b| && !MayChange(h, g, k) ensures r[k] == b[k] {
      OnlyChecksumsChange(b, h, g, k);
    }
    ChecksummedRead(family, info, f, b, h, g, r);
    ChecksumVerifies(b, h, g);
    if family.AF_INET? {
      Ipv4HeaderVerifies(b, h, g);
    }
  }

  /** h and g are headers of a TCP segment over the family. */
  predicate Of(family: AddressFamily, h: WireFormat.Header, g: WireFormat.Header) {
    && h.kind == IpKind(family) && g.kind == TCP && h.headerBytes == (if family.AF_INET? then 20 else 40)
    && g.offset == h.offset + h.headerBytes
  }

  /** The packet r reads back as the script's choices. */
  predicate Reads(family: AddressFamily, info: IpInfo, f: TcpFields, r: seq<byte>) {
    var t := if family.AF_INET? then 20 else 40;
    |r| >= t && ReadsAs(r[t..], f) && IpReadsAs(family, r, info, |r|)
  }

  lemma {:induction false} BytesRead(family: AddressFamily, info: IpInfo, f: TcpFields, b: seq<byte>)
    requires f.HeaderBytes() <= MAX_TCP_HEADER_BYTES && |f.OptionBytes()| % 4 == 0 && f.IpBytes(family) <= 0xFFFF
    requires b == f.Bytes(family, info)
    ensures Reads(family, info, f, b)
  {
    var rest := f.Header() + Zeros(f.payloadBytes);
    var ip := IpHeaderBytes(family, |b|, info, IpProto(TCP));
    BytesAre(family, info, f, b, ip, rest);
    BuiltReads(f, rest);
    IpReads(family, info, |b|, rest);
    ReadsTogether(family, info, f, ip, rest, b);
  }

  lemma BytesAre(family: AddressFamily, info: IpInfo, f: TcpFields, b: seq<byte>, ip: seq<byte>, s: seq<byte>)
    requires f.HeaderBytes() <= MAX_TCP_HEADER_BYTES && f.IpBytes(family) <= 0xFFFF && b == f.Bytes(family, info)
    requires ip == IpHeaderBytes(family, |b|, info, IpProto(TCP)) && s == f.Header() + Zeros(f.payloadBytes)
    ensures b == ip + s
  {
    Regroup(ip, f.Header(), Zeros(f.payloadBytes));
  }

  lemma ReadsTogether(family: AddressFamily, info: IpInfo, f: TcpFields, ip: seq<byte>, s: seq<byte>, b: seq<byte>)
    requires b == ip + s && |ip| == (if family.AF_INET? then 20 else 40)
    requires ReadsAs(s, f) && IpReadsAs(family, b, info, |b|)
    ensures Reads(family, info, f, b)
  {
    assert b[|ip|..] == s;
  }

  lemma IpReads(family: AddressFamily, info: IpInfo, n: u16, rest: seq<byte>)
    requires family.AF_INET6? ==> n >= 40
    ensures IpReadsAs(family, IpHeaderBytes(family, n, info, IpProto(TCP)) + rest, info, n)
  {
    if family.AF_INET? {
      Ipv4Reads(n, info, rest);
    } else {
      Ipv6Reads(n, info, rest);
    }
  }

  lemma {:induction false} ChecksummedRead(family: AddressFamily, info: IpInfo, f: TcpFields, b: seq<byte>,
                                           h: WireFormat.Header, g: WireFormat.Header, r: seq<byte>)
    requires Reads(family, info, f, b) && h.offset == 0 && Of(family, h, g)
    requires |r| == |b| && forall k :: 0 <= k < |b| && !MayChange(h, g, k) ==> r[k] == b[k]
    ensures Reads(family, info, f, r)
  {
    var t := g.offset;
    assert forall k :: t <= k < |b| ==> b[t..][k - t] == b[k] && r[t..][k - t] == r[k];
    ReadsBehindChecksum(b[t..], r[t..], f);
  }

  /** The arguments that the builder accepts. */
  lemma AcceptedIff(f: TcpFields, family: AddressFamily, direction: Direction)
    ensures var options := if f.options.Some? then |f.options.value| else 0;
            f.Accepted(family, direction) <==>
            && options % 4 == 0 && options <= 40
            && (if family.AF_INET? then 20 else 40) + 20 + options + f.payloadBytes <= 65536
            && (forall c :: c in f.flags ==> c in {'F', 'S', 'R', 'P', '.', 'E', 'W', 'C', 'U'})
            && (f.window == -1 ==> direction == DIRECTION_OUTBOUND)
  {
  }
}
