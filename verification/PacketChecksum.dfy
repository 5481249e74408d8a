/** Filling in the checksums of a complete packet (packet_checksum.c). */
module PacketChecksum {
  import opened Wrappers
  import opened Bytes
  import opened Checksum
  import opened WireFormat
  import opened PacketParser
  import opened Packets
  import opened Encapsulation
  import opened Encapsulate

  /** Where a layer 4 header keeps its checksum. */
  function CheckField(k: HeaderType): nat {
    match k
    case TCP => 16
    case UDP => 6
    case _ => 2
  }

  /** The pseudo-header that the datagram at ip puts in front of its layer 4 segment; ICMPv4 has none. */
  function Pseudo(b: seq<byte>, h: Header, g: Header): (r: seq<byte>)
    requires IsIp(h.kind) && h.offset + (if h.kind.IPV4? then 20 else 40) <= |b|
    requires h.kind.IPV4? ==> g.totalBytes < 0x1_0000
    requires g.totalBytes < TWO32
    ensures |r| % 2 == 0
  {
    var o := h.offset;
    if h.kind.IPV6? then PseudoHeader6(b[o + 8..o + 24], b[o + 24..o + 40], IpProto(g.kind), g.totalBytes)
    else if g.kind.ICMPV4? then []
    else PseudoHeader4(b[o + 12..o + 16], b[o + 16..o + 20], IpProto(g.kind), g.totalBytes)
  }

  /** The checksums that checksum_packet supports: the layer 4 protocols of each IP version. */
  predicate Checkable(h: Header, g: Header) {
    match h.kind
    case IPV4 => g.kind.TCP? || g.kind.UDP? || g.kind.ICMPV4?
    case IPV6 => g.kind.TCP? || g.kind.UDP? || g.kind.ICMPV6?
    case _ => false
  }

  /** The segment g fills the rest of the datagram h, in a buffer of n octets that holds its checksum field. */
  predicate Fits(h: Header, g: Header, n: nat) {
    && g.offset == h.offset + h.headerBytes && g.totalBytes == h.totalBytes - h.headerBytes
    && 0 < g.totalBytes < 0x1_0000 && g.offset + CheckField(g.kind) + 2 <= n
    && h.headerBytes >= (if h.kind.IPV4? then 20 else 40)
    && h.offset + h.totalBytes <= n
  }

  /** The lengths of h that its own fields give. */
  predicate LengthsRead(b: seq<byte>, h: Header) {
    if h.kind.IPV4? then h.headerBytes == Ipv4HeaderLen(b, h.offset) && h.totalBytes == Be16(b, h.offset + 2)
    else h.headerBytes == 40 && h.totalBytes == 40 + Be16(b, h.offset + 4)
  }

  /** All that checksum_packet relies on: an IP header and the segment behind it, inside the buffer. */
  predicate Summable(b: seq<byte>, h: Header, g: Header) {
    Checkable(h, g) && Fits(h, g, |b|) && LengthsRead(b, h)
  }

  /** An IP datagram h with its layer 4 segment g, complete but for the checksums. */
  predicate Unchecked(b: seq<byte>, h: Header, g: Header) {
    && Summable(b, h, g)
    && (h.kind.IPV4? ==> !IsFragment(b, h.offset))
    && Link(b, h, g)
    && HeaderOk(b, g)
  }

  /** The octets of the packet once its checksums are in place: the IPv4 header's first, then layer 4's. */
  function Checksummed(b: seq<byte>, h: Header, g: Header): (r: seq<byte>)
    requires Summable(b, h, g)
    ensures |r| == |b|
  {
    var b1 := if h.kind.IPV4? then FillChecksum(b, h.offset, h.headerBytes, 10, []) else b;
    FillChecksum(b1, g.offset, g.totalBytes, CheckField(g.kind), Pseudo(b1, h, g))
  }

  /** The last step of every fill: the computed value goes from a host variable into the zeroed field. */
  method StoreCheck(buffer: array<byte>, at: nat, len: nat, field: nat, check: u16, ghost b: seq<byte>,
                    ghost pseudo: seq<byte>)
    requires at + field + 2 <= buffer.Length && at + len <= buffer.Length == |b|
    requires buffer[..] == Splice(b, at + field, Octets16(0))
    requires Swap16(check) == WireChecksum(pseudo + buffer[at..at + len])
    modifies buffer
    ensures buffer[..] == FillChecksum(b, at, len, field, pseudo)
  {
    assert buffer[..][at..at + len] == buffer[at..at + len];
    StoreNative16(buffer, at + field, check);
  }

  method FillPlain(buffer: array<byte>, at: nat, len: nat, field: nat)
    requires len <= 0x1_0000 && at + field + 2 <= buffer.Length && at + len <= buffer.Length
    modifies buffer
    ensures buffer[..] == FillChecksum(old(buffer[..]), at, len, field, [])
  {
    ghost var b := buffer[..];
    StoreBe16(buffer, at + field, 0);
    var check := Ipv4Checksum(buffer[at..at + len]);
    assert [] + buffer[at..at + len] == buffer[at..at + len];
    StoreCheck(buffer, at, len, field, check, b, []);
  }

  method FillTcpUdpV4(buffer: array<byte>, at: nat, len: u16, field: nat, src: seq<byte>, dst: seq<byte>,
                      protocol: byte)
    requires at + field + 2 <= buffer.Length && at + len <= buffer.Length && |src| == |dst| == 4
    modifies buffer
    ensures buffer[..] == FillChecksum(old(buffer[..]), at, len, field, PseudoHeader4(src, dst, protocol, len))
  {
    ghost var b := buffer[..];
    StoreBe16(buffer, at + field, 0);
    var check := TcpUdpV4Checksum(src, dst, protocol, buffer[at..at + len], len);
    StoreCheck(buffer, at, len, field, check, b, PseudoHeader4(src, dst, protocol, len));
  }

  method FillTcpUdpV6(buffer: array<byte>, at: nat, len: u32, field: nat, src: seq<byte>, dst: seq<byte>,
                      protocol: byte)
    requires at + field + 2 <= buffer.Length && at + len <= buffer.Length && |src| == |dst| == 16
    modifies buffer
    ensures buffer[..] == FillChecksum(old(buffer[..]), at, len, field, PseudoHeader6(src, dst, protocol, len))
  {
    ghost var b := buffer[..];
    StoreBe16(buffer, at + field, 0);
    var check := TcpUdpV6Checksum(src, dst, protocol, buffer[at..at + len], len);
    StoreCheck(buffer, at, len, field, check, b, PseudoHeader6(src, dst, protocol, len));
  }

  /** The packet's pointers designate the IP header h and the layer 4 header g. */
  predicate Designates(m: Metadata, h: Header, g: Header) {
    && m.ipv4 == (if h.kind.IPV4? then Some(h.offset) else None)
    && m.ipv6 == (if h.kind.IPV6? then Some(h.offset) else None)
    && m.tcp == (if g.kind.TCP? then Some(g.offset) else None)
    && m.udp == (if g.kind.UDP? then Some(g.offset) else None)
    && m.icmpv4 == (if g.kind.ICMPV4? then Some(g.offset) else None)
    && m.icmpv6 == (if g.kind.ICMPV6? then Some(g.offset) else None)
  }

  /** The layer 4 part of checksum_ipv4_packet. */
  method ChecksumIpv4Layer4(packet: Packet, src: seq<byte>, dst: seq<byte>, l4Bytes: u16,
                            ghost h: Header, ghost g: Header, ghost pseudo: seq<byte>)
    requires h.kind.IPV4? && Checkable(h, g) && Designates(packet.Meta(), h, g)
    requires |src| == |dst| == 4 && g.offset + l4Bytes <= packet.buffer.Length
    requires g.offset + CheckField(g.kind) + 2 <= packet.buffer.Length
    requires pseudo == if g.kind.ICMPV4? then [] else PseudoHeader4(src, dst, IpProto(g.kind), l4Bytes)
    modifies packet.buffer
    ensures packet.buffer[..] == FillChecksum(old(packet.buffer[..]), g.offset, l4Bytes, CheckField(g.kind), pseudo)
  {
    if packet.tcp.Some? {
      FillTcpUdpV4(packet.buffer, packet.tcp.value, l4Bytes, 16, src, dst, IpProto(TCP));
    } else if packet.udp.Some? {
      FillTcpUdpV4(packet.buffer, packet.udp.value, l4Bytes, 6, src, dst, IpProto(UDP));
    } else {
      FillPlain(packet.buffer, packet.icmpv4.value, l4Bytes, 2);
    }
  }

  lemma LengthKept(b: seq<byte>, b1: seq<byte>, h: Header)
    requires h.headerBytes >= 20 && h.offset + h.headerBytes <= |b|
    requires b1 == FillChecksum(b, h.offset, h.headerBytes, 10, [])
    ensures Be16(b1, h.offset + 2) == Be16(b, h.offset + 2)
  {
  }

  method ChecksumIpv4Packet(packet: Packet, ghost h: Header, ghost g: Header)
    requires h.kind.IPV4? && Summable(packet.buffer[..], h, g) && Designates(packet.Meta(), h, g)
    modifies packet.buffer
    ensures packet.buffer[..] == Checksummed(old(packet.buffer[..]), h, g)
  {
    var buffer, o := packet.buffer, packet.ipv4.value;
    ghost var b := buffer[..];
    var headerBytes := buffer[o] % 0x10 * 4;
    assert headerBytes == h.headerBytes;
    FillPlain(buffer, o, headerBytes, 10);
    LengthKept(b, buffer[..], h);
    FillIpv4Layer4(packet, headerBytes, h, g);
  }

  /** The second half of checksum_ipv4_packet, once the IPv4 header has its checksum. */
  method FillIpv4Layer4(packet: Packet, headerBytes: nat, ghost h: Header, ghost g: Header)
    requires h.kind.IPV4? && Checkable(h, g) && Designates(packet.Meta(), h, g) && Fits(h, g, packet.buffer.Length)
    requires headerBytes == h.headerBytes && Be16(packet.buffer[..], h.offset + 2) == h.totalBytes
    modifies packet.buffer
    ensures var b1 := old(packet.buffer[..]);
            packet.buffer[..] == FillChecksum(b1, g.offset, g.totalBytes, CheckField(g.kind), Pseudo(b1, h, g))
  {
    var buffer, o := packet.buffer, packet.ipv4.value;
    ghost var b1 := buffer[..];
    var totalBytes := LoadBe16(buffer, o + 2);
    var l4Bytes: u16 := totalBytes - headerBytes;
    var src, dst := LoadOctets(buffer, o + 12, 4), LoadOctets(buffer, o + 16, 4);
    Pseudo4Is(b1, h, g, src, dst);
    ChecksumIpv4Layer4(packet, src, dst, l4Bytes, h, g, Pseudo(b1, h, g));
  }

  function LoadOctets(buffer: array<byte>, o: nat, n: nat): (r: seq<byte>)
    requires o + n <= buffer.Length
    reads buffer
    ensures |r| == n && r == buffer[..][o..o + n]
  {
    buffer[o..o + n]
  }

  lemma Pseudo4Is(b: seq<byte>, h: Header, g: Header, src: seq<byte>, dst: seq<byte>)
    requires h.kind.IPV4? && Fits(h, g, |b|)
    requires src == b[h.offset + 12..h.offset + 16] && dst == b[h.offset + 16..h.offset + 20]
    ensures Pseudo(b, h, g) == if g.kind.ICMPV4? then [] else PseudoHeader4(src, dst, IpProto(g.kind), g.totalBytes)
  {
  }

  method LoadBe16(buffer: array<byte>, o: nat) returns (v: u16)
    requires o + 2 <= buffer.Length
    ensures v == Be16(buffer[..], o)
  {
    v := buffer[o] as int * 0x100 + buffer[o + 1];
  }

  /** The layer 4 part of checksum_ipv6_packet. */
  method ChecksumIpv6Layer4(packet: Packet, src: seq<byte>, dst: seq<byte>, l4Bytes: u16, ghost h: Header,
                            ghost g: Header)
    requires h.kind.IPV6? && Checkable(h, g) && Designates(packet.Meta(), h, g)
    requires |src| == |dst| == 16 && g.offset + l4Bytes <= packet.buffer.Length
    requires g.offset + CheckField(g.kind) + 2 <= packet.buffer.Length
    modifies packet.buffer
    ensures packet.buffer[..] == FillChecksum(old(packet.buffer[..]), g.offset, l4Bytes, CheckField(g.kind),
                                              PseudoHeader6(src, dst, IpProto(g.kind), l4Bytes))
  {
    if packet.tcp.Some? {
      FillTcpUdpV6(packet.buffer, packet.tcp.value, l4Bytes, 16, src, dst, IpProto(TCP));
    } else if packet.udp.Some? {
      FillTcpUdpV6(packet.buffer, packet.udp.value, l4Bytes, 6, src, dst, IpProto(UDP));
    } else {
      FillTcpUdpV6(packet.buffer, packet.icmpv6.value, l4Bytes, 2, src, dst, IpProto(ICMPV6));
    }
  }

  method ChecksumIpv6Packet(packet: Packet, ghost h: Header, ghost g: Header)
    requires h.kind.IPV6? && Summable(packet.buffer[..], h, g) && Designates(packet.Meta(), h, g)
    modifies packet.buffer
    ensures packet.buffer[..] == Checksummed(old(packet.buffer[..]), h, g)
  {
    FillIpv6Layer4(packet, h, g);
  }

  /** checksum_ipv6_packet, stated without the header checks that the packet has passed. */
  method FillIpv6Layer4(packet: Packet, ghost h: Header, ghost g: Header)
    requires h.kind.IPV6? && Checkable(h, g) && Designates(packet.Meta(), h, g) && Fits(h, g, packet.buffer.Length)
    requires Be16(packet.buffer[..], h.offset + 4) == g.totalBytes
    modifies packet.buffer
    ensures var b := old(packet.buffer[..]);
            packet.buffer[..] == FillChecksum(b, g.offset, g.totalBytes, CheckField(g.kind), Pseudo(b, h, g))
  {
    var buffer, o := packet.buffer, packet.ipv6.value;
    var l4Bytes := LoadBe16(buffer, o + 4);
    var src, dst := LoadOctets(buffer, o + 8, 16), LoadOctets(buffer, o + 24, 16);
    ChecksumIpv6Layer4(packet, src, dst, l4Bytes, h, g);
  }

  /** checksum_packet: dispatch on the address family. */
  method ChecksumPacket(packet: Packet, ghost h: Header, ghost g: Header)
    requires Summable(packet.buffer[..], h, g) && Designates(packet.Meta(), h, g)
    modifies packet.buffer
    ensures packet.buffer[..] == Checksummed(old(packet.buffer[..]), h, g)
  {
    if packet.ipv4.Some? {
      ChecksumIpv4Packet(packet, h, g);
    } else {
      ChecksumIpv6Packet(packet, h, g);
    }
  }

  /** r is b but for the checksum fields of h and g. */
  predicate SameButChecks(b: seq<byte>, r: seq<byte>, h: Header, g: Header) {
    && |r| == |b|
    && forall k :: 0 <= k < |b| ==>
         || r[k] == b[k]
         || (h.kind.IPV4? && h.offset + 10 <= k < h.offset + 12)
         || g.offset + CheckField(g.kind) <= k < g.offset + CheckField(g.kind) + 2
  }

  lemma ChecksummedSame(b: seq<byte>, h: Header, g: Header)
    requires Summable(b, h, g)
    ensures SameButChecks(b, Checksummed(b, h, g), h, g)
  {
  }

  lemma SameStillOk(b: seq<byte>, r: seq<byte>, h: Header, g: Header)
    requires Unchecked(b, h, g) && SameButChecks(b, r, h, g)
    requires h.kind.IPV4? ==> WireChecksum(r[h.offset..h.offset + h.headerBytes]) == 0
    ensures HeaderOk(r, h) && HeaderOk(r, g) && Link(r, h, g)
    ensures VersionLink(b, h) ==> VersionLink(r, h)
  {
  }

  /** A stack that b would encode if the checksums of its innermost two headers were in place. */
  predicate UncheckedStack(b: seq<byte>, hs: seq<Header>) {
    && |hs| >= 2
    && if |hs| == 2 then Unchecked(b, hs[0], hs[1])
       else HeaderOk(b, hs[0]) && Link(b, hs[0], hs[1]) && UncheckedStack(b, hs[1..])
  }

  /** h and g are the innermost two headers of hs. */
  predicate Innermost(hs: seq<Header>, h: Header, g: Header) {
    |hs| >= 2 && h == hs[|hs| - 2] && g == hs[|hs| - 1]
  }

  lemma {:induction false} UncheckedInnermost(b: seq<byte>, hs: seq<Header>, h: Header, g: Header)
    requires UncheckedStack(b, hs) && Innermost(hs, h, g)
    ensures Unchecked(b, h, g) && hs[0].offset <= h.offset
    decreases |hs|
  {
    if |hs| > 2 {
      UncheckedInnermost(b, hs[1..], h, g);
    }
  }

  lemma HeaderOkPrefix(b: seq<byte>, r: seq<byte>, h: Header, mid: nat)
    requires HeaderOk(b, h) && !IsLayer4(h.kind) && h.offset + h.headerBytes <= mid <= |b| == |r|
    requires forall k :: 0 <= k < mid ==> r[k] == b[k]
    ensures HeaderOk(r, h)
  {
    if h.kind.IPV4? {
      assert b[h.offset..h.offset + h.headerBytes] == r[h.offset..h.offset + h.headerBytes];
    } else if h.kind.MPLS? {
      LabelStackLocal(b, r, h.offset, h.headerBytes / 4);
    }
  }

  lemma LinkPrefix(b: seq<byte>, r: seq<byte>, h: Header, g: Header, mid: nat)
    requires HeaderOk(b, h) && Link(b, h, g) && h.offset + h.headerBytes <= mid <= |b| == |r|
    requires forall k :: 0 <= k < mid ==> r[k] == b[k]
    requires VersionLink(b, g) ==> VersionLink(r, g)
    ensures Link(r, h, g)
  {
  }

  lemma VersionPrefix(b: seq<byte>, r: seq<byte>, h: Header, mid: nat)
    requires h.offset < mid <= |b| == |r| && forall k :: 0 <= k < mid ==> r[k] == b[k]
    ensures VersionLink(b, h) ==> VersionLink(r, h)
  {
  }

  /** Once the innermost headers are complete, the whole stack is: nothing outside them has changed. */
  lemma {:induction false} StackCompleted(b: seq<byte>, r: seq<byte>, hs: seq<Header>, h: Header, g: Header)
    requires UncheckedStack(b, hs) && Innermost(hs, h, g) && Unchecked(b, h, g) && SameButChecks(b, r, h, g)
    requires h.kind.IPV4? ==> WireChecksum(r[h.offset..h.offset + h.headerBytes]) == 0
    ensures Encodes(r, hs) && (VersionLink(b, hs[0]) ==> VersionLink(r, hs[0]))
    decreases |hs|
  {
    if |hs| == 2 {
      SameStillOk(b, r, h, g);
      TwoEncode(r, h, g);
      assert hs == [h, g];
    } else {
      UncheckedInnermost(b, hs[1..], h, g);
      StackCompleted(b, r, hs[1..], h, g);
      OuterKept(b, r, hs[0], hs[1], h.offset);
    }
  }

  lemma OuterKept(b: seq<byte>, r: seq<byte>, o: Header, p: Header, mid: nat)
    requires HeaderOk(b, o) && Link(b, o, p) && p.offset <= mid <= |b| == |r|
    requires forall k :: 0 <= k < mid ==> r[k] == b[k]
    requires VersionLink(b, p) ==> VersionLink(r, p)
    ensures HeaderOk(r, o) && Link(r, o, p) && (VersionLink(b, o) ==> VersionLink(r, o))
  {
    HeaderOkPrefix(b, r, o, mid);
    LinkPrefix(b, r, o, p, mid);
    if IsIp(o.kind) {
      VersionPrefix(b, r, o, mid);
    }
  }

  /**
    Filling in the checksums makes the packet one that the parser accepts with exactly its headers,
    through every nesting of outer headers around the innermost IP header.
   */
  lemma {:induction false} ChecksummedParses(b: seq<byte>, hs: seq<Header>, h: Header, g: Header, layer: Layer)
    requires UncheckedStack(b, hs) && Innermost(hs, h, g)
    requires Entry(b, layer, hs[0]) && |hs| <= PACKET_MAX_HEADERS
    ensures Summable(b, h, g) && Parse(Checksummed(b, h, g), layer) == Ok(hs)
  {
    UncheckedInnermost(b, hs, h, g);
    var r := Checksummed(b, h, g);
    ChecksummedSame(b, h, g);
    if h.kind.IPV4? {
      Ipv4HeaderVerifies(b, h, g);
    }
    StackCompleted(b, r, hs, h, g);
    EntryKept(b, r, hs[0], hs[0], layer);
    ParseIff(r, layer, hs);
  }

  lemma {:induction false} EncodesUnchecked(b: seq<byte>, hs: seq<Header>, h: Header, g: Header)
    requires Encodes(b, hs) && Innermost(hs, h, g) && Checkable(h, g)
    ensures UncheckedStack(b, hs)
    decreases |hs|
  {
    if |hs| > 2 {
      EncodesUnchecked(b, hs[1..], h, g);
    } else {
      EncodesEach(b, hs, 1);
    }
  }

  /**
    Checksumming a packet that the parser accepts, as every tunnelled packet is once its headers have
    been finished, leaves it accepted with the same headers, and its segment verifies.
   */
  lemma AcceptedChecksummed(b: seq<byte>, hs: seq<Header>, h: Header, g: Header, layer: Layer)
    requires Parse(b, layer) == Ok(hs) && Innermost(hs, h, g) && Checkable(h, g)
    ensures Summable(b, h, g)
    ensures var r := Checksummed(b, h, g);
            && Parse(r, layer) == Ok(hs) && SameButChecks(b, r, h, g)
            && WireChecksum(Pseudo(r, h, g) + r[g.offset..g.offset + g.totalBytes]) == 0
  {
    ParseIff(b, layer, hs);
    EncodesUnchecked(b, hs, h, g);
    ChecksummedParses(b, hs, h, g, layer);
    UncheckedInnermost(b, hs, h, g);
    ChecksummedSame(b, h, g);
    ChecksummedVerifies(b, h, g);
  }

  lemma {:induction false} TwoEncode(r: seq<byte>, h: Header, g: Header)
    requires HeaderOk(r, h) && HeaderOk(r, g) && Link(r, h, g) && IsLayer4(g.kind)
    ensures Encodes(r, [h, g])
  {
    assert [h, g][1..] == [g];
  }

  /** Filling a second field behind the first leaves the first one verifying. */
  lemma FillBehind(b1: seq<byte>, lo: nat, end: nat, at: nat, len: nat, field: nat, pseudo: seq<byte>)
    requires lo <= end <= at && at + field + 2 <= |b1| && at + len <= |b1| && WireChecksum(b1[lo..end]) == 0
    ensures WireChecksum(FillChecksum(b1, at, len, field, pseudo)[lo..end]) == 0
  {
    PrefixSlice(FillChecksum(b1, at, len, field, pseudo), b1, at, lo, end);
  }

  lemma Ipv4HeaderVerifies(b: seq<byte>, h: Header, g: Header)
    requires h.kind.IPV4? && Summable(b, h, g)
    ensures WireChecksum(Checksummed(b, h, g)[h.offset..h.offset + h.headerBytes]) == 0
  {
    var b1, pseudo := FilledTwice(b, h, g);
    Ipv4HeaderStillVerifies(b1, h, g, pseudo);
  }

  lemma FilledTwice(b: seq<byte>, h: Header, g: Header) returns (b1: seq<byte>, pseudo: seq<byte>)
    requires h.kind.IPV4? && Summable(b, h, g)
    ensures |b1| == |b| && Checksummed(b, h, g) == FillChecksum(b1, g.offset, g.totalBytes, CheckField(g.kind), pseudo)
    ensures WireChecksum(b1[h.offset..h.offset + h.headerBytes]) == 0
  {
    b1 := HeaderFilled(b, h);
    pseudo := Pseudo(b1, h, g);
  }

  lemma HeaderFilled(b: seq<byte>, h: Header) returns (b1: seq<byte>)
    requires h.headerBytes >= 20 && h.offset + h.headerBytes <= |b|
    ensures |b1| == |b| && b1 == FillChecksum(b, h.offset, h.headerBytes, 10, [])
    ensures WireChecksum(b1[h.offset..h.offset + h.headerBytes]) == 0
  {
    b1 := FillChecksum(b, h.offset, h.headerBytes, 10, []);
    FillPlainVerifies(b, h.offset, h.headerBytes, 10);
  }

  lemma Ipv4HeaderStillVerifies(b1: seq<byte>, h: Header, g: Header, pseudo: seq<byte>)
    requires Fits(h, g, |b1|) && WireChecksum(b1[h.offset..h.offset + h.headerBytes]) == 0
    ensures WireChecksum(FillChecksum(b1, g.offset, g.totalBytes, CheckField(g.kind), pseudo)
                           [h.offset..h.offset + h.headerBytes]) == 0
  {
    FillBehind(b1, h.offset, g.offset, g.offset, g.totalBytes, CheckField(g.kind), pseudo);
  }

  /** A layer 4 checksum inside the segment verifies at the receiver: over the pseudo-header it sees and the segment. */
  lemma ChecksummedVerifies(b: seq<byte>, h: Header, g: Header)
    requires Summable(b, h, g) && CheckField(g.kind) + 2 <= g.totalBytes
    ensures var r := Checksummed(b, h, g);
            WireChecksum(Pseudo(r, h, g) + r[g.offset..g.offset + g.totalBytes]) == 0
  {
    var b1 := if h.kind.IPV4? then FillChecksum(b, h.offset, h.headerBytes, 10, []) else b;
    SegmentVerifies(b1, h, g, Checksummed(b, h, g));
  }

  lemma SegmentVerifies(b1: seq<byte>, h: Header, g: Header, r: seq<byte>)
    requires IsIp(h.kind) && Fits(h, g, |b1|) && CheckField(g.kind) + 2 <= g.totalBytes
    requires r == FillChecksum(b1, g.offset, g.totalBytes, CheckField(g.kind), Pseudo(b1, h, g))
    ensures WireChecksum(Pseudo(r, h, g) + r[g.offset..g.offset + g.totalBytes]) == 0
  {
    FillVerifies(b1, g.offset, g.totalBytes, CheckField(g.kind), Pseudo(b1, h, g));
    PseudoLocal(b1, r, h, g);
  }

  lemma PseudoLocal(b: seq<byte>, r: seq<byte>, h: Header, g: Header)
    requires IsIp(h.kind) && h.offset + (if h.kind.IPV4? then 20 else 40) <= g.offset <= |b| && |r| == |b|
    requires g.totalBytes < 0x1_0000 && r[..g.offset] == b[..g.offset]
    ensures Pseudo(r, h, g) == Pseudo(b, h, g)
  {
    forall lo, hi | 0 <= lo <= hi <= g.offset ensures r[lo..hi] == b[lo..hi] {
      PrefixSlice(r, b, g.offset, lo, hi);
    }
  }
}
