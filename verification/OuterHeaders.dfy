/** Building the outer headers of a tunnelled packet one by one (the *_header_append functions). */
module OuterHeaders {
  import opened Bytes
  import opened Checksum
  import opened WireFormat
  import opened PacketParser
  import opened Packets
  import opened Encapsulation
  import opened Encapsulate
  import opened PacketChecksum
  import opened TcpPacket

  /** The octets alone form one shell of the given type. */
  predicate ShellBytes(kind: HeaderType, bytes: seq<byte>) {
    var h := Header(kind, 0, |bytes|, 0);
    Shell(bytes, h) && Versioned(bytes, h)
  }

  /** A packet under construction, behind whatever headers. */
  predicate CanAppend(packet: Packet)
    reads packet
  {
    packet.l2HeaderBytes == 0 && packet.ipBytes <= packet.buffer.Length && |packet.headers| <= PACKET_MAX_HEADERS
  }

  /** The packet holds outer headers only, the last of which can carry a header of type inside. */
  predicate OuterStack(packet: Packet, inside: HeaderType)
    reads packet, packet.buffer
  {
    && CanAppend(packet)
    && Shells(packet.buffer[..packet.ipBytes], packet.headers, 0, inside)
  }

  lemma {:induction false} ShellsGrow(b: seq<byte>, hs: seq<Header>, start: nat, kind: HeaderType,
                                      bytes: seq<byte>, inside: HeaderType)
    requires start <= |b| && Shells(b, hs, start, kind) && ShellBytes(kind, bytes) && CanCarry(kind, inside)
    ensures Shells(b + bytes, hs + [Header(kind, |b|, |bytes|, 0)], start, inside)
    decreases |hs|
  {
    var h := Header(kind, |b|, |bytes|, 0);
    if hs == [] {
      ShellShifts(b, bytes, Header(kind, 0, |bytes|, 0));
      assert ([] + [h])[1..] == [];
    } else {
      ShellExtends(b, bytes, hs[0]);
      ShellsGrow(b, hs[1..], start + hs[0].headerBytes, kind, bytes, inside);
      assert (hs + [h])[1..] == hs[1..] + [h];
    }
  }

  /** Appending a header and storing its octets, common to the four append functions. */
  method AppendShell(packet: Packet, kind: HeaderType, bytes: seq<byte>) returns (ok: bool)
    requires CanAppend(packet)
    modifies packet`headers, packet`ipBytes, packet.buffer
    ensures Appended(packet, kind, bytes, ok)
  {
    ghost var b, hs := packet.buffer[..packet.ipBytes], packet.headers;
    ghost var outer := OuterStack(packet, kind) && ShellBytes(kind, bytes);
    var o := packet.ipBytes;
    ok := packet.AppendHeader(kind, |bytes|, 0);
    if ok {
      StoreSeq(packet.buffer, o, bytes);
      assert packet.buffer[..packet.ipBytes] == b + bytes;
      forall inside | outer && CanCarry(kind, inside) ensures OuterStack(packet, inside) {
        ShellsGrow(b, hs, 0, kind, bytes, inside);
      }
    }
  }

  /**
    The octets of an IPv4 header that set_ip_header and the two addresses leave; length and protocol
    wait for the finish.
   */
  function Ipv4Shell(src: seq<byte>, dst: seq<byte>, tos: byte, ttl: byte): (r: seq<byte>)
    requires |src| == |dst| == 4
    ensures |r| == 20
  {
    Ipv4HeaderBytes(0, tos, ttl, 0)[..12] + src + dst
  }

  function Ipv6Shell(src: seq<byte>, dst: seq<byte>, tos: byte, hopLimit: byte): (r: seq<byte>)
    requires |src| == |dst| == 16
    ensures |r| == 40
  {
    Ipv6HeaderBytes(40, tos, 0, hopLimit, 0)[..8] + src + dst
  }

  /**
    The fields of a stored header: version and length, traffic class, time to live or hop limit (255 when
    left out), no fragmentation, and both addresses at the positions of RFC 791 and RFC 8200.
   */
  lemma ShellsRead(src: seq<byte>, dst: seq<byte>, src6: seq<byte>, dst6: seq<byte>, tos: byte, ttl: byte)
    requires |src| == |dst| == 4 && |src6| == |dst6| == 16
    ensures var r, s := Ipv4Shell(src, dst, tos, ttl), Ipv6Shell(src6, dst6, tos, ttl);
            && r[0] == 0x45 && r[1] == tos && r[4..8] == [0, 0, 0, 0] && r[8] == (if ttl == 0 then 255 else ttl)
            && r[12..16] == src && r[16..20] == dst
            && s[0] / 16 == 6 && s[0] % 16 * 16 + s[1] / 16 == tos && s[1] % 16 == 0 && s[2..4] == [0, 0]
            && s[7] == (if ttl == 0 then 255 else ttl) && s[8..24] == src6 && s[24..40] == dst6
  {
  }

  /** What the append functions store for a tunnel are shells; a label stack is one if only its last entry is marked. */
  lemma ShellsStored(src: seq<byte>, dst: seq<byte>, src6: seq<byte>, dst6: seq<byte>, tos: byte, ttl: byte,
                     gre: seq<byte>, entries: seq<byte>)
    requires |src| == |dst| == 4 && |src6| == |dst6| == 16 && |gre| == 16
    ensures ShellBytes(IPV4, Ipv4Shell(src, dst, tos, ttl)) && ShellBytes(IPV6, Ipv6Shell(src6, dst6, tos, ttl))
    ensures GreSupported(gre, 0) ==> ShellBytes(GRE, gre[..GreLen(gre, 0)])
    ensures |entries| >= 4 && |entries| % 4 == 0 && LabelStack(entries, 0, |entries| / 4) ==> ShellBytes(MPLS, entries)
  {
    Ipv4ShellStored(src, dst, tos, ttl);
    Ipv6ShellStored(src6, dst6, tos, ttl);
  }

  lemma Ipv4ShellStored(src: seq<byte>, dst: seq<byte>, tos: byte, ttl: byte)
    requires |src| == |dst| == 4
    ensures ShellBytes(IPV4, Ipv4Shell(src, dst, tos, ttl))
  {
  }

  lemma Ipv6ShellStored(src: seq<byte>, dst: seq<byte>, tos: byte, hopLimit: byte)
    requires |src| == |dst| == 16
    ensures ShellBytes(IPV6, Ipv6Shell(src, dst, tos, hopLimit))
  {
  }

  /**
    The result of appending a header of some kind and its octets, behind whatever headers: what is
    recorded and stored, and what may come next if the header so far could carry this one.
   */
  twostate predicate Appended(packet: Packet, kind: HeaderType, bytes: seq<byte>, ok: bool)
    reads packet, packet.buffer
  {
    && packet.buffer == old(packet.buffer)
    && ok == (|old(packet.headers)| < PACKET_MAX_HEADERS && old(packet.ipBytes) + |bytes| <= packet.buffer.Length)
    && (!ok ==>
          packet.headers == old(packet.headers) && packet.ipBytes == old(packet.ipBytes)
          && packet.buffer[..] == old(packet.buffer[..]))
    && (ok ==>
          && packet.headers == old(packet.headers) + [Header(kind, old(packet.ipBytes), |bytes|, 0)]
          && packet.ipBytes == old(packet.ipBytes) + |bytes| <= packet.buffer.Length
          && packet.buffer[..] == Splice(old(packet.buffer[..]), old(packet.ipBytes), bytes)
          && CanAppend(packet)
          && (old(OuterStack(packet, kind)) && ShellBytes(kind, bytes) ==>
                forall inside :: CanCarry(kind, inside) ==> OuterStack(packet, inside)))
  }

  /** ipv4_header_append, once the textual addresses have been converted. */
  method Ipv4HeaderAppend(packet: Packet, src: seq<byte>, dst: seq<byte>, tos: byte, ttl: byte) returns (ok: bool)
    requires |src| == |dst| == 4 && CanAppend(packet)
    modifies packet`headers, packet`ipBytes, packet.buffer
    ensures Appended(packet, IPV4, Ipv4Shell(src, dst, tos, ttl), ok)
  {
    ok := AppendShell(packet, IPV4, Ipv4Shell(src, dst, tos, ttl));
  }

  /** ipv6_header_append. */
  method Ipv6HeaderAppend(packet: Packet, src: seq<byte>, dst: seq<byte>, tos: byte, hopLimit: byte) returns (ok: bool)
    requires |src| == |dst| == 16 && CanAppend(packet)
    modifies packet`headers, packet`ipBytes, packet.buffer
    ensures Appended(packet, IPV6, Ipv6Shell(src, dst, tos, hopLimit), ok)
  {
    ok := AppendShell(packet, IPV6, Ipv6Shell(src, dst, tos, hopLimit));
  }

  /** gre_header_append: gre_len asserts version 0 and no routing. */
  method GreHeaderAppend(packet: Packet, gre: seq<byte>) returns (ok: bool)
    requires |gre| == 16 && GreSupported(gre, 0) && CanAppend(packet)
    modifies packet`headers, packet`ipBytes, packet.buffer
    ensures Appended(packet, GRE, gre[..GreLen(gre, 0)], ok)
  {
    ok := AppendShell(packet, GRE, gre[..GreLen(gre, 0)]);
  }

  /** mpls_header_append. */
  method MplsHeaderAppend(packet: Packet, entries: seq<byte>) returns (ok: bool)
    requires |entries| <= 24 && |entries| % 4 == 0 && CanAppend(packet)
    modifies packet`headers, packet`ipBytes, packet.buffer
    ensures Appended(packet, MPLS, entries, ok)
  {
    ok := AppendShell(packet, MPLS, entries);
  }

  /** A built TCP segment put inside built outer headers parses as the nested stack that was built. */
  lemma {:induction false} EncapsulatedTcpRoundTrip(outer: seq<byte>, outerHeaders: seq<Header>, family: AddressFamily,
                                                    direction: Direction, info: IpInfo, f: TcpFields)
    requires Shells(outer, outerHeaders, 0, IpKind(family)) && outerHeaders != [] && IsIp(outerHeaders[0].kind)
    requires f.Accepted(family, direction) && |outer| + f.IpBytes(family) <= 0xFFFF
    requires |outerHeaders| + 2 <= PACKET_MAX_HEADERS
    ensures var inner, innerHeaders := f.Bytes(family, info), f.Headers(family);
            && CanEncapsulate(outer, outerHeaders, inner, innerHeaders)
            && Room(outer + inner, outerHeaders + Shift(innerHeaders, |outer|))
            && var d := Encapsulated(outer, outerHeaders, inner, innerHeaders);
               && Parse(d.bytes, PACKET_LAYER_3_IP) == Ok(d.headers)
               && Carries(d.bytes, |outer|, inner, IpHeaderMinLen(family))
  {
    TcpUnchecked(family, direction, info, f);
    EncapsulateRoundTrip(outer, outerHeaders, f.Bytes(family, info), f.Headers(family));
    EncapsulateKeepsPayload(outer, outerHeaders, f.Bytes(family, info), f.Headers(family));
  }

  /**
    Build, encapsulate, checksum, parse: the segment that goes out through a tunnel is accepted with
    the nested stack that was built, nothing but its checksums differs from what was encapsulated, and
    its TCP checksum verifies at the far end.
   */
  lemma {:induction false} TunnelledTcpRoundTrip(outer: seq<byte>, outerHeaders: seq<Header>, family: AddressFamily,
                                                 direction: Direction, info: IpInfo, f: TcpFields)
    requires Shells(outer, outerHeaders, 0, IpKind(family)) && outerHeaders != [] && IsIp(outerHeaders[0].kind)
    requires f.Accepted(family, direction) && |outer| + f.IpBytes(family) <= 0xFFFF
    requires |outerHeaders| + 2 <= PACKET_MAX_HEADERS
    ensures var inner, innerHeaders := f.Bytes(family, info), f.Headers(family);
            && Room(outer + inner, outerHeaders + Shift(innerHeaders, |outer|))
            && var d := Encapsulated(outer, outerHeaders, inner, innerHeaders);
               && |d.headers| >= 2
               && ChecksummedWell(d, d.headers[|d.headers| - 2], d.headers[|d.headers| - 1])
  {
    EncapsulatedTcpRoundTrip(outer, outerHeaders, family, direction, info, f);
    EncapsulateRoundTrip(outer, outerHeaders, f.Bytes(family, info), f.Headers(family));
    var d := Encapsulated(outer, outerHeaders, f.Bytes(family, info), f.Headers(family));
    TunnelledInnermost(outer, outerHeaders, family, f, |outer + f.Bytes(family, info)|, d);
    ParsedChecksummedWell(d, d.headers[|d.headers| - 2], d.headers[|d.headers| - 1]);
  }

  /** With the checksums of h and g filled in, the packet is accepted, verifies, and is otherwise unchanged. */
  predicate ChecksummedWell(d: Draft, h: Header, g: Header) {
    && Summable(d.bytes, h, g)
    && var r := Checksummed(d.bytes, h, g);
       && Parse(r, PACKET_LAYER_3_IP) == Ok(d.headers)
       && SameButChecks(d.bytes, r, h, g)
       && WireChecksum(Pseudo(r, h, g) + r[g.offset..g.offset + g.totalBytes]) == 0
  }

  lemma ParsedChecksummedWell(d: Draft, h: Header, g: Header)
    requires Parse(d.bytes, PACKET_LAYER_3_IP) == Ok(d.headers) && Innermost(d.headers, h, g) && Checkable(h, g)
    ensures ChecksummedWell(d, h, g)
  {
    AcceptedChecksummed(d.bytes, d.headers, h, g, PACKET_LAYER_3_IP);
  }

  lemma TunnelledInnermost(outer: seq<byte>, outerHeaders: seq<Header>, family: AddressFamily, f: TcpFields,
                           n: nat, d: Draft)
    requires d.headers == ToEnd(outerHeaders + Shift(f.Headers(family), |outer|), n)
    ensures |d.headers| >= 2
    ensures Checkable(d.headers[|d.headers| - 2], d.headers[|d.headers| - 1])
  {
    var hs := outerHeaders + Shift(f.Headers(family), |outer|);
    assert hs[|hs| - 2].kind == IpKind(family) && hs[|hs| - 1].kind == TCP;
  }
}
