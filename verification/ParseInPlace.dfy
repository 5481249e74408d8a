/** The parser as the program runs it: mutually recursive procedures filling in one packet. */
module ParseInPlace {
  import opened Wrappers
  import opened Bytes
  import opened Checksum
  import opened WireFormat
  import opened PacketParser
  import opened Packets

  datatype ParseResult = PACKET_OK | PACKET_BAD | PACKET_UNKNOWN_L4

  function ResultOf(r: Parsed): ParseResult {
    match r
    case Ok(_) => PACKET_OK
    case UnknownL4 => PACKET_UNKNOWN_L4
    case Bad => PACKET_BAD
  }

  /**
    The metadata once the headers hs have been found in a packet that had none of its layer 3 and
    4 pointers set. With an IP header outermost ip_bytes is the length of its datagram; with a label
    stack outermost it stays the sum of the header lengths.
   */
  function Filled(m: Metadata, hs: seq<Header>): Metadata
    requires hs != []
  {
    var last := hs[|hs| - 1];
    var ip := if |hs| >= 2 then Some(hs[|hs| - 2]) else None;
    m.(headers := m.headers + hs,
       ipBytes := if m.ipBytes == 0 && IsIp(hs[0].kind) then hs[0].totalBytes else m.ipBytes + HeaderSum(hs),
       ipv4 := if ip.Some? && ip.value.kind.IPV4? then Some(ip.value.offset) else None,
       ipv6 := if ip.Some? && ip.value.kind.IPV6? then Some(ip.value.offset) else None,
       tcp := if last.kind.TCP? then Some(last.offset) else None,
       udp := if last.kind.UDP? then Some(last.offset) else None,
       icmpv4 := if last.kind.ICMPV4? then Some(last.offset) else None,
       icmpv6 := if last.kind.ICMPV6? then Some(last.offset) else None)
  }

  /** What one more header in front changes. */
  lemma FilledPrepend(m: Metadata, h: Header, rest: seq<Header>)
    requires rest != [] && h.headerBytes > 0
    ensures var f := Filled(m.(headers := m.headers + [h], ipBytes := m.ipBytes + h.headerBytes), rest);
            Filled(m, [h] + rest) == f.(
              ipBytes := if m.ipBytes == 0 && IsIp(h.kind) then h.totalBytes else f.ipBytes,
              ipv4 := if |rest| == 1 && h.kind.IPV4? then Some(h.offset) else f.ipv4,
              ipv6 := if |rest| == 1 && h.kind.IPV6? then Some(h.offset) else f.ipv6)
  {
    assert ([h] + rest)[1..] == rest;
    assert m.headers + [h] + rest == m.headers + ([h] + rest);
  }

  /** A header that is not IP, in front of a parse r that has left the metadata now. */
  lemma PrependFilled(m: Metadata, h: Header, r: Parsed, now: Metadata)
    requires h.headerBytes > 0 && !IsIp(h.kind)
    requires r.Ok? ==> |r.headers| >= 2
    requires r.Ok? ==> now == Filled(m.(headers := m.headers + [h], ipBytes := m.ipBytes + h.headerBytes), r.headers)
    ensures ResultOf(Prepend(h, r)) == ResultOf(r)
    ensures Prepend(h, r).Ok? ==> now == Filled(m, Prepend(h, r).headers)
  {
    if r.Ok? {
      FilledPrepend(m, h, r.headers);
    }
  }

  lemma FilledOne(m: Metadata, h: Header)
    requires IsLayer4(h.kind) && m.ipBytes != 0
    requires m.ipv4 == m.ipv6 == m.tcp == m.udp == m.icmpv4 == m.icmpv6 == None
    ensures var m' := m.(headers := m.headers + [h], ipBytes := m.ipBytes + h.headerBytes);
            Filled(m, [h]) == match h.kind
                              case TCP => m'.(tcp := Some(h.offset))
                              case UDP => m'.(udp := Some(h.offset))
                              case ICMPV4 => m'.(icmpv4 := Some(h.offset))
                              case _ => m'.(icmpv6 := Some(h.offset))
  {
    assert HeaderSum([h]) == h.headerBytes;
  }

  lemma {:induction false} Layer4IpInnermost(b: seq<byte>, p: nat, protocol: byte, len: nat, n: nat)
    requires p + len <= |b|
    ensures var r := ParseLayer4(b, p, protocol, len, n);
            r.Ok? && |r.headers| >= 2 ==> IsIp(r.headers[|r.headers| - 2].kind)
  {
    var r := ParseLayer4(b, p, protocol, len, n);
    if r.Ok? && |r.headers| >= 2 {
      Layer4Iff(b, p, protocol, len, n, r.headers);
      EncodesIpInnermost(b, r.headers);
    }
  }

  /** The parser is about to read at p: no pointer set, and the headers so far end at p. */
  predicate Reading(packet: Packet, p: nat, packetEnd: nat)
    reads packet
  {
    && p <= packetEnd <= packet.buffer.Length
    && p == packet.l2HeaderBytes + packet.ipBytes
    && |packet.headers| <= PACKET_MAX_HEADERS
    && packet.ipv4 == packet.ipv6 == packet.tcp == packet.udp == packet.icmpv4 == packet.icmpv6 == None
  }

  /** A read that the program does not bounds-check: beyond the buffer any value may come back. */
  method ReadUnchecked(buffer: array<byte>, i: nat) returns (v: byte)
    ensures i < buffer.Length ==> v == buffer[i]
  {
    if i < buffer.Length {
      v := buffer[i];
    } else {
      v := *;
    }
  }

  method ParseIpv4InPlace(packet: Packet, p: nat, packetEnd: nat) returns (result: ParseResult)
    requires Reading(packet, p, packetEnd)
    modifies packet
    ensures packet.buffer == old(packet.buffer)
    ensures var r := ParseIpv4(packet.buffer[..packetEnd], p, |old(packet.headers)|);
            result == ResultOf(r) && (r.Ok? ==> packet.Meta() == Filled(old(packet.Meta()), r.headers))
    decreases packetEnd - p, 0
  {
    ghost var b, n := packet.buffer[..packetEnd], |packet.headers|;
    var isOuter := packet.ipBytes == 0;
    var accepted, headerBytes, totalBytes := CheckIpv4(packet.buffer, p, packetEnd);
    if !accepted {
      return PACKET_BAD;
    }
    var appended := packet.AppendHeader(IPV4, headerBytes, totalBytes);
    if !appended {
      return PACKET_BAD;
    }
    var protocol := packet.buffer[p + 9];
    assert ParseIpv4(b, p, n) == Prepend(Header(IPV4, p, headerBytes, totalBytes),
                                         ParseLayer4(b, p + headerBytes, protocol, totalBytes - headerBytes, n + 1));
    result := ParseIpPayload(packet, Header(IPV4, p, headerBytes, totalBytes), isOuter, protocol,
                             packetEnd, old(packet.Meta()));
  }

  /** The second half of parse_ipv4 and parse_ipv6: what the appended header h carries, then the packet's own fields. */
  method ParseIpPayload(packet: Packet, h: Header, isOuter: bool, protocol: byte, packetEnd: nat, ghost m: Metadata)
    returns (result: ParseResult)
    requires Reading(packet, h.offset + h.headerBytes, packetEnd)
    requires packet.Meta() == m.(headers := m.headers + [h], ipBytes := m.ipBytes + h.headerBytes)
    requires isOuter == (m.ipBytes == 0) && IsIp(h.kind)
    requires 0 < h.headerBytes <= h.totalBytes && h.offset + h.totalBytes <= packetEnd
    modifies packet
    ensures packet.buffer == old(packet.buffer)
    ensures var r := Prepend(h, ParseLayer4(packet.buffer[..packetEnd], h.offset + h.headerBytes, protocol,
                                            h.totalBytes - h.headerBytes, |m.headers| + 1));
            result == ResultOf(r) && (r.Ok? ==> packet.Meta() == Filled(m, r.headers))
    decreases packetEnd - (h.offset + h.headerBytes), 2
  {
    ghost var b := packet.buffer[..packetEnd];
    var p, len := h.offset + h.headerBytes, h.totalBytes - h.headerBytes;
    ghost var r := ParseLayer4(b, p, protocol, len, |m.headers| + 1);
    result := ParseLayer4InPlace(packet, p, protocol, len, packetEnd);
    Layer4IpInnermost(b, p, protocol, len, |m.headers| + 1);
    SetIpFields(packet, h, isOuter, m, if r.Ok? then r.headers else [h]);
  }

  /** If this is the innermost IP header it is the primary one; if it is the outermost it gives the packet length. */
  method SetIpFields(packet: Packet, h: Header, isOuter: bool, ghost m: Metadata, ghost rest: seq<Header>)
    requires isOuter == (m.ipBytes == 0) && IsIp(h.kind) && h.headerBytes > 0 && rest != []
    requires |rest| >= 2 ==> IsIp(rest[|rest| - 2].kind)
    modifies packet`ipv4, packet`ipv6, packet`ipBytes
    ensures old(packet.Meta()) == Filled(m.(headers := m.headers + [h], ipBytes := m.ipBytes + h.headerBytes), rest)
            ==> packet.Meta() == Filled(m, [h] + rest)
  {
    FilledPrepend(m, h, rest);
    if packet.ipv4.None? && packet.ipv6.None? {
      if h.kind.IPV4? {
        packet.ipv4 := Some(h.offset);
      } else {
        packet.ipv6 := Some(h.offset);
      }
    }
    if isOuter {
      packet.ipBytes := h.totalBytes;
    }
  }

  lemma SameSlice(buffer: array<byte>, packetEnd: nat, lo: nat, hi: nat)
    requires lo <= hi <= packetEnd <= buffer.Length
    ensures buffer[lo..hi] == buffer[..packetEnd][lo..hi]
  {
  }

  /** The checks of parse_ipv4, in the program's order. */
  method CheckIpv4(buffer: array<byte>, p: nat, packetEnd: nat)
    returns (accepted: bool, headerBytes: nat, totalBytes: nat)
    requires p <= packetEnd <= buffer.Length
    ensures accepted == Ipv4Accepts(buffer[..packetEnd], p)
    ensures accepted ==>
              headerBytes == Ipv4HeaderLen(buffer[..packetEnd], p) && totalBytes == Be16(buffer[..packetEnd], p + 2)
  {
    ghost var b := buffer[..packetEnd];
    totalBytes := 0;
    var first := ReadUnchecked(buffer, p);
    headerBytes := first % 0x10 * 4;
    if headerBytes < 20 {
      return false, headerBytes, totalBytes;
    }
    if p + headerBytes > packetEnd {
      return false, headerBytes, totalBytes;
    }
    totalBytes := buffer[p + 2] as int * 0x100 + buffer[p + 3];
    assert totalBytes == Be16(b, p + 2);
    if p + totalBytes > packetEnd {
      return false, headerBytes, totalBytes;
    }
    if headerBytes > totalBytes {
      return false, headerBytes, totalBytes;
    }
    var fragOff := buffer[p + 6] as int * 0x100 + buffer[p + 7];
    assert fragOff == Be16(b, p + 6);
    if fragOff / 0x2000 % 2 == 1 {
      return false, headerBytes, totalBytes;
    }
    if fragOff % 0x2000 != 0 {
      return false, headerBytes, totalBytes;
    }
    var checksum := Ipv4Checksum(buffer[p..p + headerBytes]);
    SameSlice(buffer, packetEnd, p, p + headerBytes);
    accepted := checksum == 0;
  }

  method ParseIpv6InPlace(packet: Packet, p: nat, packetEnd: nat) returns (result: ParseResult)
    requires Reading(packet, p, packetEnd)
    modifies packet
    ensures packet.buffer == old(packet.buffer)
    ensures var r := ParseIpv6(packet.buffer[..packetEnd], p, |old(packet.headers)|);
            result == ResultOf(r) && (r.Ok? ==> packet.Meta() == Filled(old(packet.Meta()), r.headers))
    decreases packetEnd - p, 0
  {
    ghost var b := packet.buffer[..packetEnd];
    var isOuter := packet.ipBytes == 0;
    if p + 40 > packetEnd {
      return PACKET_BAD;
    }
    var totalBytes := 40 + packet.buffer[p + 4] as int * 0x100 + packet.buffer[p + 5];
    assert totalBytes == 40 + Be16(b, p + 4);
    if p + totalBytes > packetEnd {
      return PACKET_BAD;
    }
    var appended := packet.AppendHeader(IPV6, 40, totalBytes);
    if !appended {
      return PACKET_BAD;
    }
    result := ParseIpPayload(packet, Header(IPV6, p, 40, totalBytes), isOuter, packet.buffer[p + 6],
                             packetEnd, old(packet.Meta()));
  }

  method ParseLayer4InPlace(packet: Packet, p: nat, protocol: byte, len: nat, packetEnd: nat)
    returns (result: ParseResult)
    requires Reading(packet, p, packetEnd) && p + len <= packetEnd && packet.ipBytes != 0
    modifies packet
    ensures packet.buffer == old(packet.buffer)
    ensures var r := ParseLayer4(packet.buffer[..packetEnd], p, protocol, len, |old(packet.headers)|);
            result == ResultOf(r) && (r.Ok? ==> packet.Meta() == Filled(old(packet.Meta()), r.headers))
    decreases packetEnd - p, 1
  {
    if protocol == 6 {
      result := ParseTcpInPlace(packet, p, len, packetEnd);
    } else if protocol == 17 {
      result := ParseUdpInPlace(packet, p, len, packetEnd);
    } else if protocol == 1 {
      if len < 8 {
        return PACKET_BAD;
      }
      packet.icmpv4 := Some(p);
      result := AppendLayer4(packet, ICMPV4, 8, len);
      FilledOne(old(packet.Meta()), Header(ICMPV4, p, 8, len));
    } else if protocol == 58 {
      if len < 8 {
        return PACKET_BAD;
      }
      packet.icmpv6 := Some(p);
      result := AppendLayer4(packet, ICMPV6, 8, len);
      FilledOne(old(packet.Meta()), Header(ICMPV6, p, 8, len));
    } else if protocol == 47 {
      result := ParseGreInPlace(packet, p, len, packetEnd);
    } else if protocol == 4 {
      result := ParseIpv4InPlace(packet, p, packetEnd);
    } else if protocol == 41 {
      result := ParseIpv6InPlace(packet, p, packetEnd);
    } else {
      result := PACKET_UNKNOWN_L4;
    }
  }

  /** The common end of parse_tcp, parse_udp, parse_icmpv4 and parse_icmpv6. */
  method AppendLayer4(packet: Packet, kind: HeaderType, headerBytes: nat, len: nat) returns (result: ParseResult)
    requires |packet.headers| <= PACKET_MAX_HEADERS
    requires packet.l2HeaderBytes + packet.ipBytes + headerBytes <= packet.buffer.Length
    modifies packet`headers, packet`ipBytes
    ensures result == if |old(packet.headers)| < PACKET_MAX_HEADERS then PACKET_OK else PACKET_BAD
    ensures result.PACKET_OK? ==> packet.Meta() == old(packet.Meta()).(
              ipBytes := old(packet.ipBytes) + headerBytes,
              headers := old(packet.headers)
                         + [Header(kind, packet.l2HeaderBytes + old(packet.ipBytes), headerBytes, len)])
  {
    var appended := packet.AppendHeader(kind, headerBytes, len);
    result := if appended then PACKET_OK else PACKET_BAD;
  }

  method ParseTcpInPlace(packet: Packet, p: nat, len: nat, packetEnd: nat) returns (result: ParseResult)
    requires Reading(packet, p, packetEnd) && p + len <= packetEnd && packet.ipBytes != 0
    modifies packet
    ensures packet.buffer == old(packet.buffer)
    ensures var r := ParseTcp(packet.buffer[..packetEnd], p, len, |old(packet.headers)|);
            result == ResultOf(r) && (r.Ok? ==> packet.Meta() == Filled(old(packet.Meta()), r.headers))
  {
    if len < 20 {
      return PACKET_BAD;
    }
    packet.tcp := Some(p);
    var headerBytes := packet.buffer[p + 12] / 0x10 * 4;
    assert headerBytes == TcpHeaderLen(packet.buffer[..packetEnd], p);
    if headerBytes < 20 {
      return PACKET_BAD;
    }
    if headerBytes > len {
      return PACKET_BAD;
    }
    result := AppendLayer4(packet, TCP, headerBytes, len);
    FilledOne(old(packet.Meta()), Header(TCP, p, headerBytes, len));
  }

  method ParseUdpInPlace(packet: Packet, p: nat, len: nat, packetEnd: nat) returns (result: ParseResult)
    requires Reading(packet, p, packetEnd) && p + len <= packetEnd && packet.ipBytes != 0
    modifies packet
    ensures packet.buffer == old(packet.buffer)
    ensures var r := ParseUdp(packet.buffer[..packetEnd], p, len, |old(packet.headers)|);
            result == ResultOf(r) && (r.Ok? ==> packet.Meta() == Filled(old(packet.Meta()), r.headers))
  {
    if len < 8 {
      return PACKET_BAD;
    }
    packet.udp := Some(p);
    var udpLen := packet.buffer[p + 4] as int * 0x100 + packet.buffer[p + 5];
    assert udpLen == Be16(packet.buffer[..packetEnd], p + 4);
    if udpLen < 8 {
      return PACKET_BAD;
    }
    if udpLen < len {
      return PACKET_BAD;
    }
    if udpLen > len {
      return PACKET_BAD;
    }
    result := AppendLayer4(packet, UDP, 8, len);
    FilledOne(old(packet.Meta()), Header(UDP, p, 8, len));
  }

  /** gre_len, on the first octet of the header. */
  method GreLenOf(flags: byte) returns (bytes: nat)
    requires flags / 0x40 % 2 == 0
    ensures bytes == GreLen([flags], 0)
  {
    bytes := 4;
    if flags / 0x80 % 2 == 1 || flags / 0x40 % 2 == 1 {
      bytes := bytes + 4;
    }
    if flags / 0x20 % 2 == 1 {
      bytes := bytes + 4;
    }
    if flags / 0x10 % 2 == 1 {
      bytes := bytes + 4;
    }
  }

  method ParseGreInPlace(packet: Packet, p: nat, len: nat, packetEnd: nat) returns (result: ParseResult)
    requires Reading(packet, p, packetEnd) && p + len <= packetEnd && packet.ipBytes != 0
    modifies packet
    ensures packet.buffer == old(packet.buffer)
    ensures var r := ParseGre(packet.buffer[..packetEnd], p, len, |old(packet.headers)|);
            result == ResultOf(r) && (r.Ok? ==> packet.Meta() == Filled(old(packet.Meta()), r.headers))
    decreases packetEnd - p, 0
  {
    ghost var b := packet.buffer[..packetEnd];
    if len < 4 {
      return PACKET_BAD;
    }
    var flags, version := packet.buffer[p], packet.buffer[p + 1];
    assert flags == At(b, p) && version == At(b, p + 1);
    if version % 8 != 0 {
      return PACKET_BAD;
    }
    if flags / 0x40 % 2 == 1 {
      return PACKET_BAD;
    }
    var headerBytes := GreLenOf(flags);
    if headerBytes > len {
      return PACKET_BAD;
    }
    var appended := packet.AppendHeader(GRE, headerBytes, len);
    if !appended {
      return PACKET_BAD;
    }
    var proto := packet.buffer[p + 2] as int * 0x100 + packet.buffer[p + 3];
    ghost var r := ParseLayer3ByProto(b, proto, p + headerBytes, |packet.headers|);
    result := ParseLayer3ByProtoInPlace(packet, proto, p + headerBytes, packetEnd);
    PrependFilled(old(packet.Meta()), Header(GRE, p, headerBytes, len), r, packet.Meta());
    assert packet.buffer[..packetEnd] == b;
    assert ParseGre(b, p, len, |old(packet.headers)|) == Prepend(Header(GRE, p, headerBytes, len), r);
  }

  /** The loop of parse_mpls: label entries until the bottom of the stack, or the end of the capture. */
  method ScanLabels(buffer: array<byte>, p: nat, packetEnd: nat) returns (accepted: bool, q: nat, headerBytes: nat)
    requires p <= packetEnd <= buffer.Length
    ensures accepted == (MplsStackEnd(buffer[..packetEnd], p) >= 0)
    ensures accepted ==> q == MplsStackEnd(buffer[..packetEnd], p) && headerBytes == q - p
  {
    ghost var b := buffer[..packetEnd];
    q, headerBytes := p, 0;
    while true
      invariant p <= q <= packetEnd && headerBytes == q - p
      invariant MplsStackEnd(b, q) == MplsStackEnd(b, p)
      decreases packetEnd - q
    {
      if q + 4 > packetEnd {
        return false, q, headerBytes;
      }
      var isStackBottom := buffer[q + 2] % 2 == 1;
      assert isStackBottom == IsStackBottom(b, q);
      q, headerBytes := q + 4, headerBytes + 4;
      if isStackBottom || q >= packetEnd {
        break;
      }
    }
    accepted := true;
  }

  method ParseMplsInPlace(packet: Packet, p: nat, packetEnd: nat) returns (result: ParseResult)
    requires Reading(packet, p, packetEnd)
    modifies packet
    ensures packet.buffer == old(packet.buffer)
    ensures var r := ParseMpls(packet.buffer[..packetEnd], p, |old(packet.headers)|);
            result == ResultOf(r) && (r.Ok? ==> packet.Meta() == Filled(old(packet.Meta()), r.headers))
    decreases packetEnd - p, 0
  {
    ghost var b := packet.buffer[..packetEnd];
    var accepted, q, headerBytes := ScanLabels(packet.buffer, p, packetEnd);
    if !accepted {
      return PACKET_BAD;
    }
    var totalBytes := packetEnd - p;
    var appended := packet.AppendHeader(MPLS, headerBytes, totalBytes);
    if !appended {
      return PACKET_BAD;
    }
    ghost var r := ParseLayer3(b, q, |packet.headers|);
    result := ParseLayer3InPlace(packet, q, packetEnd);
    PrependFilled(old(packet.Meta()), Header(MPLS, p, headerBytes, totalBytes), r, packet.Meta());
    assert packet.buffer[..packetEnd] == b;
    assert ParseMpls(b, p, |old(packet.headers)|) == Prepend(Header(MPLS, p, headerBytes, totalBytes), r);
  }

  method ParseLayer3InPlace(packet: Packet, p: nat, packetEnd: nat) returns (result: ParseResult)
    requires Reading(packet, p, packetEnd)
    modifies packet
    ensures packet.buffer == old(packet.buffer)
    ensures var r := ParseLayer3(packet.buffer[..packetEnd], p, |old(packet.headers)|);
            result == ResultOf(r) && (r.Ok? ==> packet.Meta() == Filled(old(packet.Meta()), r.headers))
    decreases packetEnd - p, 1
  {
    if p + 20 > packetEnd {
      return PACKET_BAD;
    }
    var version := packet.buffer[p] / 0x10;
    if version == 4 {
      result := ParseIpv4InPlace(packet, p, packetEnd);
    } else if version == 6 {
      result := ParseIpv6InPlace(packet, p, packetEnd);
    } else {
      result := PACKET_BAD;
    }
  }

  method ParseLayer3ByProtoInPlace(packet: Packet, proto: u16, p: nat, packetEnd: nat) returns (result: ParseResult)
    requires Reading(packet, p, packetEnd)
    modifies packet
    ensures packet.buffer == old(packet.buffer)
    ensures var r := ParseLayer3ByProto(packet.buffer[..packetEnd], proto, p, |old(packet.headers)|);
            result == ResultOf(r) && (r.Ok? ==> packet.Meta() == Filled(old(packet.Meta()), r.headers))
    decreases packetEnd - p, 1
  {
    if proto == ETHERTYPE_IP {
      if p + 20 > packetEnd {
        return PACKET_BAD;
      }
      if packet.buffer[p] / 0x10 == 4 {
        result := ParseIpv4InPlace(packet, p, packetEnd);
      } else {
        result := PACKET_BAD;
      }
    } else if proto == ETHERTYPE_IPV6 {
      if p + 40 > packetEnd {
        return PACKET_BAD;
      }
      if packet.buffer[p] / 0x10 == 6 {
        result := ParseIpv6InPlace(packet, p, packetEnd);
      } else {
        result := PACKET_BAD;
      }
    } else if proto == ETHERTYPE_MPLS_UC || proto == ETHERTYPE_MPLS_MC {
      result := ParseMplsInPlace(packet, p, packetEnd);
    } else {
      result := PACKET_UNKNOWN_L4;
    }
  }

  /** parse_packet on a packet fresh from packet_new, whose first inBytes octets have been captured. */
  method ParsePacket(packet: Packet, inBytes: nat, layer: Layer) returns (result: ParseResult)
    requires Reading(packet, 0, inBytes) && packet.headers == []
    modifies packet
    ensures packet.buffer == old(packet.buffer)
    ensures var r := Parse(packet.buffer[..inBytes], layer);
            && result == ResultOf(r)
            && (r.Ok? ==> packet.Meta() == Filled(old(packet.Meta()).(
                            l2HeaderBytes := if layer.PACKET_LAYER_3_IP? then 0 else ETHER_HEADER_BYTES), r.headers))
  {
    if layer.PACKET_LAYER_3_IP? {
      result := ParseLayer3InPlace(packet, 0, inBytes);
    } else {
      if ETHER_HEADER_BYTES > inBytes {
        return PACKET_BAD;
      }
      packet.l2HeaderBytes := ETHER_HEADER_BYTES;
      var proto := packet.buffer[12] as int * 0x100 + packet.buffer[13];
      result := ParseLayer3ByProtoInPlace(packet, proto, ETHER_HEADER_BYTES, inBytes);
    }
  }

  // ----- What an accepted packet records

  predicate OnlyOne(a: Option<nat>, b: Option<nat>, c: Option<nat>, d: Option<nat>, offset: nat) {
    || (a == Some(offset) && b == c == d == None)
    || (b == Some(offset) && a == c == d == None)
    || (c == Some(offset) && a == b == d == None)
    || (d == Some(offset) && a == b == c == None)
  }

  /** Header i is the innermost IP header. */
  predicate InnermostIp(hs: seq<Header>, i: nat) {
    i < |hs| && IsIp(hs[i].kind) && forall j :: i < j < |hs| ==> !IsIp(hs[j].kind)
  }

  predicate Touches(h: Header, g: Header) {
    g.offset == h.offset + h.headerBytes
  }

  predicate Contiguous(hs: seq<Header>) {
    forall i :: 0 <= i < |hs| - 1 ==> Touches(hs[i], hs[i + 1])
  }

  lemma {:induction false} ContiguousSum(hs: seq<Header>)
    requires hs != [] && Contiguous(hs)
    ensures hs[0].offset + HeaderSum(hs) == hs[|hs| - 1].offset + hs[|hs| - 1].headerBytes
  {
    if |hs| > 1 {
      forall i | 0 <= i < |hs[1..]| - 1 ensures Touches(hs[1..][i], hs[1..][i + 1]) {
        assert Touches(hs[i + 1], hs[i + 2]);
      }
      assert Touches(hs[0], hs[0 + 1]);
      ContiguousSum(hs[1..]);
    } else {
      assert hs[1..] == [];
    }
  }

  lemma PointersOf(hs: seq<Header>, m: Metadata)
    requires |hs| >= 2 && IsLayer4(hs[|hs| - 1].kind) && IsIp(hs[|hs| - 2].kind)
    ensures var f := Filled(m, hs);
            && OnlyOne(f.tcp, f.udp, f.icmpv4, f.icmpv6, hs[|hs| - 1].offset)
            && OnlyOne(f.ipv4, f.ipv6, None, None, hs[|hs| - 2].offset)
            && (f.ipv4.Some? <==> hs[|hs| - 2].kind.IPV4?)
  {
  }

  /**
    The packet that parse_packet returns PACKET_OK for has exactly one layer 4 pointer, at the last
    header, and exactly one IP pointer, at the innermost IP header.
   */
  lemma ParsedPointers(b: seq<byte>, layer: Layer, hs: seq<Header>, m: Metadata)
    requires Parse(b, layer) == Ok(hs)
    ensures |hs| >= 2 && InnermostIp(hs, |hs| - 2)
    ensures var f := Filled(m, hs);
            && OnlyOne(f.tcp, f.udp, f.icmpv4, f.icmpv6, hs[|hs| - 1].offset)
            && OnlyOne(f.ipv4, f.ipv6, None, None, hs[|hs| - 2].offset)
            && (f.ipv4.Some? <==> hs[|hs| - 2].kind.IPV4?)
  {
    ParsedLayout(b, layer, hs);
    PointersOf(hs, m);
  }

  /** Its ip_bytes is the length of the outer datagram, or with a label stack outermost the length of all headers. */
  lemma ParsedIpBytes(b: seq<byte>, layer: Layer, hs: seq<Header>, m: Metadata)
    requires Parse(b, layer) == Ok(hs) && m.headers == [] && m.ipBytes == 0
    ensures IsIp(hs[0].kind) || hs[0].kind.MPLS?
    ensures var last := hs[|hs| - 1];
            Filled(m, hs).ipBytes == if IsIp(hs[0].kind) then hs[0].totalBytes
                                     else last.offset + last.headerBytes - hs[0].offset
  {
    ParsedLayout(b, layer, hs);
    forall i | 0 <= i < |hs| - 1 ensures Touches(hs[i], hs[i + 1]) {
      assert Adjacent(hs[i], hs[i + 1]);
    }
    ContiguousSum(hs);
  }
}
