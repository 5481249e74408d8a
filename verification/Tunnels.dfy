/** Packets as they leave through a tunnel: their metadata, and what can be read at the far end. */
module Tunnels {
  // The metadata of every packet that is built, encapsulated or merged is what parsing its octets would
  // leave, so that checksum_packet finds its headers.

  import opened Wrappers
  import opened Bytes
  import opened Checksum
  import opened WireFormat
  import opened PacketParser
  import opened Packets
  import opened ParseInPlace
  import opened Encapsulation
  import opened Encapsulate
  import opened PacketChecksum
  import opened TcpPacket
  import opened OuterHeaders
  import opened WireOctets
  import opened SegmentOctets

  // ----- Metadata as the parser leaves it

  /** The metadata with which parsing starts. */
  function Blank(l2HeaderBytes: nat): Metadata {
    Metadata(l2HeaderBytes, 0, [], None, None, None, None, None, None)
  }

  /** m is what parsing a packet with these headers leaves. */
  predicate AsParsed(m: Metadata) {
    m.headers != [] && m == Filled(Blank(m.l2HeaderBytes), m.headers).(headers := m.headers)
  }

  lemma ParsingLeaves(m: Metadata)
    requires m.headers != []
    ensures AsParsed(m) <==> m == Filled(Blank(m.l2HeaderBytes), m.headers)
  {
    assert [] + m.headers == m.headers;
  }

  /** Its pointers are those of the innermost two headers, and its length is the outermost datagram's. */
  lemma AsParsedMeans(m: Metadata, h: Header, g: Header)
    requires AsParsed(m) && Innermost(m.headers, h, g) && IsIp(h.kind) && IsLayer4(g.kind)
    ensures Designates(m, h, g)
    ensures IsIp(m.headers[0].kind) ==> m.ipBytes == m.headers[0].totalBytes
  {
  }

  /** new_tcp_packet. */
  lemma BuiltAsParsed(family: AddressFamily, f: TcpFields)
    requires f.IpBytes(family) <= 0xFFFF
    ensures AsParsed(TcpMeta(family, f))
  {
  }

  /** x and y are of one type, and x is d octets further on. */
  predicate MovedHeader(x: Header, y: Header, d: nat) {
    x.kind == y.kind && x.offset == y.offset + d
  }

  /** If the innermost two headers move by d, then so must the pointers. */
  lemma MovedAsParsed(m: Metadata, d: nat, hs: seq<Header>)
    requires AsParsed(m) && |m.headers| >= 2 && |hs| >= 2 && IsIp(hs[0].kind)
    requires MovedHeader(hs[|hs| - 2], m.headers[|m.headers| - 2], d)
    requires MovedHeader(hs[|hs| - 1], m.headers[|m.headers| - 1], d)
    ensures AsParsed(Moved(m, d).(headers := hs, ipBytes := hs[0].totalBytes))
  {
  }

  /** The pointers of the encapsulated packet: if they designated h and g before, they still do behind the headroom. */
  lemma MovedDesignates(m: Metadata, d: nat, h: Header, g: Header, h': Header, g': Header)
    requires Designates(m, h, g) && MovedHeader(h', h, d) && MovedHeader(g', g, d)
    ensures Designates(Moved(m, d), h', g')
  {
  }

  /** packet_encapsulate: the pointers move with the headers that they designate. */
  lemma {:induction false} EncapsulatedAsParsed(outer: seq<byte>, outerHeaders: seq<Header>, inner: seq<byte>,
                                                m: Metadata, d: Draft)
    requires AsParsed(m) && |m.headers| >= 2 && |inner| == m.ipBytes
    requires CanEncapsulate(outer, outerHeaders, inner, m.headers)
    requires Room(outer + inner, outerHeaders + Shift(m.headers, |outer|))
    requires d == Encapsulated(outer, outerHeaders, inner, m.headers)
    ensures AsParsed(Moved(m, |outer|).(headers := d.headers, ipBytes := |outer| + m.ipBytes))
    ensures Parse(d.bytes, PACKET_LAYER_3_IP) == Ok(d.headers)
  {
    EncapsulatedHeaders(outer, outerHeaders, inner, m.headers, d);
    HeadersMoved(outerHeaders, m.headers, |outer|, d.headers, |outer + inner|);
    MovedAsParsed(m, |outer|, d.headers);
  }

  lemma {:induction false} EncapsulatedHeaders(outer: seq<byte>, outerHeaders: seq<Header>,
                                               inner: seq<byte>, innerHeaders: seq<Header>, d: Draft)
    requires innerHeaders != [] && CanEncapsulate(outer, outerHeaders, inner, innerHeaders)
    requires Room(outer + inner, outerHeaders + Shift(innerHeaders, |outer|))
    requires d == Encapsulated(outer, outerHeaders, inner, innerHeaders)
    ensures Parse(d.bytes, PACKET_LAYER_3_IP) == Ok(d.headers)
    ensures d.headers == ToEnd(outerHeaders + Shift(innerHeaders, |outer|), |outer + inner|)
    ensures FromStart(outerHeaders, innerHeaders, |outer|)
  {
    EncapsulateRoundTrip(outer, outerHeaders, inner, innerHeaders);
    StackedTogether(outer, outerHeaders, inner, innerHeaders);
  }

  /** The whole stack starts at octet 0, with IP. */
  predicate FromStart(outerHeaders: seq<Header>, inner: seq<Header>, d: nat) {
    && outerHeaders + Shift(inner, d) != []
    && (outerHeaders + Shift(inner, d))[0].offset == 0 && IsIp((outerHeaders + Shift(inner, d))[0].kind)
  }

  lemma HeadersMoved(outerHeaders: seq<Header>, inner: seq<Header>, d: nat, hs: seq<Header>, n: nat)
    requires |inner| >= 2 && FromStart(outerHeaders, inner, d) && hs == ToEnd(outerHeaders + Shift(inner, d), n)
    ensures |hs| >= 2 && IsIp(hs[0].kind) && hs[0].totalBytes == n
    ensures MovedHeader(hs[|hs| - 2], inner[|inner| - 2], d)
    ensures MovedHeader(hs[|hs| - 1], inner[|inner| - 1], d)
  {
  }

  /** The header list of a packet that the parser accepts, with metadata to match: ready for checksum_packet. */
  lemma AcceptedDesignates(b: seq<byte>, m: Metadata, h: Header, g: Header)
    requires AsParsed(m) && Parse(b, PACKET_LAYER_3_IP) == Ok(m.headers) && Innermost(m.headers, h, g)
    requires Checkable(h, g)
    ensures Designates(m, h, g) && Summable(b, h, g)
    ensures Parse(Checksummed(b, h, g), PACKET_LAYER_3_IP) == Ok(m.headers)
  {
    AcceptedChecksummed(b, m.headers, h, g, PACKET_LAYER_3_IP);
    AsParsedMeans(m, h, g);
  }

  // ----- Sending

  /**
    send_live_ip_packet on a packet whose metadata are those of its octets: the checksums that it fills in
    are the right ones, and what goes out is accepted with the headers recorded.
   */
  method SendLiveIpPacket(packet: Packet, ghost h: Header, ghost g: Header)
    requires AsParsed(packet.Meta()) && Innermost(packet.headers, h, g) && Checkable(h, g)
    requires Parse(packet.buffer[..], PACKET_LAYER_3_IP) == Ok(packet.headers)
    modifies packet.buffer
    ensures Summable(old(packet.buffer[..]), h, g)
    ensures packet.buffer[..] == Checksummed(old(packet.buffer[..]), h, g)
    ensures Parse(packet.buffer[..], PACKET_LAYER_3_IP) == Ok(packet.headers)
    ensures SegmentOctets.Verifies(packet.buffer[..], h, g)
  {
    ghost var b := packet.buffer[..];
    AcceptedDesignates(b, packet.Meta(), h, g);
    AcceptedUnchecked(b, packet.headers, h, g);
    ChecksumVerifies(b, h, g);
    ChecksumPacket(packet, h, g);
  }

  lemma AcceptedUnchecked(b: seq<byte>, hs: seq<Header>, h: Header, g: Header)
    requires Parse(b, PACKET_LAYER_3_IP) == Ok(hs) && Innermost(hs, h, g) && Checkable(h, g)
    ensures Unchecked(b, h, g)
  {
    ParseIff(b, PACKET_LAYER_3_IP, hs);
    EncodesUnchecked(b, hs, h, g);
    UncheckedInnermost(b, hs, h, g);
  }

  // ----- Through a tunnel, from the script to the far end

  /** None of the headers has one of its finished fields at k. */
  predicate Unfinished(hs: seq<Header>, k: int) {
    forall i :: 0 <= i < |hs| ==> !FinishField(hs[i], k)
  }

  /** What of the encapsulated octets x is in the finished and checksummed packet r. */
  predicate Keeps(r: seq<byte>, x: seq<byte>, hs: seq<Header>, g: Header) {
    && |r| == |x|
    && forall k :: 0 <= k < |x| && Unfinished(hs, k) && !InCheck(g.kind, g.offset, k) ==> r[k] == x[k]
  }

  lemma {:induction false} EncapsulatedKeeps(x: seq<byte>, hs: seq<Header>, d: Draft, h: Header, g: Header)
    requires Room(x, hs) && d == Finish(x, hs) && Summable(d.bytes, h, g)
    requires h.kind.IPV4? ==> exists i :: 0 <= i < |hs| && hs[i].kind.IPV4? && hs[i].offset == h.offset
    ensures Keeps(Checksummed(d.bytes, h, g), x, hs, g)
  {
    var r := Checksummed(d.bytes, h, g);
    forall k | 0 <= k < |x| && Unfinished(hs, k) && !InCheck(g.kind, g.offset, k) ensures r[k] == x[k] {
      FinishTouches(x, hs, k);
      OnlyChecksumsChange(d.bytes, h, g, k);
    }
  }

  /** What the far end finds in r: the tunnel's own octets, and in it the segment f with its IP header. */
  predicate Outgoing(r: seq<byte>, hs: seq<Header>, outer: seq<byte>, outerHeaders: seq<Header>,
                     family: AddressFamily, info: IpInfo, f: TcpFields) {
    var t := |outer| + if family.AF_INET? then 20 else 40;
    && Parse(r, PACKET_LAYER_3_IP) == Ok(hs) && |hs| == |outerHeaders| + 2
    && t <= |r| && ReadsAs(r[t..], f) && IpReadsAs(family, r[|outer|..], info, |r| - |outer|)
    && hs[|hs| - 1].offset == t && SegmentOctets.Verifies(r, hs[|hs| - 2], hs[|hs| - 1])
    && forall k :: 0 <= k < |outer| && Unfinished(outerHeaders, k) ==> r[k] == outer[k]
  }

  /** Shells lie inside their octets, and so do the fields that finishing changes. */
  lemma {:induction false} ShellFields(b: seq<byte>, hs: seq<Header>, start: nat, inside: HeaderType, k: int)
    requires Shells(b, hs, start, inside) && !(start <= k < |b|)
    ensures start <= |b| && Unfinished(hs, k)
    decreases |hs|
  {
    if hs != [] {
      ShellField(b, hs[0], k);
      ShellFields(b, hs[1..], start + hs[0].headerBytes, inside, k);
      assert forall i :: 1 <= i < |hs| ==> hs[i] == hs[1..][i - 1];
    }
  }

  lemma ShellField(b: seq<byte>, h: Header, k: int)
    requires Shell(b, h)
    ensures FinishField(h, k) ==> h.offset <= k < h.offset + h.headerBytes <= |b|
  {
  }

  /** The finished fields of the whole stack: those of the tunnel, and those of the inner IP header. */
  lemma StackUnfinished(outerHeaders: seq<Header>, family: AddressFamily, f: TcpFields, d: nat, k: int)
    requires Unfinished(outerHeaders, k)
    requires !FinishField(Header(IpKind(family), d, IpHeaderMinLen(family), 0), k)
    ensures Unfinished(outerHeaders + Shift(f.Headers(family), d), k)
  {
    var inner := Shift(f.Headers(family), d);
    assert inner[0].kind == IpKind(family) && inner[0].offset == d && inner[1].kind == TCP;
    assert forall i :: 0 <= i < 2 ==> !FinishField(inner[i], k);
  }

  /** The segment: nothing changes there but its checksum. */
  lemma SegmentKept(x: seq<byte>, r: seq<byte>, hs: seq<Header>, g: Header, inner: seq<byte>, t: nat, f: TcpFields)
    requires Keeps(r, x, hs, g) && g.kind == TCP && g.offset == t <= |x| && inner == x[t..] && ReadsAs(inner, f)
    requires forall k :: t <= k < |x| ==> Unfinished(hs, k)
    ensures ReadsAs(r[t..], f)
  {
    var s := r[t..];
    forall k | 0 <= k < |s| && k != 16 && k != 17 ensures s[k] == inner[k] {
      assert Unfinished(hs, t + k) && !InCheck(g.kind, g.offset, t + k);
    }
    ReadsBehindChecksum(inner, s, f);
  }

  /** The inner IP header: finishing leaves what the script chose, and the lengths are right. */
  lemma InnerIpKept(x: seq<byte>, r: seq<byte>, hs: seq<Header>, g: Header, o: nat, family: AddressFamily,
                    info: IpInfo, h: Header, n: nat)
    requires Keeps(r, x, hs, g) && o + n == |x| && IpReadsAs(family, x[o..], info, n) && g.offset == o + h.headerBytes
    requires h.kind == IpKind(family) && h.offset == o && h.headerBytes == IpHeaderMinLen(family) && h.totalBytes == n
    requires HeaderOctets(r, h) && NextOctets(r, h, g) && g.kind == TCP
    requires forall k :: o <= k < o + h.headerBytes && !FinishField(h, k) ==> Unfinished(hs, k)
    ensures IpReadsAs(family, r[o..], info, n)
  {
    var s, y := r[o..], x[o..];
    forall k | 0 <= k < h.headerBytes && !FinishField(h, o + k) ensures s[k] == y[k] {
      assert Unfinished(hs, o + k) && !InCheck(g.kind, g.offset, o + k);
    }
    assert forall k :: 0 <= k < |s| ==> s[k] == r[o + k];
  }

  /** What the parser finds in the finished tunnel packet: the innermost two headers, and where they are. */
  lemma {:induction false} TunnelHeaders(outer: seq<byte>, outerHeaders: seq<Header>, family: AddressFamily,
                                         info: IpInfo, f: TcpFields, d: Draft, h: Header, g: Header)
    requires d.headers == ToEnd(outerHeaders + Shift(f.Headers(family), |outer|), |outer| + f.IpBytes(family))
    requires Innermost(d.headers, h, g)
    ensures |d.headers| == |outerHeaders| + 2
    ensures h.kind == IpKind(family) && h.offset == |outer| && h.headerBytes == IpHeaderMinLen(family)
    ensures h.totalBytes == f.IpBytes(family)
    ensures g.kind == TCP && g.offset == |outer| + IpHeaderMinLen(family)
  {
    var hs := outerHeaders + Shift(f.Headers(family), |outer|);
    assert hs[|hs| - 2] == Shift(f.Headers(family), |outer|)[0] && hs[|hs| - 1] == Shift(f.Headers(family), |outer|)[1];
  }

  /** Accepted octets of the innermost IP header. */
  lemma {:induction false} InnermostOctets(r: seq<byte>, hs: seq<Header>, h: Header, g: Header)
    requires Parse(r, PACKET_LAYER_3_IP) == Ok(hs) && Innermost(hs, h, g)
    ensures HeaderOctets(r, h) && NextOctets(r, h, g)
  {
    ParseOctetsIff(r, PACKET_LAYER_3_IP, hs);
    assert NextOctets(r, hs[|hs| - 2], hs[|hs| - 2 + 1]);
  }

  lemma {:induction false} TunnelKeeps(outer: seq<byte>, outerHeaders: seq<Header>, family: AddressFamily, info: IpInfo,
                                       f: TcpFields, hs: seq<Header>, k: int)
    requires Shells(outer, outerHeaders, 0, IpKind(family)) && hs == outerHeaders + Shift(f.Headers(family), |outer|)
    requires k >= |outer| ==> !FinishField(Header(IpKind(family), |outer|, IpHeaderMinLen(family), 0), k)
    requires 0 <= k < |outer| ==> Unfinished(outerHeaders, k)
    requires k >= 0
    ensures Unfinished(hs, k)
  {
    if k >= |outer| {
      ShellFields(outer, outerHeaders, 0, IpKind(family), k);
    }
    StackUnfinished(outerHeaders, family, f, |outer|, k);
  }

  /** h and g are the headers of the segment f over the family, from octet o on. */
  predicate SegmentAt(family: AddressFamily, f: TcpFields, o: nat, h: Header, g: Header) {
    && h.kind == IpKind(family) && h.offset == o && h.headerBytes == IpHeaderMinLen(family)
    && h.totalBytes == f.IpBytes(family) && g.kind == TCP && g.offset == o + IpHeaderMinLen(family)
  }

  /** x is the segment behind the tunnel's headers, and r is x with the fields of hs and the checksum of g set. */
  predicate TunnelPacket(outer: seq<byte>, outerHeaders: seq<Header>, family: AddressFamily, info: IpInfo, f: TcpFields,
                         x: seq<byte>, hs: seq<Header>, r: seq<byte>, g: Header) {
    && Shells(outer, outerHeaders, 0, IpKind(family)) && hs == outerHeaders + Shift(f.Headers(family), |outer|)
    && f.HeaderBytes() <= MAX_TCP_HEADER_BYTES && |f.OptionBytes()| % 4 == 0 && f.IpBytes(family) <= 0xFFFF
    && x == outer + f.Bytes(family, info) && Keeps(r, x, hs, g)
  }

  lemma {:induction false} TunnelSegment(outer: seq<byte>, outerHeaders: seq<Header>, family: AddressFamily,
                                         info: IpInfo, f: TcpFields, x: seq<byte>, hs: seq<Header>,
                                         r: seq<byte>, h: Header, g: Header)
    requires TunnelPacket(outer, outerHeaders, family, info, f, x, hs, r, g) && SegmentAt(family, f, |outer|, h, g)
    ensures g.offset <= |r| && ReadsAs(r[g.offset..], f)
  {
    SegmentLength(family, f);
    var inner := f.Bytes(family, info);
    BytesRead(family, info, f, inner);
    assert x[g.offset..] == inner[IpHeaderMinLen(family)..];
    forall k | g.offset <= k < |x| ensures Unfinished(hs, k) {
      TunnelKeeps(outer, outerHeaders, family, info, f, hs, k);
    }
    SegmentKept(x, r, hs, g, inner[IpHeaderMinLen(family)..], g.offset, f);
  }

  lemma {:induction false} TunnelIp(outer: seq<byte>, outerHeaders: seq<Header>, family: AddressFamily, info: IpInfo,
                                    f: TcpFields, x: seq<byte>, hs: seq<Header>, r: seq<byte>, h: Header, g: Header)
    requires TunnelPacket(outer, outerHeaders, family, info, f, x, hs, r, g) && SegmentAt(family, f, |outer|, h, g)
    requires HeaderOctets(r, h) && NextOctets(r, h, g)
    ensures |outer| <= |r| && IpReadsAs(family, r[|outer|..], info, |r| - |outer|)
  {
    SegmentLength(family, f);
    var inner := f.Bytes(family, info);
    BytesRead(family, info, f, inner);
    assert x[|outer|..] == inner;
    forall k | |outer| <= k < |x| && !FinishField(h, k) ensures Unfinished(hs, k) {
      TunnelKeeps(outer, outerHeaders, family, info, f, hs, k);
    }
    InnerIpKept(x, r, hs, g, |outer|, family, info, h, f.IpBytes(family));
  }

  lemma {:induction false} TunnelOuter(outer: seq<byte>, outerHeaders: seq<Header>, family: AddressFamily, info: IpInfo,
                                       f: TcpFields, x: seq<byte>, hs: seq<Header>, r: seq<byte>, g: Header, k: nat)
    requires TunnelPacket(outer, outerHeaders, family, info, f, x, hs, r, g) && g.offset >= |outer|
    requires k < |outer| && Unfinished(outerHeaders, k)
    ensures |outer| <= |r| && r[k] == outer[k]
  {
    TunnelKeeps(outer, outerHeaders, family, info, f, hs, k);
    assert x[k] == outer[k] && !InCheck(g.kind, g.offset, k);
  }

  /** What the script and the tunnel have to be. */
  predicate Tunnelled(outer: seq<byte>, outerHeaders: seq<Header>, family: AddressFamily, direction: Direction,
                      f: TcpFields) {
    && Shells(outer, outerHeaders, 0, IpKind(family)) && outerHeaders != [] && IsIp(outerHeaders[0].kind)
    && f.Accepted(family, direction) && |outer| + f.IpBytes(family) <= 0xFFFF
    && |outerHeaders| + 2 <= PACKET_MAX_HEADERS
  }

  lemma {:induction false} TunnelAccepted(outer: seq<byte>, outerHeaders: seq<Header>, family: AddressFamily,
                                          direction: Direction, info: IpInfo, f: TcpFields, d: Draft,
                                          h: Header, g: Header)
    requires Tunnelled(outer, outerHeaders, family, direction, f)
    requires Room(outer + f.Bytes(family, info), outerHeaders + Shift(f.Headers(family), |outer|))
    requires d == Encapsulated(outer, outerHeaders, f.Bytes(family, info), f.Headers(family))
    requires Innermost(d.headers, h, g)
    ensures Parse(d.bytes, PACKET_LAYER_3_IP) == Ok(d.headers)
    ensures |d.headers| == |outerHeaders| + 2 && SegmentAt(family, f, |outer|, h, g)
  {
    TunnelFits(outer, outerHeaders, family, direction, info, f);
    EncapsulatedHeaders(outer, outerHeaders, f.Bytes(family, info), f.Headers(family), d);
    TunnelHeaders(outer, outerHeaders, family, info, f, d, h, g);
  }

  lemma TunnelFits(outer: seq<byte>, outerHeaders: seq<Header>, family: AddressFamily, direction: Direction,
                   info: IpInfo, f: TcpFields)
    requires Tunnelled(outer, outerHeaders, family, direction, f)
    requires f.IpBytes(family) <= 0xFFFF
    ensures CanEncapsulate(outer, outerHeaders, f.Bytes(family, info), f.Headers(family))
  {
    EncapsulatedTcpRoundTrip(outer, outerHeaders, family, direction, info, f);
  }

  lemma TunnelChecksummed(b: seq<byte>, hs: seq<Header>, h: Header, g: Header) returns (r: seq<byte>)
    requires Parse(b, PACKET_LAYER_3_IP) == Ok(hs) && Innermost(hs, h, g) && Checkable(h, g)
    ensures Summable(b, h, g) && r == Checksummed(b, h, g)
    ensures && Parse(r, PACKET_LAYER_3_IP) == Ok(hs) && SegmentOctets.Verifies(r, h, g)
            && HeaderOctets(r, h) && NextOctets(r, h, g)
  {
    AcceptedChecksummed(b, hs, h, g, PACKET_LAYER_3_IP);
    AcceptedUnchecked(b, hs, h, g);
    ChecksumVerifies(b, h, g);
    r := Checksummed(b, h, g);
    InnermostOctets(r, hs, h, g);
  }

  lemma {:induction false} TunnelIsPacket(outer: seq<byte>, outerHeaders: seq<Header>, family: AddressFamily,
                                          direction: Direction, info: IpInfo, f: TcpFields, x: seq<byte>,
                                          hs: seq<Header>, d: Draft, h: Header, g: Header)
    requires Tunnelled(outer, outerHeaders, family, direction, f)
    requires x == outer + f.Bytes(family, info) && hs == outerHeaders + Shift(f.Headers(family), |outer|)
    requires Room(x, hs) && d == Finish(x, hs) && Summable(d.bytes, h, g) && SegmentAt(family, f, |outer|, h, g)
    ensures TunnelPacket(outer, outerHeaders, family, info, f, x, hs, Checksummed(d.bytes, h, g), g)
  {
    assert hs[|hs| - 2].kind == h.kind && hs[|hs| - 2].offset == h.offset;
    EncapsulatedKeeps(x, hs, d, h, g);
  }

  /**
    A script's segment through a tunnel: whatever outer headers there are, what is sent after packet_encapsulate
    and checksum_packet is accepted with the whole stack, carries every octet of the tunnel's own headers but
    for lengths, protocols and header checksums, and gives every field of the segment and of its IP header
    back as the script had it.
   */
  lemma {:induction false} TunnelOutgoing(outer: seq<byte>, outerHeaders: seq<Header>, family: AddressFamily,
                                          direction: Direction, info: IpInfo, f: TcpFields, d: Draft,
                                          h: Header, g: Header)
    requires Tunnelled(outer, outerHeaders, family, direction, f)
    requires Room(outer + f.Bytes(family, info), outerHeaders + Shift(f.Headers(family), |outer|))
    requires d == Encapsulated(outer, outerHeaders, f.Bytes(family, info), f.Headers(family))
    requires Innermost(d.headers, h, g)
    ensures Parse(d.bytes, PACKET_LAYER_3_IP) == Ok(d.headers) && Checkable(h, g) && Summable(d.bytes, h, g)
    ensures Outgoing(Checksummed(d.bytes, h, g), d.headers, outer, outerHeaders, family, info, f)
  {
    SegmentLength(family, f);
    var x, hs := outer + f.Bytes(family, info), outerHeaders + Shift(f.Headers(family), |outer|);
    TunnelAccepted(outer, outerHeaders, family, direction, info, f, d, h, g);
    var r := TunnelChecksummed(d.bytes, d.headers, h, g);
    TunnelSent(outer, outerHeaders, family, direction, info, f, x, hs, d, h, g, r);
  }

  lemma SegmentLength(family: AddressFamily, f: TcpFields)
    requires f.IpBytes(family) <= 0xFFFF
    ensures f.IpBytes(family) % 0x1_0000 == f.IpBytes(family) && (family.AF_INET6? ==> f.IpBytes(family) >= 40)
  {
  }

  lemma {:induction false} TunnelSent(outer: seq<byte>, outerHeaders: seq<Header>, family: AddressFamily,
                                      direction: Direction, info: IpInfo, f: TcpFields, x: seq<byte>,
                                      hs: seq<Header>, d: Draft, h: Header, g: Header, r: seq<byte>)
    requires Tunnelled(outer, outerHeaders, family, direction, f)
    requires x == outer + f.Bytes(family, info) && hs == outerHeaders + Shift(f.Headers(family), |outer|)
    requires Room(x, hs) && d == Finish(x, hs) && Summable(d.bytes, h, g) && SegmentAt(family, f, |outer|, h, g)
    requires r == Checksummed(d.bytes, h, g)
    requires HeaderOctets(r, h) && NextOctets(r, h, g) && Innermost(d.headers, h, g)
    requires |d.headers| == |outerHeaders| + 2
    requires Parse(r, PACKET_LAYER_3_IP) == Ok(d.headers) && SegmentOctets.Verifies(r, h, g)
    ensures Outgoing(r, d.headers, outer, outerHeaders, family, info, f)
  {
    TunnelIsPacket(outer, outerHeaders, family, direction, info, f, x, hs, d, h, g);
    TunnelReads(outer, outerHeaders, family, info, f, x, hs, r, d.headers, h, g);
  }

  lemma {:induction false} TunnelReads(outer: seq<byte>, outerHeaders: seq<Header>, family: AddressFamily, info: IpInfo,
                                       f: TcpFields, x: seq<byte>, hs: seq<Header>, r: seq<byte>, ends: seq<Header>,
                                       h: Header, g: Header)
    requires TunnelPacket(outer, outerHeaders, family, info, f, x, hs, r, g) && SegmentAt(family, f, |outer|, h, g)
    requires HeaderOctets(r, h) && NextOctets(r, h, g) && Innermost(ends, h, g) && |ends| == |outerHeaders| + 2
    requires Parse(r, PACKET_LAYER_3_IP) == Ok(ends) && SegmentOctets.Verifies(r, h, g)
    ensures Outgoing(r, ends, outer, outerHeaders, family, info, f)
  {
    TunnelSegment(outer, outerHeaders, family, info, f, x, hs, r, h, g);
    TunnelIp(outer, outerHeaders, family, info, f, x, hs, r, h, g);
    forall k | 0 <= k < |outer| && Unfinished(outerHeaders, k) ensures r[k] == outer[k] {
      TunnelOuter(outer, outerHeaders, family, info, f, x, hs, r, g, k);
    }
  }

  // ----- The program's own steps, one after the other

  /** new_tcp_packet, packet_encapsulate and send_live_ip_packet for one packet of a script. */
  method SendThroughTunnel(outer: Packet, family: AddressFamily, direction: Direction, info: IpInfo, f: TcpFields)
    returns (packet: Packet?)
    requires OuterStack(outer, IpKind(family)) && outer.headers != [] && IsIp(outer.headers[0].kind)
    requires |outer.headers| + 2 <= PACKET_MAX_HEADERS && outer.ipBytes + f.IpBytes(family) <= 0xFFFF
    ensures packet != null <==> f.Accepted(family, direction)
    ensures packet != null ==>
              && AsParsed(packet.Meta())
              && Outgoing(packet.buffer[..], packet.headers, outer.buffer[..outer.ipBytes], outer.headers,
                          family, info, f)
  {
    var inner := NewTcpPacket(family, direction, info, f);
    if inner == null {
      return null;
    }
    ghost var o := outer.buffer[..outer.ipBytes];
    packet := TunnelSegmentPacket(outer, inner, family, direction, info, f);
    SendLiveIpPacket(packet, packet.headers[|packet.headers| - 2], packet.headers[|packet.headers| - 1]);
    assert outer.buffer[..outer.ipBytes] == o;
  }

  /** With its checksums filled in, the packet is what should go out. */
  predicate Ready(b: seq<byte>, hs: seq<Header>, outer: seq<byte>, outerHeaders: seq<Header>,
                  family: AddressFamily, info: IpInfo, f: TcpFields) {
    && Parse(b, PACKET_LAYER_3_IP) == Ok(hs) && |hs| >= 2
    && Checkable(hs[|hs| - 2], hs[|hs| - 1]) && Summable(b, hs[|hs| - 2], hs[|hs| - 1])
    && Outgoing(Checksummed(b, hs[|hs| - 2], hs[|hs| - 1]), hs, outer, outerHeaders, family, info, f)
  }

  lemma TunnelReady(outer: seq<byte>, outerHeaders: seq<Header>, family: AddressFamily, direction: Direction,
                    info: IpInfo, f: TcpFields, d: Draft)
    requires Tunnelled(outer, outerHeaders, family, direction, f)
    requires Room(outer + f.Bytes(family, info), outerHeaders + Shift(f.Headers(family), |outer|))
    requires d == Encapsulated(outer, outerHeaders, f.Bytes(family, info), f.Headers(family)) && |d.headers| >= 2
    ensures Ready(d.bytes, d.headers, outer, outerHeaders, family, info, f)
  {
    TunnelOutgoing(outer, outerHeaders, family, direction, info, f, d, d.headers[|d.headers| - 2],
                   d.headers[|d.headers| - 1]);
  }

  /** packet_encapsulate for a built segment. */
  method TunnelSegmentPacket(outer: Packet, inner: Packet, family: AddressFamily, direction: Direction,
                             info: IpInfo, f: TcpFields)
    returns (packet: Packet)
    requires outer.ipBytes <= outer.buffer.Length
    requires Tunnelled(outer.buffer[..outer.ipBytes], outer.headers, family, direction, f)
    requires inner.buffer[..] == f.Bytes(family, info) && inner.Meta() == TcpMeta(family, f)
    ensures fresh(packet) && fresh(packet.buffer) && AsParsed(packet.Meta())
    ensures Ready(packet.buffer[..], packet.headers, outer.buffer[..outer.ipBytes], outer.headers, family, info, f)
  {
    ghost var o := outer.buffer[..outer.ipBytes];
    SegmentLength(family, f);
    BuiltAsParsed(family, f);
    EncapsulatedTcpRoundTrip(o, outer.headers, family, direction, info, f);
    assert inner.buffer[..BytesUsed(inner.Meta())] == f.Bytes(family, info);
    packet := PacketEncapsulate(outer, inner);
    EncapsulatedAsParsed(o, outer.headers, f.Bytes(family, info), TcpMeta(family, f),
                         Draft(packet.buffer[..], packet.headers));
    TunnelReady(o, outer.headers, family, direction, info, f, Draft(packet.buffer[..], packet.headers));
  }
}
