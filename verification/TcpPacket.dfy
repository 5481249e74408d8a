/** Building IP headers and TCP segments (ip_packet.c, tcp_packet.c). */
module TcpPacket {
  import opened Wrappers
  import opened Bytes
  import opened Checksum
  import opened WireFormat
  import opened PacketParser
  import opened Packets
  import Encapsulation
  import opened Encapsulate
  import opened PacketChecksum

  datatype Direction = DIRECTION_INBOUND | DIRECTION_OUTBOUND

  datatype AddressFamily = AF_INET | AF_INET6

  /** struct ip_info, without the check flags that only concern verification of sniffed packets. */
  datatype IpInfo = IpInfo(tos: byte, flowLabel: u32, ttl: byte)

  const TTL_CHECK_NONE: byte := 255
  const MAX_TCP_HEADER_BYTES := 60
  const MAX_TCP_DATAGRAM_BYTES := 0x1_0000

  function IpKind(family: AddressFamily): HeaderType {
    if family.AF_INET? then IPV4 else IPV6
  }

  /** ip_header_min_len. */
  function IpHeaderMinLen(family: AddressFamily): nat {
    if family.AF_INET? then 20 else 40
  }

  function Zeros(n: nat): (z: seq<byte>)
    ensures |z| == n
  {
    seq(n, _ => 0)
  }

  /** What set_ipv4_header stores. */
  function Ipv4HeaderBytes(ipBytes: u16, tos: byte, ttl: byte, protocol: byte): (r: seq<byte>)
    ensures |r| == 20
  {
    [0x45, tos] + Octets16(ipBytes) + [0, 0, 0, 0]
    + [if ttl != 0 then ttl else TTL_CHECK_NONE, protocol, 0, 0] + Zeros(8)
  }

  /** What set_ipv6_header stores; it asserts that ip_bytes covers the header. */
  function Ipv6HeaderBytes(ipBytes: u16, tos: byte, flowLabel: u32, hopLimit: byte, protocol: byte): (r: seq<byte>)
    requires ipBytes >= 40
    ensures |r| == 40
  {
    [0x60 + tos / 0x10, tos % 0x10 * 0x10 + flowLabel / 0x1_0000 % 0x10] + Octets16(flowLabel % 0x1_0000)
    + Octets16(ipBytes - 40) + [protocol, if hopLimit != 0 then hopLimit else TTL_CHECK_NONE] + Zeros(32)
  }

  function IpHeaderBytes(family: AddressFamily, ipBytes: u16, info: IpInfo, protocol: byte): (r: seq<byte>)
    requires family.AF_INET6? ==> ipBytes >= 40
    ensures |r| == IpHeaderMinLen(family)
  {
    if family.AF_INET? then Ipv4HeaderBytes(ipBytes, info.tos, info.ttl, protocol)
    else Ipv6HeaderBytes(ipBytes, info.tos, info.flowLabel, info.ttl, protocol)
  }

  /** is_tcp_flag_set. */
  function Flag(c: char, flags: string): (r: nat)
    ensures r <= 1
  {
    if c in flags then 1 else 0
  }

  /** The script's choices for one TCP segment. */
  datatype TcpFields = TcpFields(srcPort: u16, dstPort: u16, flags: string, startSequence: u32, ackSequence: u32,
                                 window: int, urgPtr: u16, options: Option<seq<byte>>, payloadBytes: u16)
  {
    function OptionBytes(): seq<byte> {
      if options.Some? then options.value else []
    }

    function HeaderBytes(): nat {
      20 + |OptionBytes()|
    }

    function FlagByte(): byte {
      Flag('F', flags) + 2 * Flag('S', flags) + 4 * Flag('R', flags) + 8 * Flag('P', flags)
      + 16 * Flag('.', flags) + 32 * Flag('U', flags) + 64 * Flag('E', flags) + 128 * Flag('W', flags)
    }

    /** The window field: none when the script leaves it out, otherwise truncated to 16 bits. */
    function Window(): u16 {
      if window == -1 then 0 else window % 0x1_0000
    }

    /** The TCP header with its options, its checksum still zero. */
    function Header(): (r: seq<byte>)
      requires HeaderBytes() <= MAX_TCP_HEADER_BYTES
      ensures |r| == HeaderBytes()
    {
      Octets16(srcPort) + Octets16(dstPort) + Octets32(startSequence) + Octets32(ackSequence)
      + [HeaderBytes() / 4 * 0x10, FlagByte()] + Octets16(Window()) + [0, 0] + Octets16(urgPtr) + OptionBytes()
    }

    function IpBytes(family: AddressFamily): nat {
      IpHeaderMinLen(family) + HeaderBytes() + payloadBytes
    }

    /** The arguments that new_tcp_packet accepts. */
    predicate Accepted(family: AddressFamily, direction: Direction) {
      && |OptionBytes()| % 4 == 0
      && HeaderBytes() <= MAX_TCP_HEADER_BYTES
      && IpBytes(family) <= MAX_TCP_DATAGRAM_BYTES
      && (forall c :: c in flags ==> c in "FSRP.EWCU")
      && (window == -1 ==> direction.DIRECTION_OUTBOUND?)
    }

    /** The IP and TCP headers as the builder records them: the IP length has passed through a 16-bit parameter. */
    function Headers(family: AddressFamily): seq<WireFormat.Header> {
      [WireFormat.Header(IpKind(family), 0, IpHeaderMinLen(family), IpBytes(family) % 0x1_0000),
       WireFormat.Header(TCP, IpHeaderMinLen(family), HeaderBytes(), HeaderBytes() + payloadBytes)]
    }

    /** The whole packet. */
    function Bytes(family: AddressFamily, info: IpInfo): (r: seq<byte>)
      requires HeaderBytes() <= MAX_TCP_HEADER_BYTES
      requires family.AF_INET6? ==> IpBytes(family) % 0x1_0000 >= 40
      ensures |r| == IpBytes(family)
    {
      IpHeaderBytes(family, IpBytes(family) % 0x1_0000, info, IpProto(TCP)) + Header() + Zeros(payloadBytes)
    }
  }

  method StoreSeq(buffer: array<byte>, i: nat, s: seq<byte>)
    requires i + |s| <= buffer.Length
    modifies buffer
    ensures buffer[..] == Splice(old(buffer[..]), i, s)
  {
    forall k | 0 <= k < |s| {
      buffer[i + k] := s[k];
    }
  }

  /** set_packet_ip_header, on a zeroed buffer. The length arrives through a 16-bit parameter. */
  method SetPacketIpHeader(packet: Packet, family: AddressFamily, ipBytes: u16, info: IpInfo, protocol: byte)
    requires packet.headers == [] && packet.ipBytes == packet.l2HeaderBytes == 0
    requires packet.buffer.Length >= IpHeaderMinLen(family) && packet.ipv4.None? && packet.ipv6.None?
    requires family.AF_INET6? ==> ipBytes >= 40
    modifies packet, packet.buffer
    ensures packet.buffer == old(packet.buffer)
    ensures packet.buffer[..] == Splice(old(packet.buffer[..]), 0, IpHeaderBytes(family, ipBytes, info, protocol))
    ensures packet.Meta() == old(packet.Meta()).(
              headers := [Header(IpKind(family), 0, IpHeaderMinLen(family), ipBytes)],
              ipBytes := IpHeaderMinLen(family),
              ipv4 := if family.AF_INET? then Some(0) else None, ipv6 := if family.AF_INET6? then Some(0) else None)
  {
    if family.AF_INET? {
      packet.ipv4 := Some(0);
    } else {
      packet.ipv6 := Some(0);
    }
    var ok := packet.AppendHeader(IpKind(family), IpHeaderMinLen(family), ipBytes);
    StoreSeq(packet.buffer, 0, IpHeaderBytes(family, ipBytes, info, protocol));
  }

  /** is_tcp_flags_spec_valid. */
  method IsTcpFlagsSpecValid(flags: string) returns (ok: bool)
    ensures ok == forall c :: c in flags ==> c in "FSRP.EWCU"
  {
    for i := 0 to |flags|
      invariant forall k :: 0 <= k < i ==> flags[k] in "FSRP.EWCU"
    {
      if flags[i] !in "FSRP.EWCU" {
        return false;
      }
    }
    ok := true;
  }

  /** The next field of a header that is being written from o on. */
  method Put(buffer: array<byte>, ghost b0: seq<byte>, ghost o: nat, ghost done: seq<byte>, i: nat, s: seq<byte>)
    requires i == o + |done| && i + |s| <= buffer.Length == |b0|
    requires buffer[..] == Splice(b0, o, done)
    modifies buffer
    ensures buffer[..] == Splice(b0, o, done + s)
  {
    StoreSeq(buffer, i, s);
  }

  /** The field stores of new_tcp_packet from the start of the TCP header on. */
  method SetTcpHeader(buffer: array<byte>, o: nat, f: TcpFields)
    requires f.HeaderBytes() <= MAX_TCP_HEADER_BYTES && o + f.HeaderBytes() <= buffer.Length
    modifies buffer
    ensures buffer[..] == Splice(old(buffer[..]), o, f.Header())
  {
    ghost var b := buffer[..];
    StoreSeq(buffer, o, Octets16(f.srcPort));
    ghost var d := Octets16(f.srcPort);
    Put(buffer, b, o, d, o + 2, Octets16(f.dstPort));
    d := d + Octets16(f.dstPort);
    Put(buffer, b, o, d, o + 4, Octets32(f.startSequence));
    d := d + Octets32(f.startSequence);
    Put(buffer, b, o, d, o + 8, Octets32(f.ackSequence));
    d := d + Octets32(f.ackSequence);
    Put(buffer, b, o, d, o + 12, [f.HeaderBytes() / 4 * 0x10, f.FlagByte()]);
    d := d + [f.HeaderBytes() / 4 * 0x10, f.FlagByte()];
    Put(buffer, b, o, d, o + 14, Octets16(f.Window()));
    d := d + Octets16(f.Window());
    Put(buffer, b, o, d, o + 16, [0, 0]);
    d := d + [0, 0];
    Put(buffer, b, o, d, o + 18, Octets16(f.urgPtr));
    d := d + Octets16(f.urgPtr);
    Put(buffer, b, o, d, o + 20, f.OptionBytes());
  }

  /** The argument checks of new_tcp_packet. */
  method CheckTcpFields(family: AddressFamily, direction: Direction, f: TcpFields) returns (ok: bool)
    ensures ok == f.Accepted(family, direction)
  {
    var tcpHeaderBytes := f.HeaderBytes();
    var ipBytes := IpHeaderMinLen(family) + tcpHeaderBytes + f.payloadBytes;
    if |f.OptionBytes()| % 4 != 0 {
      return false;
    }
    if tcpHeaderBytes > MAX_TCP_HEADER_BYTES {
      return false;
    }
    if ipBytes > MAX_TCP_DATAGRAM_BYTES {
      return false;
    }
    ok := IsTcpFlagsSpecValid(f.flags);
    if f.window == -1 && direction.DIRECTION_INBOUND? {
      return false;
    }
  }

  /** What new_tcp_packet records about the packet it has built. */
  function TcpMeta(family: AddressFamily, f: TcpFields): Metadata {
    Metadata(0, f.IpBytes(family), f.Headers(family),
             if family.AF_INET? then Some(0) else None, if family.AF_INET6? then Some(0) else None,
             Some(IpHeaderMinLen(family)), None, None, None)
  }

  /** new_tcp_packet. On IPv6 the length must survive its 16-bit parameter: set_ipv6_header asserts so. */
  method NewTcpPacket(family: AddressFamily, direction: Direction, info: IpInfo, f: TcpFields) returns (packet: Packet?)
    requires family.AF_INET6? ==> f.IpBytes(family) != 0x1_0000
    ensures packet != null <==> f.Accepted(family, direction)
    ensures packet != null ==>
              && fresh(packet) && fresh(packet.buffer)
              && packet.buffer[..] == f.Bytes(family, info)
              && packet.Meta() == TcpMeta(family, f)
  {
    var ok := CheckTcpFields(family, direction, f);
    if !ok {
      return null;
    }
    packet := BuildTcpPacket(family, info, f);
  }

  method BuildTcpPacket(family: AddressFamily, info: IpInfo, f: TcpFields) returns (packet: Packet)
    requires family.AF_INET6? ==> f.IpBytes(family) != 0x1_0000
    requires f.HeaderBytes() <= MAX_TCP_HEADER_BYTES && f.IpBytes(family) <= MAX_TCP_DATAGRAM_BYTES
    ensures fresh(packet) && fresh(packet.buffer)
    ensures packet.buffer[..] == f.Bytes(family, info)
    ensures packet.Meta() == TcpMeta(family, f)
  {
    var ipHeaderBytes, tcpHeaderBytes := IpHeaderMinLen(family), f.HeaderBytes();
    var ipBytes := ipHeaderBytes + tcpHeaderBytes + f.payloadBytes;
    packet := NewZeroed(ipBytes);
    SetPacketIpHeader(packet, family, ipBytes % 0x1_0000, info, IpProto(TCP));
    var ok := packet.AppendHeader(TCP, tcpHeaderBytes, tcpHeaderBytes + f.payloadBytes);
    packet.tcp := Some(ipHeaderBytes);
    SetTcpHeader(packet.buffer, ipHeaderBytes, f);
    packet.ipBytes := ipBytes;
    BytesOverZeros(family, info, f);
  }

  /** A new packet whose buffer has been cleared. */
  method NewZeroed(bufferBytes: nat) returns (packet: Packet)
    ensures fresh(packet) && fresh(packet.buffer) && packet.buffer[..] == Zeros(bufferBytes)
    ensures packet.Meta() == Metadata(0, 0, [], None, None, None, None, None, None)
  {
    packet := new Packet(bufferBytes);
    StoreSeq(packet.buffer, 0, Zeros(bufferBytes));
    assert packet.buffer[..] == Splice(Zeros(bufferBytes), 0, Zeros(bufferBytes));
  }

  /** Two headers written into zeros leave zeros behind them. */
  lemma OverZeros(first: seq<byte>, second: seq<byte>, rest: nat)
    ensures var n := |first| + |second| + rest;
            Splice(Splice(Zeros(n), 0, first), |first|, second) == first + second + Zeros(rest)
  {
  }

  lemma BytesOverZeros(family: AddressFamily, info: IpInfo, f: TcpFields)
    requires family.AF_INET6? ==> f.IpBytes(family) % 0x1_0000 >= 40
    requires f.HeaderBytes() <= MAX_TCP_HEADER_BYTES
    ensures var ip, n := IpHeaderMinLen(family), f.IpBytes(family);
            Splice(Splice(Zeros(n), 0, IpHeaderBytes(family, n % 0x1_0000, info, IpProto(TCP))), ip, f.Header())
            == f.Bytes(family, info)
  {
    OverZeros(IpHeaderBytes(family, f.IpBytes(family) % 0x1_0000, info, IpProto(TCP)), f.Header(), f.payloadBytes);
  }

  // ----- What the parser makes of it

  /** b starts with an IP header of the family for a datagram of ipBytes octets of TCP. */
  predicate StartsIp(family: AddressFamily, b: seq<byte>, ipBytes: nat) {
    if family.AF_INET? then
      At(b, 0) == 0x45 && Be16(b, 2) == ipBytes && Be16(b, 6) == 0 && At(b, 9) == IpProto(TCP)
    else
      ipBytes >= 40 && IpVersion(b, 0) == 6 && Be16(b, 4) == ipBytes - 40 && At(b, 6) == IpProto(TCP)
  }

  lemma IpHeaderFields(family: AddressFamily, ipBytes: u16, info: IpInfo, rest: seq<byte>)
    requires family.AF_INET6? ==> ipBytes >= 40
    ensures StartsIp(family, IpHeaderBytes(family, ipBytes, info, IpProto(TCP)) + rest, ipBytes)
  {
  }

  lemma TcpHeaderField(front: seq<byte>, f: TcpFields, rest: seq<byte>)
    requires f.HeaderBytes() <= MAX_TCP_HEADER_BYTES && |f.OptionBytes()| % 4 == 0
    ensures TcpHeaderLen(front + f.Header() + rest, |front|) == f.HeaderBytes()
  {
    assert (front + f.Header() + rest)[|front| + 12] == f.Header()[12] == f.HeaderBytes() / 4 * 0x10;
  }

  lemma BuiltUnchecked(family: AddressFamily, b: seq<byte>, tcpBytes: nat)
    requires |b| <= 0xFFFF && StartsIp(family, b, |b|)
    requires 20 <= tcpBytes == TcpHeaderLen(b, IpHeaderMinLen(family)) && IpHeaderMinLen(family) + tcpBytes <= |b|
    ensures var (h, g) := Built(family, |b|, tcpBytes); Unchecked(b, h, g) && VersionLink(b, h)
  {
  }

  /** The headers of such a packet. */
  function Built(family: AddressFamily, n: nat, tcpBytes: nat): (WireFormat.Header, WireFormat.Header)
    requires n >= IpHeaderMinLen(family)
  {
    var ip := IpHeaderMinLen(family);
    (WireFormat.Header(IpKind(family), 0, ip, n), WireFormat.Header(TCP, ip, tcpBytes, n - ip))
  }

  lemma {:induction false} BuiltStackable(b: seq<byte>, h: WireFormat.Header, g: WireFormat.Header)
    requires Unchecked(b, h, g) && h.offset == 0 && h.totalBytes == |b| && g.kind.TCP?
    requires h.kind.IPV4? ==> At(b, 0) == 0x45
    requires h.kind.IPV6? ==> IpVersion(b, 0) == 6
    ensures Encapsulation.Stackable(b, [h, g])
  {
    assert [h, g][1..] == [g];
    ShellOf(b, h, g);
  }

  lemma ShellOf(b: seq<byte>, h: WireFormat.Header, g: WireFormat.Header)
    requires Unchecked(b, h, g) && h.offset == 0 && h.totalBytes == |b|
    requires h.kind.IPV4? ==> At(b, 0) == 0x45
    requires h.kind.IPV6? ==> IpVersion(b, 0) == 6
    ensures Encapsulation.Shell(b, h) && Encapsulation.LengthFits(|b|, h)
  {
  }

  lemma SegmentStarts(family: AddressFamily, info: IpInfo, f: TcpFields, b: seq<byte>)
    requires f.HeaderBytes() <= MAX_TCP_HEADER_BYTES && f.IpBytes(family) <= 0xFFFF && b == f.Bytes(family, info)
    ensures StartsIp(family, b, |b|)
  {
    var n: u16, rest := f.IpBytes(family), Zeros(f.payloadBytes);
    Regroup(IpHeaderBytes(family, n, info, IpProto(TCP)), f.Header(), rest);
    IpHeaderFields(family, n, info, f.Header() + rest);
  }

  lemma SegmentFields(family: AddressFamily, info: IpInfo, f: TcpFields, b: seq<byte>)
    requires f.HeaderBytes() <= MAX_TCP_HEADER_BYTES && |f.OptionBytes()| % 4 == 0 && f.IpBytes(family) <= 0xFFFF
    requires b == f.Bytes(family, info)
    ensures StartsIp(family, b, |b|) && TcpHeaderLen(b, IpHeaderMinLen(family)) == f.HeaderBytes()
  {
    SegmentStarts(family, info, f, b);
    TcpHeaderField(IpHeaderBytes(family, |b|, info, IpProto(TCP)), f, Zeros(f.payloadBytes));
  }

  /** A built segment of at most 65535 octets is complete but for its checksums, and can be encapsulated. */
  lemma TcpUnchecked(family: AddressFamily, direction: Direction, info: IpInfo, f: TcpFields)
    requires f.Accepted(family, direction) && f.IpBytes(family) <= 0xFFFF
    ensures var b, hs := f.Bytes(family, info), f.Headers(family);
            Unchecked(b, hs[0], hs[1]) && VersionLink(b, hs[0]) && Encapsulation.Stackable(b, hs)
  {
    SegmentUnchecked(family, info, f, f.Bytes(family, info), f.Headers(family));
  }

  lemma {:induction false} SegmentUnchecked(family: AddressFamily, info: IpInfo, f: TcpFields, b: seq<byte>,
                                            hs: seq<WireFormat.Header>)
    requires f.HeaderBytes() <= MAX_TCP_HEADER_BYTES && |f.OptionBytes()| % 4 == 0 && f.IpBytes(family) <= 0xFFFF
    requires b == f.Bytes(family, info) && hs == f.Headers(family)
    ensures Unchecked(b, hs[0], hs[1]) && VersionLink(b, hs[0]) && Encapsulation.Stackable(b, hs)
  {
    SegmentFields(family, info, f, b);
    FromFields(family, b, f.HeaderBytes(), hs);
  }

  lemma {:induction false} FromFields(family: AddressFamily, b: seq<byte>, tcpBytes: nat, hs: seq<WireFormat.Header>)
    requires |b| <= 0xFFFF && StartsIp(family, b, |b|)
    requires 20 <= tcpBytes == TcpHeaderLen(b, IpHeaderMinLen(family)) && IpHeaderMinLen(family) + tcpBytes <= |b|
    requires hs == [Built(family, |b|, tcpBytes).0, Built(family, |b|, tcpBytes).1]
    ensures Unchecked(b, hs[0], hs[1]) && VersionLink(b, hs[0]) && Encapsulation.Stackable(b, hs)
  {
    BuiltUnchecked(family, b, tcpBytes);
    BuiltStackable(b, hs[0], hs[1]);
  }

  /**
    Build, checksum, parse: every segment of at most 65535 octets that new_tcp_packet builds is
    accepted by the parser with exactly the headers the builder recorded, and its TCP checksum
    verifies at the receiver.
   */
  lemma TcpRoundTrip(family: AddressFamily, direction: Direction, info: IpInfo, f: TcpFields)
    requires f.Accepted(family, direction) && f.IpBytes(family) <= 0xFFFF
    ensures var b, hs := f.Bytes(family, info), f.Headers(family);
            && Unchecked(b, hs[0], hs[1])
            && var r := Checksummed(b, hs[0], hs[1]);
               && Parse(r, PACKET_LAYER_3_IP) == Ok(hs)
               && WireChecksum(Pseudo(r, hs[0], hs[1]) + r[hs[1].offset..]) == 0
  {
    TcpUnchecked(family, direction, info, f);
    var b, hs := f.Bytes(family, info), f.Headers(family);
    assert hs == [hs[0], hs[1]];
    FilledRoundTrip(b, hs[0], hs[1]);
  }

  lemma FilledRoundTrip(b: seq<byte>, h: WireFormat.Header, g: WireFormat.Header)
    requires Unchecked(b, h, g) && h.offset == 0 && VersionLink(b, h) && g.offset + g.totalBytes == |b|
    ensures var r := Checksummed(b, h, g);
            Parse(r, PACKET_LAYER_3_IP) == Ok([h, g]) && WireChecksum(Pseudo(r, h, g) + r[g.offset..]) == 0
  {
    assert [h, g][1..] == [g];
    ChecksummedParses(b, [h, g], h, g, PACKET_LAYER_3_IP);
    FilledVerifies(b, h, g, Checksummed(b, h, g));
  }

  lemma FilledVerifies(b: seq<byte>, h: WireFormat.Header, g: WireFormat.Header, r: seq<byte>)
    requires Summable(b, h, g) && g.offset + g.totalBytes == |b| && r == Checksummed(b, h, g)
    ensures WireChecksum(Pseudo(r, h, g) + r[g.offset..]) == 0
  {
    ChecksummedVerifies(b, h, g);
    assert r[g.offset..] == r[g.offset..g.offset + g.totalBytes];
  }

  /**
    The one accepted size for which this fails: 65536 octets pass the builder's limit, but the
    length field wraps to zero. Such a packet is not fit for checksum_packet, whatever checksums it
    holds the parser rejects it, and 65535 is therefore exactly the largest size that works.
   */
  lemma TcpFitsIff(direction: Direction, info: IpInfo, f: TcpFields, r: seq<byte>)
    requires f.Accepted(AF_INET, direction)
    requires |r| == f.IpBytes(AF_INET) && r[..4] == f.Bytes(AF_INET, info)[..4]
    ensures var hs := f.Headers(AF_INET);
            Unchecked(f.Bytes(AF_INET, info), hs[0], hs[1]) <==> f.IpBytes(AF_INET) <= 0xFFFF
    ensures f.IpBytes(AF_INET) > 0xFFFF ==> Parse(r, PACKET_LAYER_3_IP) == Bad
  {
    if f.IpBytes(AF_INET) <= 0xFFFF {
      TcpUnchecked(AF_INET, direction, info, f);
    } else {
      var b := f.Bytes(AF_INET, info);
      IpHeaderFields(AF_INET, 0, info, f.Header() + Zeros(f.payloadBytes));
      assert b == IpHeaderBytes(AF_INET, 0, info, IpProto(TCP)) + (f.Header() + Zeros(f.payloadBytes));
      assert forall k :: 0 <= k < 4 ==> r[k] == r[..4][k] == b[..4][k] == b[k];
      assert At(r, 0) == 0x45 && Be16(r, 2) == 0;
      assert IpVersion(r, 0) == 4 && !Ipv4Accepts(r, 0);
      assert ParseLayer3(r, 0, 0) == ParseIpv4(r, 0, 0) == Bad;
    }
  }

  /** There are such segments, in either direction: 65496 octets of payload behind a header without options. */
  lemma TcpOverflow(direction: Direction, flags: string, window: u16) returns (f: TcpFields)
    requires forall c :: c in flags ==> c in "FSRP.EWCU"
    ensures f.flags == flags && f.Accepted(AF_INET, direction) && f.IpBytes(AF_INET) == 0x1_0000
  {
    f := TcpFields(0, 0, flags, 0, 0, window, 0, None, 65496);
  }
}
