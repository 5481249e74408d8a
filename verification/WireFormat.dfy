/**
  What it means for a byte string to carry a stack of headers: a declarative description of the
  wire format, header by header and link by link, with no parsing in it.
 */
module WireFormat {
  import opened Bytes
  import opened Checksum

  datatype HeaderType = IPV4 | IPV6 | GRE | MPLS | TCP | UDP | ICMPV4 | ICMPV6

  /** struct header: the pointer is an offset into the buffer; the type HEADER_NONE is absence from the list. */
  datatype Header = Header(kind: HeaderType, offset: nat, headerBytes: nat, totalBytes: nat)

  const PACKET_MAX_HEADERS := 6

  const ETHERTYPE_IP: u16 := 0x0800
  const ETHERTYPE_IPV6: u16 := 0x86DD
  const ETHERTYPE_MPLS_UC: u16 := 0x8847
  const ETHERTYPE_MPLS_MC: u16 := 0x8848

  /** The header_types table: the IP protocol number of each header type (0 if there is none). */
  function IpProto(k: HeaderType): byte {
    match k
    case IPV4 => 4
    case IPV6 => 41
    case GRE => 47
    case MPLS => 0
    case TCP => 6
    case UDP => 17
    case ICMPV4 => 1
    case ICMPV6 => 58
  }

  /** The header_types table: the Ethernet protocol number of each header type (0 if there is none). */
  function EthProto(k: HeaderType): u16 {
    match k
    case IPV4 => ETHERTYPE_IP
    case IPV6 => ETHERTYPE_IPV6
    case MPLS => ETHERTYPE_MPLS_UC
    case _ => 0
  }

  predicate IsIp(k: HeaderType) { k.IPV4? || k.IPV6? }

  predicate IsLayer4(k: HeaderType) { k.TCP? || k.UDP? || k.ICMPV4? || k.ICMPV6? }

  // ----- Fields

  function IpVersion(b: seq<byte>, o: nat): nat { At(b, o) / 0x10 }

  function Ipv4HeaderLen(b: seq<byte>, o: nat): nat { At(b, o) % 0x10 * 4 }

  /** IP_MF or a non-zero IP_OFFMASK part of frag_off. */
  predicate IsFragment(b: seq<byte>, o: nat) { Be16(b, o + 6) % 0x4000 != 0 }

  function TcpHeaderLen(b: seq<byte>, o: nat): nat { At(b, o + 12) / 0x10 * 4 }

  predicate GreSupported(b: seq<byte>, o: nat) {
    At(b, o + 1) % 8 == 0 && At(b, o) / 0x40 % 2 == 0
  }

  /** gre_len: 4 octets plus 4 for each of checksum, key and sequence number. */
  function GreLen(b: seq<byte>, o: nat): nat {
    4 + At(b, o) / 0x80 * 4 + At(b, o) / 0x20 % 2 * 4 + At(b, o) / 0x10 % 2 * 4
  }

  /** The "bottom of stack" bit of the label stack entry at o. */
  predicate IsStackBottom(b: seq<byte>, o: nat) { At(b, o + 2) % 2 == 1 }

  // ----- One header

  predicate Ipv4Ok(b: seq<byte>, h: Header) {
    && h.headerBytes == Ipv4HeaderLen(b, h.offset) >= 20
    && h.totalBytes == Be16(b, h.offset + 2)
    && !IsFragment(b, h.offset)
    && h.offset + h.headerBytes <= |b|
    && WireChecksum(b[h.offset..h.offset + h.headerBytes]) == 0
  }

  predicate Ipv6Ok(b: seq<byte>, h: Header) {
    && h.headerBytes == 40
    && h.totalBytes == 40 + Be16(b, h.offset + 4)
  }

  predicate GreOk(b: seq<byte>, h: Header) {
    && GreSupported(b, h.offset)
    && h.headerBytes == GreLen(b, h.offset)
  }

  /** k label stack entries at o, of which the last and only the last is the bottom. */
  predicate LabelStack(b: seq<byte>, o: nat, k: nat) {
    forall i :: 0 <= i < k ==> (IsStackBottom(b, o + 4 * i) <==> i == k - 1)
  }

  /** Whole label stack entries; what they carry reaches to the end of the capture. */
  predicate MplsOk(b: seq<byte>, h: Header) {
    && h.headerBytes >= 4
    && h.headerBytes % 4 == 0
    && h.offset + h.totalBytes == |b|
    && LabelStack(b, h.offset, h.headerBytes / 4)
  }

  predicate TcpOk(b: seq<byte>, h: Header) {
    h.headerBytes == TcpHeaderLen(b, h.offset) >= 20
  }

  predicate UdpOk(b: seq<byte>, h: Header) {
    h.headerBytes == 8 && h.totalBytes == Be16(b, h.offset + 4)
  }

  predicate HeaderOk(b: seq<byte>, h: Header) {
    && h.headerBytes <= h.totalBytes
    && h.offset + h.totalBytes <= |b|
    && match h.kind
       case IPV4 => Ipv4Ok(b, h)
       case IPV6 => Ipv6Ok(b, h)
       case GRE => GreOk(b, h)
       case MPLS => MplsOk(b, h)
       case TCP => TcpOk(b, h)
       case UDP => UdpOk(b, h)
       case ICMPV4 => h.headerBytes == 8
       case ICMPV6 => h.headerBytes == 8
  }

  // ----- From one header to the next

  /** An IP header announces g by protocol number; what is not IP again takes exactly the rest of the datagram. */
  predicate IpLink(protocol: byte, h: Header, g: Header) {
    && protocol == IpProto(g.kind)
    && !g.kind.MPLS?
    && (IsIp(g.kind) || g.totalBytes == h.totalBytes - h.headerBytes)
  }

  /** A header announced by an IP version number. */
  predicate VersionLink(b: seq<byte>, g: Header) {
    (g.kind.IPV4? && IpVersion(b, g.offset) == 4) || (g.kind.IPV6? && IpVersion(b, g.offset) == 6)
  }

  /** A header announced by an Ethernet protocol number. */
  predicate EthLink(b: seq<byte>, proto: u16, g: Header) {
    || (proto == ETHERTYPE_IP && g.kind.IPV4? && VersionLink(b, g))
    || (proto == ETHERTYPE_IPV6 && g.kind.IPV6? && VersionLink(b, g))
    || (proto in {ETHERTYPE_MPLS_UC, ETHERTYPE_MPLS_MC} && g.kind.MPLS?)
  }

  predicate Link(b: seq<byte>, h: Header, g: Header) {
    && g.offset == h.offset + h.headerBytes
    && match h.kind
       case IPV4 => IpLink(At(b, h.offset + 9), h, g)
       case IPV6 => IpLink(At(b, h.offset + 6), h, g)
       case GRE => EthLink(b, Be16(b, h.offset + 2), g)
       case MPLS => VersionLink(b, g)
       case _ => false
  }

  /** b carries exactly the header stack hs, which ends in a layer 4 header. */
  predicate Encodes(b: seq<byte>, hs: seq<Header>) {
    && hs != []
    && HeaderOk(b, hs[0])
    && if |hs| == 1 then IsLayer4(hs[0].kind) else Link(b, hs[0], hs[1]) && Encodes(b, hs[1..])
  }

  // ----- Consequences

  /** Every header of an encoded stack is well formed, linked to the next, and only the last is layer 4. */
  lemma {:induction false} EncodesEach(b: seq<byte>, hs: seq<Header>, i: nat)
    requires Encodes(b, hs) && i < |hs|
    ensures HeaderOk(b, hs[i]) && Encodes(b, hs[i..])
    ensures i + 1 < |hs| ==> Link(b, hs[i], hs[i + 1])
    ensures IsLayer4(hs[i].kind) <==> i + 1 == |hs|
  {
    if i > 0 {
      EncodesEach(b, hs[1..], i - 1);
      assert hs[1..][i - 1..] == hs[i..];
    }
  }

  /** The converse: headers that are well formed and linked one by one make an encoded stack. */
  lemma {:induction false} EncodesFromEach(b: seq<byte>, hs: seq<Header>)
    requires hs != [] && IsLayer4(hs[|hs| - 1].kind)
    requires forall i :: 0 <= i < |hs| ==> HeaderOk(b, hs[i])
    requires forall i :: 0 <= i < |hs| - 1 ==> Link(b, hs[i], hs[i + 1])
    ensures Encodes(b, hs)
  {
    if |hs| > 1 {
      var rest := hs[1..];
      forall i | 0 <= i < |rest| - 1 ensures Link(b, rest[i], rest[i + 1]) {
        assert Link(b, hs[i + 1], hs[i + 2]);
      }
      EncodesFromEach(b, rest);
    }
  }

  /** Directly under the layer 4 header is an IP header. */
  lemma {:induction false} EncodesIpInnermost(b: seq<byte>, hs: seq<Header>)
    requires Encodes(b, hs) && |hs| >= 2
    ensures IsIp(hs[|hs| - 2].kind) && Encodes(b, hs[|hs| - 2..])
  {
    EncodesEach(b, hs, |hs| - 2);
    EncodesEach(b, hs, |hs| - 1);
  }
}
