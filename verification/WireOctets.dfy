/** The accepted packets octet by octet, whatever functions the parser reads fields with. */
module WireOctets {
  // Every field the parser looks at, at its place in the header and with its bits, as RFC 791, RFC 8200,
  // RFC 2784 and 2890, RFC 3032, RFC 9293 and RFC 768 lay them out.

  import opened Bytes
  import opened Checksum
  import opened WireFormat
  import opened PacketParser

  // ----- One header

  predicate Ipv4Octets(b: seq<byte>, o: nat, headerBytes: nat, totalBytes: nat) {
    && At(b, o) % 16 * 4 == headerBytes && 20 <= headerBytes
    && At(b, o + 2) * 256 + At(b, o + 3) == totalBytes
    && At(b, o + 6) / 32 % 2 == 0                            // no more fragments
    && At(b, o + 6) % 32 == 0 && At(b, o + 7) == 0           // fragment offset 0
    && o + headerBytes <= |b| && OnesSum(b[o..o + headerBytes]) == 65535
  }

  predicate Ipv6Octets(b: seq<byte>, o: nat, headerBytes: nat, totalBytes: nat) {
    headerBytes == 40 && 40 + At(b, o + 4) * 256 + At(b, o + 5) == totalBytes
  }

  /** Version 0, no routing; four octets each for checksum, key and sequence number. */
  predicate GreOctets(b: seq<byte>, o: nat, headerBytes: nat) {
    && At(b, o + 1) % 8 == 0 && At(b, o) / 64 % 2 == 0
    && headerBytes == 4 + (if At(b, o) / 128 == 1 then 4 else 0) + (if At(b, o) / 32 % 2 == 1 then 4 else 0)
                      + if At(b, o) / 16 % 2 == 1 then 4 else 0
  }

  /** Whole entries, the last and only the last with the bottom bit, which ends the third octet. */
  predicate MplsOctets(b: seq<byte>, o: nat, headerBytes: nat) {
    && headerBytes >= 4 && headerBytes % 4 == 0
    && forall i :: 0 <= i < headerBytes / 4 ==> (At(b, o + 4 * i + 2) % 2 == 1 <==> 4 * i + 4 == headerBytes)
  }

  predicate HeaderOctets(b: seq<byte>, h: Header) {
    && h.headerBytes <= h.totalBytes && h.offset + h.totalBytes <= |b|
    && match h.kind
       case IPV4 => Ipv4Octets(b, h.offset, h.headerBytes, h.totalBytes)
       case IPV6 => Ipv6Octets(b, h.offset, h.headerBytes, h.totalBytes)
       case GRE => GreOctets(b, h.offset, h.headerBytes)
       case MPLS => MplsOctets(b, h.offset, h.headerBytes) && h.offset + h.totalBytes == |b|
       case TCP => At(b, h.offset + 12) / 16 * 4 == h.headerBytes && 20 <= h.headerBytes
       case UDP => h.headerBytes == 8 && At(b, h.offset + 4) * 256 + At(b, h.offset + 5) == h.totalBytes
       case ICMPV4 => h.headerBytes == 8
       case ICMPV6 => h.headerBytes == 8
  }

  // ----- From one header to the next

  /** The protocol numbers that the parser knows. */
  predicate Announces(protocol: int, kind: HeaderType) {
    match kind
    case ICMPV4 => protocol == 1
    case IPV4 => protocol == 4
    case TCP => protocol == 6
    case UDP => protocol == 17
    case IPV6 => protocol == 41
    case GRE => protocol == 47
    case ICMPV6 => protocol == 58
    case MPLS => false
  }

  /** The first four bits of an IP header. */
  predicate VersionOctet(b: seq<byte>, h: Header) {
    (h.kind.IPV4? && At(b, h.offset) / 16 == 4) || (h.kind.IPV6? && At(b, h.offset) / 16 == 6)
  }

  /** An Ethernet type in the two octets at o: IPv4, IPv6, or MPLS unicast or multicast. */
  predicate EtherTypeOctets(b: seq<byte>, o: nat, h: Header) {
    var high, low := At(b, o), At(b, o + 1);
    || (high == 0x08 && low == 0x00 && h.kind.IPV4? && VersionOctet(b, h))
    || (high == 0x86 && low == 0xDD && h.kind.IPV6? && VersionOctet(b, h))
    || (high == 0x88 && (low == 0x47 || low == 0x48) && h.kind.MPLS?)
  }

  /** What h announces is g: by the protocol octet of an IP header, the Ethernet type of GRE, or the version. */
  predicate NextOctets(b: seq<byte>, h: Header, g: Header) {
    && g.offset == h.offset + h.headerBytes
    && match h.kind
       case IPV4 => Announces(At(b, h.offset + 9), g.kind) && Fills(h, g)
       case IPV6 => Announces(At(b, h.offset + 6), g.kind) && Fills(h, g)
       case GRE => EtherTypeOctets(b, h.offset + 2, g)
       case MPLS => VersionOctet(b, g)
       case _ => false
  }

  /** What is directly in an IP datagram takes its rest, except for another datagram with a length of its own. */
  predicate Fills(h: Header, g: Header) {
    g.kind.IPV4? || g.kind.IPV6? || h.headerBytes + g.totalBytes == h.totalBytes
  }

  predicate Layer4(k: HeaderType) { k == TCP || k == UDP || k == ICMPV4 || k == ICMPV6 }

  /** A chain of such headers that ends in one of layer 4. */
  predicate StackOctets(b: seq<byte>, hs: seq<Header>) {
    && hs != [] && Layer4(hs[|hs| - 1].kind)
    && (forall i :: 0 <= i < |hs| ==> HeaderOctets(b, hs[i]))
    && forall i :: 0 <= i < |hs| - 1 ==> NextOctets(b, hs[i], hs[i + 1])
  }

  /** Where a capture of either kind starts. */
  predicate StartOctets(b: seq<byte>, layer: Layer, h: Header) {
    match layer
    case PACKET_LAYER_3_IP => h.offset == 0 && VersionOctet(b, h)
    case PACKET_LAYER_2_ETHERNET => h.offset == 14 <= |b| && EtherTypeOctets(b, 12, h)
  }

  // ----- The parser, the declarative format and the octets agree

  lemma HeaderOkOctets(b: seq<byte>, h: Header)
    ensures HeaderOk(b, h) <==> HeaderOctets(b, h)
  {
    match h.kind {
      case MPLS => MplsOkOctets(b, h);
      case IPV4 => FragmentBits(b, h.offset);
      case _ =>
    }
  }

  lemma FragmentBits(b: seq<byte>, o: nat)
    ensures IsFragment(b, o) <==> !(At(b, o + 6) / 32 % 2 == 0 && At(b, o + 6) % 32 == 0 && At(b, o + 7) == 0)
  {
  }

  lemma MplsOkOctets(b: seq<byte>, h: Header)
    ensures MplsOk(b, h) <==> MplsOctets(b, h.offset, h.headerBytes) && h.offset + h.totalBytes == |b|
  {
    var o, n := h.offset, h.headerBytes;
    if n >= 4 && n % 4 == 0 {
      assert forall i :: 0 <= i < n / 4 ==> (IsStackBottom(b, o + 4 * i) <==> At(b, o + 4 * i + 2) % 2 == 1);
    }
  }

  lemma LinkOctets(b: seq<byte>, h: Header, g: Header)
    ensures Link(b, h, g) <==> NextOctets(b, h, g)
  {
  }

  lemma {:induction false} EncodesOctets(b: seq<byte>, hs: seq<Header>)
    ensures Encodes(b, hs) <==> StackOctets(b, hs)
  {
    if Encodes(b, hs) {
      forall i | 0 <= i < |hs|
        ensures HeaderOctets(b, hs[i]) && (i < |hs| - 1 ==> NextOctets(b, hs[i], hs[i + 1]))
      {
        EncodesEach(b, hs, i);
        HeaderOkOctets(b, hs[i]);
        if i < |hs| - 1 {
          LinkOctets(b, hs[i], hs[i + 1]);
        }
      }
      EncodesEach(b, hs, |hs| - 1);
    }
    if StackOctets(b, hs) {
      OctetsEncode(b, hs);
    }
  }

  lemma {:induction false} OctetsEncode(b: seq<byte>, hs: seq<Header>)
    requires StackOctets(b, hs)
    ensures Encodes(b, hs)
  {
    forall i | 0 <= i < |hs| ensures HeaderOk(b, hs[i]) {
      HeaderOkOctets(b, hs[i]);
    }
    forall i | 0 <= i < |hs| - 1 ensures Link(b, hs[i], hs[i + 1]) {
      LinkOctets(b, hs[i], hs[i + 1]);
    }
    EncodesFromEach(b, hs);
  }

  /** For every octet string and header stack: the parser returns that stack if and only if the octets say so. */
  lemma {:induction false} ParseOctetsIff(b: seq<byte>, layer: Layer, hs: seq<Header>)
    ensures Parse(b, layer) == Ok(hs) <==> StackOctets(b, hs) && StartOctets(b, layer, hs[0]) && |hs| <= 6
  {
    ParseIff(b, layer, hs);
    EncodesOctets(b, hs);
  }

  /** No accepted packet holds a fragment: the more-fragments bit and the fragment offset are zero. */
  lemma {:induction false} AcceptsNoFragment(b: seq<byte>, layer: Layer, hs: seq<Header>, i: nat)
    requires Parse(b, layer) == Ok(hs) && i < |hs| && hs[i].kind.IPV4?
    ensures var o := hs[i].offset;
            At(b, o + 6) / 0x20 % 2 == 0 && At(b, o + 6) % 0x20 == 0 && At(b, o + 7) == 0
  {
    ParseOctetsIff(b, layer, hs);
    assert HeaderOctets(b, hs[i]);
  }
}
