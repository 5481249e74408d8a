/**
  What the parser makes of the packets that it does not accept: exactly which are PACKET_UNKNOWN_L4,
  and that a fragment at any depth is PACKET_BAD.
 */
module Rejections {
  import opened Bytes
  import opened WireFormat
  import opened PacketParser
  import opened Encapsulation
  import opened PacketChecksum
  import opened WireOctets

  /** The parse function for a header of this type; len counts for those that fill what carries them. */
  function ParseKind(b: seq<byte>, kind: HeaderType, p: nat, len: nat, n: nat): Parsed
    requires p + len <= |b|
  {
    match kind
    case IPV4 => ParseIpv4(b, p, n)
    case IPV6 => ParseIpv6(b, p, n)
    case GRE => ParseGre(b, p, len, n)
    case MPLS => ParseMpls(b, p, n)
    case TCP => ParseTcp(b, p, len, n)
    case UDP => ParseUdp(b, p, len, n)
    case ICMPV4 => ParseIcmp(ICMPV4, p, len, n)
    case ICMPV6 => ParseIcmp(ICMPV6, p, len, n)
  }

  /** The type that a protocol octet announces, if the parser knows it. */
  predicate KnownProtocol(protocol: int) {
    exists kind: HeaderType :: Announces(protocol, kind)
  }

  predicate KnownEtherType(b: seq<byte>, o: nat) {
    || (At(b, o) == 0x08 && At(b, o + 1) == 0x00) || (At(b, o) == 0x86 && At(b, o + 1) == 0xDD)
    || (At(b, o) == 0x88 && (At(b, o + 1) == 0x47 || At(b, o + 1) == 0x48))
  }

  /** h announces something that the parser does not know. */
  predicate Dangles(b: seq<byte>, h: Header) {
    match h.kind
    case IPV4 => !KnownProtocol(At(b, h.offset + 9))
    case IPV6 => !KnownProtocol(At(b, h.offset + 6))
    case GRE => !KnownEtherType(b, h.offset + 2)
    case _ => false
  }

  /** A chain of well-formed headers whose last one announces something unknown. */
  predicate Dangling(b: seq<byte>, hs: seq<Header>) {
    && hs != [] && HeaderOctets(b, hs[0])
    && if |hs| == 1 then Dangles(b, hs[0]) else NextOctets(b, hs[0], hs[1]) && Dangling(b, hs[1..])
  }

  lemma {:induction false} KnownKind(b: seq<byte>, p: nat, protocol: byte, len: nat, n: nat, kind: HeaderType)
    requires p + len <= |b| && Announces(protocol, kind)
    ensures ParseLayer4(b, p, protocol, len, n) == ParseKind(b, kind, p, len, n)
    ensures protocol == IpProto(kind) && !kind.MPLS?
  {
  }

  lemma {:induction false} UnknownProtocol(b: seq<byte>, p: nat, protocol: byte, len: nat, n: nat)
    requires p + len <= |b| && !KnownProtocol(protocol)
    ensures ParseLayer4(b, p, protocol, len, n) == UnknownL4
  {
    assert !Announces(protocol, TCP) && !Announces(protocol, UDP) && !Announces(protocol, ICMPV4);
    assert !Announces(protocol, ICMPV6) && !Announces(protocol, GRE);
    assert !Announces(protocol, IPV4) && !Announces(protocol, IPV6);
  }

  /** What a GRE header or the Ethernet type at o announces, and where it is. */
  lemma {:induction false} KnownType(b: seq<byte>, o: nat, g: Header, n: nat)
    requires EtherTypeOctets(b, o, g) && HeaderOctets(b, g)
    ensures g.offset <= |b|
    ensures ParseLayer3ByProto(b, Be16(b, o), g.offset, n) == ParseKind(b, g.kind, g.offset, g.totalBytes, n)
  {
  }

  lemma {:induction false} UnknownType(b: seq<byte>, o: nat, p: nat, n: nat)
    requires p <= |b| && !KnownEtherType(b, o)
    ensures ParseLayer3ByProto(b, Be16(b, o), p, n) == UnknownL4
  {
  }

  // ----- A dangling chain is an unknown packet

  lemma {:induction false} MplsEnds(b: seq<byte>, h: Header)
    requires h.kind.MPLS? && HeaderOctets(b, h)
    ensures MplsStackEnd(b, h.offset) == h.offset + h.headerBytes
  {
    HeaderOkOctets(b, h);
    MplsStackEndIff(b, h.offset, h.offset + h.headerBytes);
  }

  /** If what hs[0] carries comes out as not accepted, then so does hs[0]. */
  lemma {:induction false} CarrierPasses(b: seq<byte>, h: Header, g: Header, n: nat, r: Parsed)
    requires HeaderOctets(b, h) && HeaderOctets(b, g) && NextOctets(b, h, g) && n < PACKET_MAX_HEADERS
    requires !r.Ok? && ParseKind(b, g.kind, g.offset, g.totalBytes, n + 1) == r
    ensures ParseKind(b, h.kind, h.offset, h.totalBytes, n) == r
  {
    match h.kind {
      case IPV4 => IpPasses(b, h, g, At(b, h.offset + 9), n, r);
      case IPV6 => IpPasses(b, h, g, At(b, h.offset + 6), n, r);
      case GRE => GrePasses(b, h, g, n, r);
      case MPLS => LabelsPass(b, h, g, n, r);
    }
  }

  lemma {:induction false} IpPasses(b: seq<byte>, h: Header, g: Header, protocol: byte, n: nat, r: Parsed)
    requires IsIp(h.kind) && HeaderOctets(b, h) && NextOctets(b, h, g) && n < PACKET_MAX_HEADERS
    requires protocol == At(b, if h.kind.IPV4? then h.offset + 9 else h.offset + 6)
    requires g.offset + g.totalBytes <= |b|
    requires !r.Ok? && ParseKind(b, g.kind, g.offset, g.totalBytes, n + 1) == r
    ensures ParseKind(b, h.kind, h.offset, h.totalBytes, n) == r
  {
    HeaderOkOctets(b, h);
    KnownKind(b, g.offset, protocol, h.totalBytes - h.headerBytes, n + 1, g.kind);
  }

  lemma {:induction false} GrePasses(b: seq<byte>, h: Header, g: Header, n: nat, r: Parsed)
    requires h.kind.GRE? && HeaderOctets(b, h) && HeaderOctets(b, g) && NextOctets(b, h, g) && n < PACKET_MAX_HEADERS
    requires !r.Ok? && ParseKind(b, g.kind, g.offset, g.totalBytes, n + 1) == r
    ensures ParseGre(b, h.offset, h.totalBytes, n) == r
  {
    HeaderOkOctets(b, h);
    KnownType(b, h.offset + 2, g, n + 1);
  }

  lemma {:induction false} LabelsPass(b: seq<byte>, h: Header, g: Header, n: nat, r: Parsed)
    requires h.kind.MPLS? && HeaderOctets(b, h) && HeaderOctets(b, g) && NextOctets(b, h, g) && n < PACKET_MAX_HEADERS
    requires !r.Ok? && ParseKind(b, g.kind, g.offset, g.totalBytes, n + 1) == r
    ensures ParseMpls(b, h.offset, n) == r
  {
    MplsEnds(b, h);
    assert MplsStackEnd(b, h.offset) == g.offset && g.offset + 20 <= |b|;
    assert ParseLayer3(b, g.offset, n + 1) == r;
  }

  lemma {:induction false} DangleUnknown(b: seq<byte>, h: Header, n: nat)
    requires HeaderOctets(b, h) && Dangles(b, h) && n < PACKET_MAX_HEADERS
    ensures ParseKind(b, h.kind, h.offset, h.totalBytes, n) == UnknownL4
  {
    HeaderOkOctets(b, h);
    var p, len := h.offset + h.headerBytes, h.totalBytes - h.headerBytes;
    match h.kind {
      case IPV4 => UnknownProtocol(b, p, At(b, h.offset + 9), len, n + 1);
      case IPV6 => UnknownProtocol(b, p, At(b, h.offset + 6), len, n + 1);
      case GRE => UnknownType(b, h.offset + 2, p, n + 1);
    }
  }

  lemma {:induction false} DanglingUnknown(b: seq<byte>, hs: seq<Header>, n: nat)
    requires Dangling(b, hs) && n + |hs| <= PACKET_MAX_HEADERS
    ensures ParseKind(b, hs[0].kind, hs[0].offset, hs[0].totalBytes, n) == UnknownL4
    decreases |hs|
  {
    if |hs| == 1 {
      DangleUnknown(b, hs[0], n);
    } else {
      DanglingUnknown(b, hs[1..], n + 1);
      CarrierPasses(b, hs[0], hs[1], n, UnknownL4);
    }
  }

  // ----- An unknown packet is a dangling chain

  /** The header that a parse function appends, once its checks are passed. */
  lemma {:induction false} UnknownChain(b: seq<byte>, kind: HeaderType, p: nat, len: nat, n: nat)
    returns (hs: seq<Header>)
    requires p + len <= |b| && ParseKind(b, kind, p, len, n) == UnknownL4
    ensures Dangling(b, hs) && n + |hs| <= PACKET_MAX_HEADERS
    ensures hs[0].kind == kind && hs[0].offset == p && (IsIp(kind) || kind.MPLS? || hs[0].totalBytes == len)
    decreases |b| - p, 1
  {
    match kind {
      case IPV4 => hs := UnknownBehind(b, Header(IPV4, p, Ipv4HeaderLen(b, p), Be16(b, p + 2)), At(b, p + 9), n);
      case IPV6 => hs := UnknownBehind(b, Header(IPV6, p, 40, 40 + Be16(b, p + 4)), At(b, p + 6), n);
      case GRE => hs := UnknownInGre(b, Header(GRE, p, GreLen(b, p), len), n);
      case MPLS => hs := UnknownInMpls(b, Header(MPLS, p, MplsStackEnd(b, p) - p, |b| - p), n);
      case _ =>
    }
  }

  lemma {:induction false} UnknownBehind(b: seq<byte>, h: Header, protocol: byte, n: nat) returns (hs: seq<Header>)
    requires IsIp(h.kind) && HeaderOk(b, h) && n < PACKET_MAX_HEADERS
    requires protocol == At(b, if h.kind.IPV4? then h.offset + 9 else h.offset + 6)
    requires ParseLayer4(b, h.offset + h.headerBytes, protocol, h.totalBytes - h.headerBytes, n + 1) == UnknownL4
    ensures Dangling(b, hs) && n + |hs| <= PACKET_MAX_HEADERS && hs[0] == h
    decreases |b| - h.offset, 0
  {
    HeaderOkOctets(b, h);
    if KnownProtocol(protocol) {
      var kind: HeaderType :| Announces(protocol, kind);
      var q, len := h.offset + h.headerBytes, h.totalBytes - h.headerBytes;
      KnownKind(b, q, protocol, len, n + 1, kind);
      var rest := UnknownChain(b, kind, q, len, n + 1);
      hs := [h] + rest;
      assert hs[1..] == rest;
    } else {
      hs := [h];
    }
  }

  lemma {:induction false} UnknownInGre(b: seq<byte>, h: Header, n: nat) returns (hs: seq<Header>)
    requires h.kind.GRE? && HeaderOk(b, h) && n < PACKET_MAX_HEADERS
    requires ParseLayer3ByProto(b, Be16(b, h.offset + 2), h.offset + h.headerBytes, n + 1) == UnknownL4
    ensures Dangling(b, hs) && n + |hs| <= PACKET_MAX_HEADERS && hs[0] == h
    decreases |b| - h.offset, 0
  {
    HeaderOkOctets(b, h);
    var q := h.offset + h.headerBytes;
    if KnownEtherType(b, h.offset + 2) {
      var rest := UnknownByType(b, h.offset + 2, q, n + 1);
      hs := [h] + rest;
      assert hs[1..] == rest;
    } else {
      hs := [h];
    }
  }

  lemma {:induction false} UnknownByType(b: seq<byte>, o: nat, p: nat, n: nat) returns (hs: seq<Header>)
    requires p <= |b| && KnownEtherType(b, o) && ParseLayer3ByProto(b, Be16(b, o), p, n) == UnknownL4
    ensures Dangling(b, hs) && n + |hs| <= PACKET_MAX_HEADERS && hs[0].offset == p && EtherTypeOctets(b, o, hs[0])
    decreases |b| - p, 2
  {
    var kind := if At(b, o) == 0x08 then IPV4 else if At(b, o) == 0x86 then IPV6 else MPLS;
    hs := UnknownChain(b, kind, p, |b| - p, n);
  }

  lemma {:induction false} UnknownInMpls(b: seq<byte>, h: Header, n: nat) returns (hs: seq<Header>)
    requires h.kind.MPLS? && h.offset <= |b| && ParseMpls(b, h.offset, n) == UnknownL4
    requires h == Header(MPLS, h.offset, MplsStackEnd(b, h.offset) - h.offset, |b| - h.offset)
    ensures Dangling(b, hs) && n + |hs| <= PACKET_MAX_HEADERS && hs[0] == h
    decreases |b| - h.offset, 0
  {
    var q := h.offset + h.headerBytes;
    MplsStackEndIff(b, h.offset, q);
    HeaderOkOctets(b, h);
    var rest := UnknownChain(b, if IpVersion(b, q) == 4 then IPV4 else IPV6, q, |b| - q, n + 1);
    hs := [h] + rest;
    assert hs[1..] == rest;
  }

  // ----- The outcome for whole packets

  /** A capture that starts with such a chain, or with an Ethernet type that the parser does not know. */
  predicate UnknownPacket(b: seq<byte>, layer: Layer, hs: seq<Header>) {
    if hs == [] then layer.PACKET_LAYER_2_ETHERNET? && |b| >= 14 && !KnownEtherType(b, 12)
    else StartOctets(b, layer, hs[0]) && Dangling(b, hs) && |hs| <= 6
  }

  /** PACKET_UNKNOWN_L4 is the answer exactly to chains of well-formed headers that announce something unknown. */
  lemma {:induction false} UnknownIff(b: seq<byte>, layer: Layer)
    ensures Parse(b, layer) == UnknownL4 <==> exists hs :: UnknownPacket(b, layer, hs)
  {
    if Parse(b, layer) == UnknownL4 {
      var hs := UnknownWitness(b, layer);
      assert UnknownPacket(b, layer, hs);
    }
    forall hs | UnknownPacket(b, layer, hs) ensures Parse(b, layer) == UnknownL4 {
      UnknownParses(b, layer, hs);
    }
  }

  lemma {:induction false} UnknownWitness(b: seq<byte>, layer: Layer) returns (hs: seq<Header>)
    requires Parse(b, layer) == UnknownL4
    ensures UnknownPacket(b, layer, hs)
  {
    if layer.PACKET_LAYER_3_IP? {
      hs := UnknownChain(b, if IpVersion(b, 0) == 4 then IPV4 else IPV6, 0, |b|, 0);
    } else if KnownEtherType(b, 12) {
      hs := UnknownByType(b, 12, 14, 0);
    } else {
      hs := [];
    }
  }

  lemma {:induction false} UnknownParses(b: seq<byte>, layer: Layer, hs: seq<Header>)
    requires UnknownPacket(b, layer, hs)
    ensures Parse(b, layer) == UnknownL4
  {
    if hs == [] {
      UnknownType(b, 12, 14, 0);
    } else {
      DanglingUnknown(b, hs, 0);
      FirstParses(b, layer, hs[0]);
    }
  }

  lemma {:induction false} FirstParses(b: seq<byte>, layer: Layer, h: Header)
    requires HeaderOctets(b, h) && StartOctets(b, layer, h)
    ensures Parse(b, layer) == ParseKind(b, h.kind, h.offset, h.totalBytes, 0)
  {
    if layer.PACKET_LAYER_2_ETHERNET? {
      KnownType(b, 12, h, 0);
    }
  }

  // ----- Fragments, at any depth

  /** d is b but for the fragment field of the IPv4 header at o and for its checksum, and d has a fragment there. */
  predicate MadeFragment(b: seq<byte>, d: seq<byte>, o: nat) {
    && |d| == |b|
    && (forall k :: 0 <= k < |b| && !(o + 6 <= k < o + 8) && !(o + 10 <= k < o + 12) ==> d[k] == b[k])
    && (At(d, o + 6) / 0x20 % 2 == 1 || At(d, o + 6) % 0x20 != 0 || At(d, o + 7) != 0)
  }

  lemma {:induction false} FragmentInside(b: seq<byte>, d: seq<byte>, hs: seq<Header>, i: nat, n: nat)
    requires Encodes(b, hs) && i < |hs| && hs[i].kind.IPV4? && MadeFragment(b, d, hs[i].offset)
    requires n + i < PACKET_MAX_HEADERS
    ensures hs[0].offset <= hs[i].offset && hs[0].offset + hs[0].totalBytes <= |d|
    ensures ParseKind(d, hs[0].kind, hs[0].offset, hs[0].totalBytes, n) == Bad
    decreases i
  {
    if i == 0 {
      FragmentBits(d, hs[0].offset);
    } else {
      FragmentInside(b, d, hs[1..], i - 1, n + 1);
      CarrierKept(b, d, hs[0], hs[1], hs[i].offset);
      HeaderOkOctets(d, hs[0]);
      LinkOctets(d, hs[0], hs[1]);
      BadPasses(d, hs[0], hs[1], n);
    }
  }

  /** The octets in front of the fragment, and its version, are those of b. */
  lemma {:induction false} CarrierKept(b: seq<byte>, d: seq<byte>, h: Header, g: Header, o: nat)
    requires HeaderOk(b, h) && Link(b, h, g) && g.offset <= o && |d| == |b|
    requires forall k :: 0 <= k < |b| && !(o + 6 <= k < o + 8) && !(o + 10 <= k < o + 12) ==> d[k] == b[k]
    ensures HeaderOk(d, h) && Link(d, h, g)
  {
    HeaderOkPrefix(b, d, h, h.offset + h.headerBytes);
    LinkPrefix(b, d, h, g, h.offset + h.headerBytes);
  }

  /** As CarrierPasses, where what h carries may be malformed. */
  lemma {:induction false} BadPasses(b: seq<byte>, h: Header, g: Header, n: nat)
    requires HeaderOctets(b, h) && NextOctets(b, h, g) && n < PACKET_MAX_HEADERS && g.offset + g.totalBytes <= |b|
    requires ParseKind(b, g.kind, g.offset, g.totalBytes, n + 1) == Bad
    ensures ParseKind(b, h.kind, h.offset, h.totalBytes, n) == Bad
  {
    match h.kind {
      case IPV4 => IpPasses(b, h, g, At(b, h.offset + 9), n, Bad);
      case IPV6 => IpPasses(b, h, g, At(b, h.offset + 6), n, Bad);
      case GRE =>
        HeaderOkOctets(b, h);
        TypeBad(b, h.offset + 2, g, n + 1);
      case MPLS =>
        MplsEnds(b, h);
        assert ParseLayer3(b, g.offset, n + 1) == Bad;
    }
  }

  lemma {:induction false} TypeBad(b: seq<byte>, o: nat, g: Header, n: nat)
    requires EtherTypeOctets(b, o, g) && g.offset + g.totalBytes <= |b|
    requires ParseKind(b, g.kind, g.offset, g.totalBytes, n) == Bad
    ensures ParseLayer3ByProto(b, Be16(b, o), g.offset, n) == Bad
  {
  }

  /**
    A fragment is rejected, however deep it is: setting any bit of the more-fragments flag or of the
    fragment offset in any IPv4 header of an accepted packet, whatever becomes of the header's
    checksum, makes the packet PACKET_BAD.
   */
  lemma {:induction false} FragmentIsBad(b: seq<byte>, d: seq<byte>, layer: Layer, hs: seq<Header>, i: nat)
    requires Parse(b, layer) == Ok(hs) && i < |hs| && hs[i].kind.IPV4? && MadeFragment(b, d, hs[i].offset)
    ensures Parse(d, layer) == Bad
  {
    ParseIff(b, layer, hs);
    FragmentInside(b, d, hs, i, 0);
    FragmentStart(b, d, layer, hs[0], hs[i].offset);
  }

  lemma {:induction false} FragmentStart(b: seq<byte>, d: seq<byte>, layer: Layer, h: Header, o: nat)
    requires Entry(b, layer, h) && h.offset <= o && MadeFragment(b, d, o) && h.offset + h.totalBytes <= |d|
    requires ParseKind(d, h.kind, h.offset, h.totalBytes, 0) == Bad
    ensures Parse(d, layer) == Bad
  {
  }
}
