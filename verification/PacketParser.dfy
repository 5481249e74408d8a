/** The mutually recursive packet parser (packet_parser.c), as a function of the captured bytes. */
module PacketParser {
  import opened Bytes
  import opened Checksum
  import opened WireFormat

  datatype Layer = PACKET_LAYER_2_ETHERNET | PACKET_LAYER_3_IP

  const ETHER_HEADER_BYTES := 14

  /** PACKET_OK with the headers found, PACKET_UNKNOWN_L4 or PACKET_BAD. */
  datatype Parsed = Ok(headers: seq<Header>) | UnknownL4 | Bad

  function Prepend(h: Header, rest: Parsed): Parsed {
    if rest.Ok? then Ok([h] + rest.headers) else rest
  }

  /** The checks of parse_ipv4 before it appends its header. */
  predicate Ipv4Accepts(b: seq<byte>, p: nat) {
    && 20 <= Ipv4HeaderLen(b, p) <= Be16(b, p + 2)
    && p + Be16(b, p + 2) <= |b|
    && !IsFragment(b, p)
    && WireChecksum(b[p..p + Ipv4HeaderLen(b, p)]) == 0
  }

  // In what follows b is the capture, p the current offset and n the number of headers already
  // appended. Bytes strictly decrease from one header to the next; the rank orders the calls that
  // stay at one offset.

  function ParseIpv4(b: seq<byte>, p: nat, n: nat): (r: Parsed)
    requires p <= |b|
    ensures r.Ok? ==> |r.headers| >= 2
    decreases |b| - p, 0
  {
    if !Ipv4Accepts(b, p) || n >= PACKET_MAX_HEADERS then Bad
    else
      var headerBytes := Ipv4HeaderLen(b, p);
      var totalBytes := Be16(b, p + 2);
      Prepend(Header(IPV4, p, headerBytes, totalBytes),
              ParseLayer4(b, p + headerBytes, At(b, p + 9), totalBytes - headerBytes, n + 1))
  }

  function ParseIpv6(b: seq<byte>, p: nat, n: nat): (r: Parsed)
    requires p <= |b|
    ensures r.Ok? ==> |r.headers| >= 2
    decreases |b| - p, 0
  {
    var totalBytes := 40 + Be16(b, p + 4);
    if p + 40 > |b| || p + totalBytes > |b| then Bad
    else if n >= PACKET_MAX_HEADERS then Bad
    else Prepend(Header(IPV6, p, 40, totalBytes), ParseLayer4(b, p + 40, At(b, p + 6), totalBytes - 40, n + 1))
  }

  function ParseLayer4(b: seq<byte>, p: nat, protocol: byte, len: nat, n: nat): (r: Parsed)
    requires p + len <= |b|
    ensures r.Ok? ==> |r.headers| >= 1
    decreases |b| - p, 1
  {
    if protocol == IpProto(TCP) then ParseTcp(b, p, len, n)
    else if protocol == IpProto(UDP) then ParseUdp(b, p, len, n)
    else if protocol == IpProto(ICMPV4) then ParseIcmp(ICMPV4, p, len, n)
    else if protocol == IpProto(ICMPV6) then ParseIcmp(ICMPV6, p, len, n)
    else if protocol == IpProto(GRE) then ParseGre(b, p, len, n)
    else if protocol == IpProto(IPV4) then ParseIpv4(b, p, n)
    else if protocol == IpProto(IPV6) then ParseIpv6(b, p, n)
    else UnknownL4
  }

  function ParseTcp(b: seq<byte>, p: nat, len: nat, n: nat): Parsed {
    if len < 20 || TcpHeaderLen(b, p) < 20 || TcpHeaderLen(b, p) > len then Bad
    else if n >= PACKET_MAX_HEADERS then Bad
    else Ok([Header(TCP, p, TcpHeaderLen(b, p), len)])
  }

  function ParseUdp(b: seq<byte>, p: nat, len: nat, n: nat): Parsed {
    if len < 8 || Be16(b, p + 4) < 8 || Be16(b, p + 4) != len then Bad
    else if n >= PACKET_MAX_HEADERS then Bad
    else Ok([Header(UDP, p, 8, len)])
  }

  /** parse_icmpv4 and parse_icmpv6 differ in the header type only. */
  function ParseIcmp(kind: HeaderType, p: nat, len: nat, n: nat): Parsed {
    if len < 8 || n >= PACKET_MAX_HEADERS then Bad else Ok([Header(kind, p, 8, len)])
  }

  function ParseGre(b: seq<byte>, p: nat, len: nat, n: nat): (r: Parsed)
    requires p + len <= |b|
    ensures r.Ok? ==> |r.headers| >= 3
    decreases |b| - p, 0
  {
    if len < 4 || !GreSupported(b, p) || GreLen(b, p) > len then Bad
    else if n >= PACKET_MAX_HEADERS then Bad
    else Prepend(Header(GRE, p, GreLen(b, p), len),
                 ParseLayer3ByProto(b, Be16(b, p + 2), p + GreLen(b, p), n + 1))
  }

  /**
    Where the label stack at p ends: after the bottom entry, or where the capture ends; -1 if an entry
    overflows it.
   */
  function MplsStackEnd(b: seq<byte>, p: nat): (e: int)
    ensures e == -1 || (p + 4 <= e <= |b| && (e - p) % 4 == 0)
    decreases |b| - p
  {
    if p + 4 > |b| then -1
    else if IsStackBottom(b, p) || p + 4 == |b| then p + 4
    else MplsStackEnd(b, p + 4)
  }

  function ParseMpls(b: seq<byte>, p: nat, n: nat): (r: Parsed)
    requires p <= |b|
    ensures r.Ok? ==> |r.headers| >= 3
    decreases |b| - p, 0
  {
    var end := MplsStackEnd(b, p);
    if end == -1 then Bad
    else if n >= PACKET_MAX_HEADERS then Bad
    else Prepend(Header(MPLS, p, end - p, |b| - p), ParseLayer3(b, end, n + 1))
  }

  function ParseLayer3(b: seq<byte>, p: nat, n: nat): (r: Parsed)
    requires p <= |b|
    ensures r.Ok? ==> |r.headers| >= 2
    decreases |b| - p, 1
  {
    if p + 20 > |b| then Bad
    else if IpVersion(b, p) == 4 then ParseIpv4(b, p, n)
    else if IpVersion(b, p) == 6 then ParseIpv6(b, p, n)
    else Bad
  }

  function ParseLayer3ByProto(b: seq<byte>, proto: u16, p: nat, n: nat): (r: Parsed)
    requires p <= |b|
    ensures r.Ok? ==> |r.headers| >= 2
    decreases |b| - p, 1
  {
    if proto == ETHERTYPE_IP then
      if p + 20 > |b| || IpVersion(b, p) != 4 then Bad else ParseIpv4(b, p, n)
    else if proto == ETHERTYPE_IPV6 then
      if p + 40 > |b| || IpVersion(b, p) != 6 then Bad else ParseIpv6(b, p, n)
    else if proto == ETHERTYPE_MPLS_UC || proto == ETHERTYPE_MPLS_MC then ParseMpls(b, p, n)
    else UnknownL4
  }

  /** parse_packet, from Ethernet or from IP. */
  function Parse(b: seq<byte>, layer: Layer): Parsed {
    if layer.PACKET_LAYER_3_IP? then ParseLayer3(b, 0, 0)
    else if ETHER_HEADER_BYTES > |b| then Bad
    else ParseLayer3ByProto(b, Be16(b, 12), ETHER_HEADER_BYTES, 0)
  }

  // ----- The parser accepts exactly the wire format

  predicate FitsStack(hs: seq<Header>, n: nat) { n + |hs| <= PACKET_MAX_HEADERS }

  predicate Starts(hs: seq<Header>, kind: HeaderType, p: nat) {
    hs != [] && hs[0].kind == kind && hs[0].offset == p
  }

  lemma {:induction false} Ipv4Iff(b: seq<byte>, p: nat, n: nat, hs: seq<Header>)
    requires p <= |b|
    ensures ParseIpv4(b, p, n) == Ok(hs) <==> Starts(hs, IPV4, p) && FitsStack(hs, n) && Encodes(b, hs)
    decreases |b| - p, 0
  {
    if hs != [] && Ipv4HeaderLen(b, p) >= 20 {
      var h := hs[0];
      var rest := hs[1..];
      assert hs == [h] + rest;
      var q := p + Ipv4HeaderLen(b, p);
      var total := Be16(b, p + 2);
      if p + total <= |b| && q <= p + total {
        Layer4Iff(b, q, At(b, p + 9), p + total - q, n + 1, rest);
      }
    }
  }

  lemma {:induction false} Ipv6Iff(b: seq<byte>, p: nat, n: nat, hs: seq<Header>)
    requires p <= |b|
    ensures ParseIpv6(b, p, n) == Ok(hs) <==> Starts(hs, IPV6, p) && FitsStack(hs, n) && Encodes(b, hs)
    decreases |b| - p, 0
  {
    var total := 40 + Be16(b, p + 4);
    if hs != [] && p + total <= |b| {
      assert hs == [hs[0]] + hs[1..];
      Layer4Iff(b, p + 40, At(b, p + 6), total - 40, n + 1, hs[1..]);
    }
  }

  /** What an IP header of the given protocol and payload length may carry at p. */
  predicate Layer4Starts(protocol: byte, len: nat, p: nat, hs: seq<Header>) {
    && hs != []
    && hs[0].offset == p
    && protocol == IpProto(hs[0].kind)
    && !hs[0].kind.MPLS?
    && (IsIp(hs[0].kind) || hs[0].totalBytes == len)
  }

  lemma {:induction false} Layer4Iff(b: seq<byte>, p: nat, protocol: byte, len: nat, n: nat, hs: seq<Header>)
    requires p + len <= |b|
    ensures ParseLayer4(b, p, protocol, len, n) == Ok(hs)
            <==> Layer4Starts(protocol, len, p, hs) && FitsStack(hs, n) && Encodes(b, hs)
    decreases |b| - p, 1
  {
    if protocol == IpProto(GRE) {
      GreIff(b, p, len, n, hs);
    } else if protocol == IpProto(IPV4) {
      Ipv4Iff(b, p, n, hs);
    } else if protocol == IpProto(IPV6) {
      Ipv6Iff(b, p, n, hs);
    } else if hs != [] && IsLayer4(hs[0].kind) {
      NothingFollowsLayer4(b, hs);
      assert |hs| == 1 ==> hs == [hs[0]];
    }
  }

  lemma {:induction false} NothingFollowsLayer4(b: seq<byte>, hs: seq<Header>)
    requires hs != [] && IsLayer4(hs[0].kind)
    ensures Encodes(b, hs) ==> |hs| == 1
  {
  }

  lemma {:induction false} GreIff(b: seq<byte>, p: nat, len: nat, n: nat, hs: seq<Header>)
    requires p + len <= |b|
    ensures ParseGre(b, p, len, n) == Ok(hs)
            <==> Starts(hs, GRE, p) && hs[0].totalBytes == len && FitsStack(hs, n) && Encodes(b, hs)
    decreases |b| - p, 0
  {
    if hs != [] && GreLen(b, p) <= len {
      assert hs == [hs[0]] + hs[1..];
      Layer3ByProtoIff(b, Be16(b, p + 2), p + GreLen(b, p), n + 1, hs[1..]);
    }
  }

  /** The loop stops at the first bottom entry, or at the end of the capture without having seen one. */
  lemma {:induction false} MplsStackEndIff(b: seq<byte>, p: nat, e: nat)
    requires p + 4 <= e <= |b| && (e - p) % 4 == 0
    ensures LabelStack(b, p, (e - p) / 4) ==> MplsStackEnd(b, p) == e
    ensures MplsStackEnd(b, p) == e < |b| ==> LabelStack(b, p, (e - p) / 4)
    decreases |b| - p
  {
    var k := (e - p) / 4;
    assert p + 4 * 0 == p;
    if k > 1 {
      MplsStackEndIff(b, p + 4, e);
      assert (e - (p + 4)) / 4 == k - 1;
      LabelStackTail(b, p, k);
    }
  }

  lemma LabelStackTail(b: seq<byte>, p: nat, k: nat)
    requires k > 1
    ensures LabelStack(b, p, k) <==> !IsStackBottom(b, p) && LabelStack(b, p + 4, k - 1)
  {
    if LabelStack(b, p, k) {
      assert !IsStackBottom(b, p + 4 * 0);
      forall i | 0 <= i < k - 1 ensures IsStackBottom(b, p + 4 + 4 * i) <==> i == k - 2 {
        assert p + 4 + 4 * i == p + 4 * (i + 1);
      }
    }
    if !IsStackBottom(b, p) && LabelStack(b, p + 4, k - 1) {
      forall i | 0 <= i < k ensures IsStackBottom(b, p + 4 * i) <==> i == k - 1 {
        assert i > 0 ==> p + 4 * i == p + 4 + 4 * (i - 1);
      }
    }
  }

  lemma {:induction false} MplsIff(b: seq<byte>, p: nat, n: nat, hs: seq<Header>)
    requires p <= |b|
    ensures ParseMpls(b, p, n) == Ok(hs) <==> Starts(hs, MPLS, p) && FitsStack(hs, n) && Encodes(b, hs)
    decreases |b| - p, 0
  {
    if Starts(hs, MPLS, p) && 4 <= hs[0].headerBytes <= |b| - p && hs[0].headerBytes % 4 == 0 {
      var e := p + hs[0].headerBytes;
      assert hs == [hs[0]] + hs[1..];
      MplsStackEndIff(b, p, e);
      Layer3Iff(b, e, n + 1, hs[1..]);
      if ParseMpls(b, p, n) == Ok(hs) {
        assert ParseLayer3(b, e, n + 1) == Ok(hs[1..]);
        assert Encodes(b, hs[1..]) && e < |b|;
      }
    }
  }

  lemma {:induction false} Layer3Iff(b: seq<byte>, p: nat, n: nat, hs: seq<Header>)
    requires p <= |b|
    ensures ParseLayer3(b, p, n) == Ok(hs)
            <==> hs != [] && hs[0].offset == p && VersionLink(b, hs[0]) && FitsStack(hs, n) && Encodes(b, hs)
    decreases |b| - p, 1
  {
    Ipv4Iff(b, p, n, hs);
    Ipv6Iff(b, p, n, hs);
  }

  lemma {:induction false} Layer3ByProtoIff(b: seq<byte>, proto: u16, p: nat, n: nat, hs: seq<Header>)
    requires p <= |b|
    ensures ParseLayer3ByProto(b, proto, p, n) == Ok(hs)
            <==> hs != [] && hs[0].offset == p && EthLink(b, proto, hs[0]) && FitsStack(hs, n) && Encodes(b, hs)
    decreases |b| - p, 1
  {
    Ipv4Iff(b, p, n, hs);
    Ipv6Iff(b, p, n, hs);
    MplsIff(b, p, n, hs);
  }

  /** How a capture of either kind announces its first header. */
  predicate Entry(b: seq<byte>, layer: Layer, h: Header) {
    if layer.PACKET_LAYER_3_IP? then h.offset == 0 && VersionLink(b, h)
    else h.offset == ETHER_HEADER_BYTES <= |b| && EthLink(b, Be16(b, 12), h)
  }

  /**
    The main theorem on parsing: for every byte string and every header stack, the parser returns
    PACKET_OK with exactly that stack if and only if the bytes encode it and it has at most six headers.
   */
  lemma {:induction false} ParseIff(b: seq<byte>, layer: Layer, hs: seq<Header>)
    ensures Parse(b, layer) == Ok(hs)
            <==> hs != [] && Entry(b, layer, hs[0]) && Encodes(b, hs) && |hs| <= PACKET_MAX_HEADERS
  {
    if layer.PACKET_LAYER_3_IP? {
      Layer3Iff(b, 0, 0, hs);
    } else if ETHER_HEADER_BYTES <= |b| {
      Layer3ByProtoIff(b, Be16(b, 12), ETHER_HEADER_BYTES, 0, hs);
    }
  }

  // ----- Consequences of the main theorem

  /** h lies inside a capture of the given length. */
  predicate Inside(h: Header, end: nat) {
    0 < h.headerBytes <= h.totalBytes && h.offset + h.totalBytes <= end
  }

  /** g is what h directly carries. */
  predicate Adjacent(h: Header, g: Header) {
    && g.offset == h.offset + h.headerBytes
    && !IsLayer4(h.kind)
    && (IsLayer4(g.kind) || g.kind.GRE? ==> IsIp(h.kind))
    && (g.kind.MPLS? ==> h.kind.GRE?)
  }

  /**
    Layout of every accepted packet: the headers are contiguous from the link layer on, each lies
    inside the capture, and their types are (encapsulation)* IP layer4.
   */
  lemma ParsedLayout(b: seq<byte>, layer: Layer, hs: seq<Header>)
    requires Parse(b, layer) == Ok(hs)
    ensures 2 <= |hs| <= PACKET_MAX_HEADERS
    ensures hs[0].offset == if layer.PACKET_LAYER_3_IP? then 0 else ETHER_HEADER_BYTES
    ensures IsIp(hs[0].kind) || (hs[0].kind.MPLS? && layer.PACKET_LAYER_2_ETHERNET?)
    ensures forall i :: 0 <= i < |hs| ==> Inside(hs[i], |b|)
    ensures forall i :: 0 <= i < |hs| - 1 ==> Adjacent(hs[i], hs[i + 1])
    ensures IsIp(hs[|hs| - 2].kind) && IsLayer4(hs[|hs| - 1].kind)
  {
    ParseIff(b, layer, hs);
    forall i | 0 <= i < |hs| ensures Inside(hs[i], |b|) {
      EncodesEach(b, hs, i);
    }
    forall i | 0 <= i < |hs| - 1 ensures Adjacent(hs[i], hs[i + 1]) {
      EncodesEach(b, hs, i);
    }
    EncodesEach(b, hs, |hs| - 1);
    assert Adjacent(hs[|hs| - 2], hs[|hs| - 2 + 1]);
  }

  /** A header as seen in a capture with d more octets at the end: only an MPLS payload reaches further. */
  function GrowOne(h: Header, d: nat): Header {
    if h.kind.MPLS? then h.(totalBytes := h.totalBytes + d) else h
  }

  function Grow(hs: seq<Header>, d: nat): seq<Header> {
    seq(|hs|, i requires 0 <= i < |hs| => GrowOne(hs[i], d))
  }

  lemma HeaderOkExtends(b: seq<byte>, tail: seq<byte>, h: Header)
    requires HeaderOk(b, h)
    ensures HeaderOk(b + tail, GrowOne(h, |tail|))
  {
    if h.kind.IPV4? {
      assert (b + tail)[h.offset..h.offset + h.headerBytes] == b[h.offset..h.offset + h.headerBytes];
    }
    if h.kind.MPLS? {
      forall i | 0 <= i < h.headerBytes / 4
        ensures IsStackBottom(b + tail, h.offset + 4 * i) <==> i == h.headerBytes / 4 - 1
      {
        assert IsStackBottom(b, h.offset + 4 * i) <==> i == h.headerBytes / 4 - 1;
      }
    }
  }

  lemma LinkExtends(b: seq<byte>, tail: seq<byte>, h: Header, g: Header)
    requires HeaderOk(b, h) && HeaderOk(b, g) && Link(b, h, g)
    ensures Link(b + tail, GrowOne(h, |tail|), GrowOne(g, |tail|))
  {
    VersionExtends(b, tail, g);
  }

  lemma VersionExtends(b: seq<byte>, tail: seq<byte>, g: Header)
    requires HeaderOk(b, g)
    ensures VersionLink(b, g) ==> VersionLink(b + tail, g)
  {
  }

  lemma {:induction false} EncodesExtends(b: seq<byte>, tail: seq<byte>, hs: seq<Header>)
    requires Encodes(b, hs)
    ensures Encodes(b + tail, Grow(hs, |tail|))
    decreases |hs|
  {
    HeaderOkExtends(b, tail, hs[0]);
    if |hs| > 1 {
      EncodesExtends(b, tail, hs[1..]);
      assert Grow(hs, |tail|)[1..] == Grow(hs[1..], |tail|);
      LinkExtends(b, tail, hs[0], hs[1]);
    }
  }

  /** Parsing is stable under trailing bytes, through every nesting of headers. */
  lemma ParseStable(b: seq<byte>, tail: seq<byte>, layer: Layer, hs: seq<Header>)
    requires Parse(b, layer) == Ok(hs)
    ensures Parse(b + tail, layer) == Ok(Grow(hs, |tail|))
  {
    ParseIff(b, layer, hs);
    EncodesExtends(b, tail, hs);
    EncodesEach(b, hs, 0);
    VersionExtends(b, tail, hs[0]);
    ParseIff(b + tail, layer, Grow(hs, |tail|));
  }
}
