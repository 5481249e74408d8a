/** packet_encapsulate: a packet inside another, in place, and the round trip through the parser. */
module Encapsulate {
  import opened Wrappers
  import opened Bytes
  import opened Checksum
  import opened WireFormat
  import opened PacketParser
  import opened Packets
  import opened Encapsulation

  // ----- In place

  method StoreBe16(buffer: array<byte>, i: nat, v: u16)
    requires i + 2 <= buffer.Length
    modifies buffer
    ensures buffer[..] == Splice(old(buffer[..]), i, Octets16(v))
  {
    buffer[i] := v / 0x100;
    buffer[i + 1] := v % 0x100;
  }

  method StoreByte(buffer: array<byte>, i: nat, v: byte)
    requires i < buffer.Length
    modifies buffer
    ensures buffer[..] == Splice(old(buffer[..]), i, [v])
  {
    buffer[i] := v;
  }

  /** Storing a checksum from a 16-bit variable of the little-endian host. */
  method StoreNative16(buffer: array<byte>, i: nat, v: u16)
    requires i + 2 <= buffer.Length
    modifies buffer
    ensures buffer[..] == Splice(old(buffer[..]), i, Octets16(Swap16(v)))
  {
    buffer[i] := v % 0x100;
    buffer[i + 1] := v / 0x100;
  }

  method Memcpy(to: array<byte>, at: nat, from: array<byte>, len: nat)
    requires at + len <= to.Length && len <= from.Length && to != from
    modifies to
    ensures to[..] == Splice(old(to[..]), at, from[..len])
  {
    forall i | 0 <= i < len {
      to[at + i] := from[i];
    }
  }

  method Ipv4HeaderFinish(buffer: array<byte>, h: Header, next: Header) returns (header: Header)
    requires h.offset + 20 <= buffer.Length
    modifies buffer
    ensures Finished(buffer[..], header) == FinishIpv4(old(buffer[..]), h, next)
  {
    var o, ipBytes := h.offset, 20 + next.totalBytes;
    ghost var b := buffer[..];
    StoreIpv4Fields(buffer, o, ipBytes, IpProto(next.kind));
    ghost var b3 := buffer[..];
    StoreIpv4Check(buffer, o);
    FinishIpv4Is(b, h, next, b3, buffer[..]);
    header := h.(totalBytes := ipBytes);
  }

  lemma FinishIpv4Is(b: seq<byte>, h: Header, next: Header, b3: seq<byte>, r: seq<byte>)
    requires h.offset + 20 <= |b| && b3 == Ipv4Fields(b, h.offset, 20 + next.totalBytes, IpProto(next.kind))
    requires r == Ipv4Check(b3, h.offset)
    ensures FinishIpv4(b, h, next) == Finished(r, h.(totalBytes := 20 + next.totalBytes))
  {
  }

  method StoreIpv4Fields(buffer: array<byte>, o: nat, ipBytes: nat, protocol: byte)
    requires o + 20 <= buffer.Length
    modifies buffer
    ensures buffer[..] == Ipv4Fields(old(buffer[..]), o, ipBytes, protocol)
  {
    StoreBe16(buffer, o + 2, ipBytes % 0x1_0000);
    StoreByte(buffer, o + 9, protocol);
    StoreBe16(buffer, o + 10, 0);
  }

  method StoreIpv4Check(buffer: array<byte>, o: nat)
    requires o + 20 <= buffer.Length
    modifies buffer
    ensures buffer[..] == Ipv4Check(old(buffer[..]), o)
  {
    var end := o + buffer[o] % 0x10 * 4;
    end := if end <= buffer.Length then end else buffer.Length;
    assert buffer[..][o..end] == buffer[o..end];
    var check := Ipv4Checksum(buffer[o..end]);
    StoreNative16(buffer, o + 10, check);
  }

  method Ipv6HeaderFinish(buffer: array<byte>, h: Header, next: Header) returns (header: Header)
    requires h.offset + 40 <= buffer.Length
    modifies buffer
    ensures Finished(buffer[..], header) == FinishIpv6(old(buffer[..]), h, next)
  {
    StoreBe16(buffer, h.offset + 4, next.totalBytes % 0x1_0000);
    ghost var b1 := buffer[..];
    StoreByte(buffer, h.offset + 6, IpProto(next.kind));
    assert buffer[..] == Splice(b1, h.offset + 6, [IpProto(next.kind)]);
    header := h.(totalBytes := 40 + next.totalBytes);
  }

  method GreHeaderFinish(buffer: array<byte>, h: Header, next: Header) returns (header: Header)
    requires h.offset + 4 <= buffer.Length
    modifies buffer
    ensures Finished(buffer[..], header) == FinishGre(old(buffer[..]), h, next)
  {
    var greBytes := GreLen(buffer[..], h.offset) + next.totalBytes;
    StoreBe16(buffer, h.offset + 2, EthProto(next.kind));
    header := h.(totalBytes := greBytes);
  }

  /** type_info->finish, if the header type has one. */
  method HeaderFinish(buffer: array<byte>, h: Header, next: Header) returns (header: Header)
    requires h.offset + FixedBytes(h.kind) <= buffer.Length
    modifies buffer
    ensures Finished(buffer[..], header) == FinishHeader(old(buffer[..]), h, next)
  {
    match h.kind
    case IPV4 => header := Ipv4HeaderFinish(buffer, h, next);
    case IPV6 => header := Ipv6HeaderFinish(buffer, h, next);
    case GRE => header := GreHeaderFinish(buffer, h, next);
    case MPLS => header := h.(totalBytes := h.headerBytes + next.totalBytes);
    case _ => header := h;
  }

  lemma RoomSuffix(b: seq<byte>, hs: seq<Header>, i: nat)
    requires Room(b, hs) && i <= |hs|
    ensures Room(b, hs[i..])
  {
    forall j | 0 <= j < |hs[i..]| ensures hs[i..][j].offset + FixedBytes(hs[i..][j].kind) <= |b| {
      assert hs[i..][j] == hs[i + j];
    }
  }

  /** One round of the loop, from the headers finished so far to one more. */
  lemma {:induction false} FinishRound(b: seq<byte>, hs: seq<Header>, i: nat, f: Finished)
    requires i + 1 < |hs| && Room(b, hs[i..]) && Room(b, hs[i + 1..])
    requires f == FinishHeader(Finish(b, hs[i + 1..]).bytes, hs[i], Finish(b, hs[i + 1..]).headers[0])
    ensures Finish(b, hs[i..]) == Draft(f.bytes, [f.header] + Finish(b, hs[i + 1..]).headers)
  {
    assert hs[i..][1..] == hs[i + 1..];
  }

  lemma UpdateFront<T>(front: seq<T>, x: T, y: T, back: seq<T>)
    ensures (front + [x] + back)[|front| := y] == front + ([y] + back)
  {
  }

  /**
    packet_finish_encapsulation_headers. A finish function reads the header that follows, so the last
    header has to be of a type without one.
   */
  method FinishEncapsulationHeaders(packet: Packet)
    requires Room(packet.buffer[..], packet.headers)
    requires packet.headers != [] ==> IsLayer4(packet.headers[|packet.headers| - 1].kind)
    modifies packet`headers, packet.buffer
    ensures Draft(packet.buffer[..], packet.headers) == Finish(old(packet.buffer[..]), old(packet.headers))
  {
    ghost var b, hs := packet.buffer[..], packet.headers;
    ghost var d := Draft(b, []);
    var i := |packet.headers| - 1;
    RoomSuffix(b, hs, |hs|);
    while i >= 0
      invariant -1 <= i < |hs| && Room(b, hs[i + 1..]) && d == Finish(b, hs[i + 1..])
      invariant packet.headers == hs[..i + 1] + d.headers && packet.buffer[..] == d.bytes
    {
      RoomSuffix(b, hs, i);
      assert hs[..i + 1] == hs[..i] + [hs[i]];
      if i + 1 < |packet.headers| {
        var header := HeaderFinish(packet.buffer, packet.headers[i], packet.headers[i + 1]);
        FinishRound(b, hs, i, Finished(packet.buffer[..], header));
        UpdateFront(hs[..i], hs[i], header, d.headers);
        packet.headers := packet.headers[i := header];
      } else {
        assert hs[i..] == [hs[i]];
      }
      d := Finish(b, hs[i..]);
      i := i - 1;
    }
    assert hs[0..] == hs;
  }

  function Shift(hs: seq<Header>, d: nat): seq<Header> {
    seq(|hs|, i requires 0 <= i < |hs| => hs[i].(offset := hs[i].offset + d))
  }

  function ShiftPtr(p: Option<nat>, d: nat): Option<nat> {
    if p.Some? then Some(p.value + d) else None
  }

  /** packet_end - packet->buffer. */
  function BytesUsed(m: Metadata): nat
    requires m.headers != []
  {
    m.headers[0].offset + m.ipBytes
  }

  /** The finished draft that encapsulating makes of two buffers. */
  function Encapsulated(outer: seq<byte>, outerHeaders: seq<Header>, inner: seq<byte>, innerHeaders: seq<Header>): Draft
    requires Room(outer + inner, outerHeaders + Shift(innerHeaders, |outer|))
  {
    Finish(outer + inner, outerHeaders + Shift(innerHeaders, |outer|))
  }

  /** packet_copy_with_headroom: the bytes in use and all metadata, moved up by headroom octets. */
  method CopyWithHeadroom(oldPacket: Packet, headroom: nat) returns (packet: Packet)
    requires oldPacket.headers != [] && BytesUsed(oldPacket.Meta()) <= oldPacket.buffer.Length
    requires BytesUsed(oldPacket.Meta()) <= 128 * 1024
    ensures fresh(packet) && fresh(packet.buffer)
    ensures packet.buffer.Length == headroom + BytesUsed(oldPacket.Meta())
    ensures packet.buffer[headroom..] == oldPacket.buffer[..BytesUsed(oldPacket.Meta())]
    ensures packet.Meta() == Moved(oldPacket.Meta(), headroom)
  {
    var used := oldPacket.headers[0].offset + oldPacket.ipBytes;
    packet := new Packet(headroom + used);
    Memcpy(packet.buffer, headroom, oldPacket.buffer, used);
    packet.ipBytes, packet.headers := oldPacket.ipBytes, Shift(oldPacket.headers, headroom);
    packet.ipv4, packet.ipv6 := ShiftPtr(oldPacket.ipv4, headroom), ShiftPtr(oldPacket.ipv6, headroom);
    packet.tcp, packet.udp := ShiftPtr(oldPacket.tcp, headroom), ShiftPtr(oldPacket.udp, headroom);
    packet.icmpv4, packet.icmpv6 := ShiftPtr(oldPacket.icmpv4, headroom), ShiftPtr(oldPacket.icmpv6, headroom);
  }

  /** Metadata copied into a packet whose buffer has d octets of headroom; the link layer length is not copied. */
  function Moved(m: Metadata, d: nat): Metadata {
    Metadata(0, m.ipBytes, Shift(m.headers, d), ShiftPtr(m.ipv4, d), ShiftPtr(m.ipv6, d),
             ShiftPtr(m.tcp, d), ShiftPtr(m.udp, d), ShiftPtr(m.icmpv4, d), ShiftPtr(m.icmpv6, d))
  }

  /** packet_encapsulate. */
  method PacketEncapsulate(outer: Packet, inner: Packet) returns (packet: Packet)
    requires |outer.headers| + |inner.headers| <= PACKET_MAX_HEADERS
    requires outer.ipBytes <= outer.buffer.Length
    requires inner.headers != [] && IsLayer4(inner.headers[|inner.headers| - 1].kind)
    requires BytesUsed(inner.Meta()) <= inner.buffer.Length && BytesUsed(inner.Meta()) <= 128 * 1024
    requires Room(outer.buffer[..outer.ipBytes] + inner.buffer[..BytesUsed(inner.Meta())],
                  outer.headers + Shift(inner.headers, outer.ipBytes))
    ensures fresh(packet) && fresh(packet.buffer)
    ensures Draft(packet.buffer[..], packet.headers)
            == Encapsulated(outer.buffer[..outer.ipBytes], outer.headers,
                            inner.buffer[..BytesUsed(inner.Meta())], inner.headers)
    ensures packet.Meta() == Moved(inner.Meta(), outer.ipBytes).(headers := packet.headers,
                                                                 ipBytes := outer.ipBytes + inner.ipBytes)
  {
    ghost var o, p := outer.buffer[..outer.ipBytes], inner.buffer[..BytesUsed(inner.Meta())];
    packet := PutTogether(outer, inner);
    FinishTogether(packet, o, outer.headers, p, inner.headers);
    packet.ipBytes := outer.ipBytes + inner.ipBytes;
    assert outer.buffer[..outer.ipBytes] == o && inner.buffer[..BytesUsed(inner.Meta())] == p;
  }

  /** Finishing the headers of two packets put together. */
  method FinishTogether(packet: Packet, ghost outer: seq<byte>, ghost outerHeaders: seq<Header>,
                        ghost inner: seq<byte>, ghost innerHeaders: seq<Header>)
    requires packet.buffer[..] == outer + inner && packet.headers == outerHeaders + Shift(innerHeaders, |outer|)
    requires Room(outer + inner, outerHeaders + Shift(innerHeaders, |outer|))
    requires innerHeaders != [] && IsLayer4(innerHeaders[|innerHeaders| - 1].kind)
    modifies packet`headers, packet.buffer
    ensures Draft(packet.buffer[..], packet.headers) == Encapsulated(outer, outerHeaders, inner, innerHeaders)
  {
    ghost var b, hs := packet.buffer[..], packet.headers;
    EncapsulatedIs(outer, outerHeaders, inner, innerHeaders, b, hs);
    FinishEncapsulationHeaders(packet);
  }

  /** The part of packet_encapsulate before the headers are finished. */
  method PutTogether(outer: Packet, inner: Packet) returns (packet: Packet)
    requires outer.ipBytes <= outer.buffer.Length && inner.headers != []
    requires BytesUsed(inner.Meta()) <= inner.buffer.Length && BytesUsed(inner.Meta()) <= 128 * 1024
    ensures fresh(packet) && fresh(packet.buffer)
    ensures packet.buffer[..] == outer.buffer[..outer.ipBytes] + inner.buffer[..BytesUsed(inner.Meta())]
    ensures packet.headers == outer.headers + Shift(inner.headers, outer.ipBytes)
    ensures packet.Meta() == Moved(inner.Meta(), outer.ipBytes).(headers := packet.headers)
  {
    packet := CopyWithHeadroom(inner, outer.ipBytes);
    Memcpy(packet.buffer, 0, outer.buffer, outer.ipBytes);
    assert packet.buffer[..] == outer.buffer[..outer.ipBytes] + inner.buffer[..BytesUsed(inner.Meta())];
    packet.headers := outer.headers + packet.headers;
  }

  lemma {:induction false} EncapsulatedIs(outer: seq<byte>, outerHeaders: seq<Header>, inner: seq<byte>,
                                          innerHeaders: seq<Header>, b: seq<byte>, hs: seq<Header>)
    requires b == outer + inner && hs == outerHeaders + Shift(innerHeaders, |outer|)
    requires Room(outer + inner, outerHeaders + Shift(innerHeaders, |outer|))
    ensures Room(b, hs) && Finish(b, hs) == Encapsulated(outer, outerHeaders, inner, innerHeaders)
    ensures innerHeaders != [] ==> hs != [] && hs[|hs| - 1].kind == innerHeaders[|innerHeaders| - 1].kind
  {
  }

  // ----- The round trip

  /** Contiguous shells that fill b from start to its end, the last able to carry a header of type inside. */
  predicate Shells(b: seq<byte>, hs: seq<Header>, start: nat, inside: HeaderType) {
    if hs == [] then start == |b|
    else
      && hs[0].offset == start && Shell(b, hs[0]) && Versioned(b, hs[0])
      && CanCarry(hs[0].kind, if |hs| == 1 then inside else hs[1].kind)
      && Shells(b, hs[1..], start + hs[0].headerBytes, inside)
  }

  lemma ShellExtends(b: seq<byte>, tail: seq<byte>, h: Header)
    requires Shell(b, h)
    ensures Shell(b + tail, h) && (Versioned(b, h) ==> Versioned(b + tail, h))
  {
    if h.kind.MPLS? {
      forall i | 0 <= i < h.headerBytes / 4
        ensures IsStackBottom(b + tail, h.offset + 4 * i) <==> i == h.headerBytes / 4 - 1
      {
        assert IsStackBottom(b, h.offset + 4 * i) <==> i == h.headerBytes / 4 - 1;
      }
    }
  }

  lemma ShellShifts(front: seq<byte>, b: seq<byte>, h: Header)
    requires Shell(b, h)
    ensures Shell(front + b, h.(offset := h.offset + |front|))
  {
    if h.kind.MPLS? {
      forall i | 0 <= i < h.headerBytes / 4
        ensures IsStackBottom(front + b, h.offset + |front| + 4 * i) <==> i == h.headerBytes / 4 - 1
      {
        assert IsStackBottom(b, h.offset + 4 * i) <==> i == h.headerBytes / 4 - 1;
      }
    }
  }

  lemma {:induction false} StackableShifts(front: seq<byte>, b: seq<byte>, hs: seq<Header>)
    requires Stackable(b, hs)
    ensures Stackable(front + b, Shift(hs, |front|))
    decreases |hs|
  {
    if |hs| == 1 {
      HeaderOkShifts(front, b, hs[0]);
    } else {
      ShellShifts(front, b, hs[0]);
      VersionShifts(front, b, hs[1]);
      StackableShifts(front, b, hs[1..]);
      assert Shift(hs, |front|)[1..] == Shift(hs[1..], |front|);
    }
  }

  lemma HeaderOkShifts(front: seq<byte>, b: seq<byte>, h: Header)
    requires IsLayer4(h.kind) && HeaderOk(b, h)
    ensures HeaderOk(front + b, h.(offset := h.offset + |front|))
  {
  }

  lemma VersionShifts(front: seq<byte>, b: seq<byte>, h: Header)
    ensures Versioned(b, h) ==> Versioned(front + b, h.(offset := h.offset + |front|))
  {
  }

  lemma {:induction false} StackableShells(b: seq<byte>, hs: seq<Header>, start: nat, tail: seq<byte>,
                                           inner: seq<Header>)
    requires inner != [] && Shells(b, hs, start, inner[0].kind)
    requires Stackable(b + tail, inner) && inner[0].offset == |b| && Versioned(b + tail, inner[0])
    requires forall h :: h in hs ==> LengthFits(|b + tail|, h)
    ensures Stackable(b + tail, hs + inner) && (hs + inner)[0].offset == start && Versioned(b + tail, (hs + inner)[0])
    decreases |hs|
  {
    if hs == [] {
      assert hs + inner == inner;
    } else {
      ShellExtends(b, tail, hs[0]);
      StackableShells(b, hs[1..], start + hs[0].headerBytes, tail, inner);
      assert (hs + inner)[1..] == hs[1..] + inner;
    }
  }

  /** An inner packet and outer shells that fit together, within the limits of a packet. */
  predicate CanEncapsulate(outer: seq<byte>, outerHeaders: seq<Header>, inner: seq<byte>, innerHeaders: seq<Header>) {
    && Stackable(inner, innerHeaders) && innerHeaders[0].offset == 0 && Versioned(inner, innerHeaders[0])
    && Shells(outer, outerHeaders, 0, innerHeaders[0].kind)
    && (forall h :: h in outerHeaders ==> LengthFits(|outer + inner|, h))
    && |outerHeaders| + |innerHeaders| <= PACKET_MAX_HEADERS
    && IsIp((outerHeaders + innerHeaders)[0].kind)
  }

  /**
    Build/parse round trip. Whatever complete packet is put inside whatever stack of shells starting
    with IP, parsing the result finds exactly the headers the builder recorded: same types, offsets,
    header and total lengths.
   */
  lemma EncapsulateRoundTrip(outer: seq<byte>, outerHeaders: seq<Header>, inner: seq<byte>, innerHeaders: seq<Header>)
    requires CanEncapsulate(outer, outerHeaders, inner, innerHeaders)
    ensures Room(outer + inner, outerHeaders + Shift(innerHeaders, |outer|))
    ensures var d := Encapsulated(outer, outerHeaders, inner, innerHeaders);
            && Parse(d.bytes, PACKET_LAYER_3_IP) == Ok(d.headers)
            && d.headers == ToEnd(outerHeaders + Shift(innerHeaders, |outer|), |outer + inner|)
  {
    StackedTogether(outer, outerHeaders, inner, innerHeaders);
    FinishedParses(outer + inner, outerHeaders + Shift(innerHeaders, |outer|), PACKET_LAYER_3_IP);
  }

  /** From its octet k on, inner is found in b behind d octets of headroom. */
  predicate Carries(b: seq<byte>, d: nat, inner: seq<byte>, k: nat) {
    k <= |inner| && |b| == d + |inner| && b[d + k..] == inner[k..]
  }

  /** Encapsulation carries the layer 4 header and payload of the inner packet over unchanged. */
  lemma EncapsulateKeepsPayload(outer: seq<byte>, outerHeaders: seq<Header>, inner: seq<byte>,
                                innerHeaders: seq<Header>)
    requires CanEncapsulate(outer, outerHeaders, inner, innerHeaders)
    ensures Room(outer + inner, outerHeaders + Shift(innerHeaders, |outer|))
    ensures Carries(Encapsulated(outer, outerHeaders, inner, innerHeaders).bytes, |outer|,
                    inner, innerHeaders[|innerHeaders| - 1].offset)
  {
    StackedTogether(outer, outerHeaders, inner, innerHeaders);
    var r := FinishKeepsLast(outer + inner, outerHeaders + Shift(innerHeaders, |outer|));
    CarriesBehind(r, outer, inner, innerHeaders[|innerHeaders| - 1].offset);
  }

  lemma FinishKeepsLast(b: seq<byte>, hs: seq<Header>) returns (r: seq<byte>)
    requires Stackable(b, hs)
    ensures Room(b, hs) && r == Finish(b, hs).bytes
    ensures |r| == |b| && hs[|hs| - 1].offset <= |b| && r[hs[|hs| - 1].offset..] == b[hs[|hs| - 1].offset..]
  {
    FinishEncodes(b, hs);
    r := Finish(b, hs).bytes;
  }

  lemma CarriesBehind(b: seq<byte>, outer: seq<byte>, inner: seq<byte>, k: nat)
    requires |b| == |outer + inner| && k <= |inner| && b[|outer| + k..] == (outer + inner)[|outer| + k..]
    ensures Carries(b, |outer|, inner, k)
  {
    assert (outer + inner)[|outer| + k..] == inner[k..];
  }

  lemma {:induction false} StackedTogether(outer: seq<byte>, outerHeaders: seq<Header>, inner: seq<byte>,
                                           innerHeaders: seq<Header>)
    requires CanEncapsulate(outer, outerHeaders, inner, innerHeaders)
    ensures var hs := outerHeaders + Shift(innerHeaders, |outer|);
            && Stackable(outer + inner, hs) && |hs| <= PACKET_MAX_HEADERS
            && hs[0].offset == 0 && VersionLink(outer + inner, hs[0])
  {
    StackableShifts(outer, inner, innerHeaders);
    StackableShells(outer, outerHeaders, 0, inner, Shift(innerHeaders, |outer|));
  }

  /** What has been finished parses, from whichever layer its first header can be entered. */
  lemma {:induction false} FinishedParses(b: seq<byte>, hs: seq<Header>, layer: Layer)
    requires Stackable(b, hs) && |hs| <= PACKET_MAX_HEADERS && IsIp(hs[0].kind) && Entry(b, layer, hs[0])
    ensures Room(b, hs) && hs[|hs| - 1].offset <= |b|
    ensures var d := Finish(b, hs);
            && Parse(d.bytes, layer) == Ok(d.headers)
            && d.headers == ToEnd(hs, |b|)
            && d.bytes[hs[|hs| - 1].offset..] == b[hs[|hs| - 1].offset..]
  {
    FinishEncodes(b, hs);
    var d := Finish(b, hs);
    EntryKept(b, d.bytes, hs[0], d.headers[0], layer);
    ParseIff(d.bytes, layer, d.headers);
  }

  lemma EntryKept(b: seq<byte>, d: seq<byte>, h: Header, h': Header, layer: Layer)
    requires Entry(b, layer, h) && |d| == |b| && h.offset <= |b| && d[..h.offset] == b[..h.offset]
    requires h'.kind == h.kind && h'.offset == h.offset && (VersionLink(b, h) ==> VersionLink(d, h'))
    ensures Entry(d, layer, h')
  {
    if layer.PACKET_LAYER_2_ETHERNET? {
      assert forall k :: 12 <= k < 14 ==> d[k] == d[..h.offset][k] == b[..h.offset][k] == b[k];
    }
  }
}
