/** Finishing headers from the inside out once the packet is complete (packet.c, *_header_finish). */
module Encapsulation {
  import opened Bytes
  import opened Checksum
  import opened WireFormat

  datatype Draft = Draft(bytes: seq<byte>, headers: seq<Header>)

  datatype Finished = Finished(bytes: seq<byte>, header: Header)

  /** The octets of a header that its finish function touches or reads. */
  function FixedBytes(k: HeaderType): nat {
    match k
    case IPV4 => 20
    case IPV6 => 40
    case GRE => 4
    case _ => 0
  }

  predicate Room(b: seq<byte>, hs: seq<Header>) {
    forall i :: 0 <= i < |hs| ==> hs[i].offset + FixedBytes(hs[i].kind) <= |b|
  }

  /** The first half of ipv4_header_finish: length and protocol, and a zeroed checksum field. */
  function Ipv4Fields(b: seq<byte>, o: nat, total: nat, protocol: byte): (r: seq<byte>)
    requires o + 20 <= |b|
    ensures |r| == |b|
  {
    Splice(Splice(Splice(b, o + 2, Octets16(total % 0x1_0000)), o + 9, [protocol]), o + 10, Octets16(0))
  }

  /** Where the IPv4 header at o ends by its own account, as far as the buffer goes. */
  function Ipv4End(b: seq<byte>, o: nat): (end: nat)
    requires o <= |b|
    ensures o <= end <= |b|
  {
    var end := o + Ipv4HeaderLen(b, o);
    if end <= |b| then end else |b|
  }

  /** The second half: the checksum over the header. */
  function Ipv4Check(b: seq<byte>, o: nat): (r: seq<byte>)
    requires o + 20 <= |b|
    ensures |r| == |b|
  {
    Splice(b, o + 10, Octets16(WireChecksum(b[o..Ipv4End(b, o)])))
  }

  /** ipv4_header_finish. */
  function FinishIpv4(b: seq<byte>, h: Header, next: Header): (f: Finished)
    requires h.offset + 20 <= |b|
    ensures |f.bytes| == |b|
  {
    var total := 20 + next.totalBytes;
    Finished(Ipv4Check(Ipv4Fields(b, h.offset, total, IpProto(next.kind)), h.offset), h.(totalBytes := total))
  }

  /** ipv6_header_finish. */
  function FinishIpv6(b: seq<byte>, h: Header, next: Header): (f: Finished)
    requires h.offset + 40 <= |b|
    ensures |f.bytes| == |b|
  {
    var b1 := Splice(b, h.offset + 4, Octets16(next.totalBytes % 0x1_0000));
    Finished(Splice(b1, h.offset + 6, [IpProto(next.kind)]), h.(totalBytes := 40 + next.totalBytes))
  }

  /** gre_header_finish. */
  function FinishGre(b: seq<byte>, h: Header, next: Header): (f: Finished)
    requires h.offset + 4 <= |b|
    ensures |f.bytes| == |b|
  {
    Finished(Splice(b, h.offset + 2, Octets16(EthProto(next.kind))),
             h.(totalBytes := GreLen(b, h.offset) + next.totalBytes))
  }

  /** mpls_header_finish changes the metadata only; layer 4 headers have no finish function. */
  function FinishHeader(b: seq<byte>, h: Header, next: Header): (f: Finished)
    requires h.offset + FixedBytes(h.kind) <= |b|
    ensures |f.bytes| == |b|
    ensures f.header == h.(totalBytes := f.header.totalBytes)
  {
    match h.kind
    case IPV4 => FinishIpv4(b, h, next)
    case IPV6 => FinishIpv6(b, h, next)
    case GRE => FinishGre(b, h, next)
    case MPLS => Finished(b, h.(totalBytes := h.headerBytes + next.totalBytes))
    case _ => Finished(b, h)
  }

  /** packet_finish_encapsulation_headers: from the innermost header to the outermost. */
  function Finish(b: seq<byte>, hs: seq<Header>): (d: Draft)
    requires Room(b, hs)
    ensures |d.bytes| == |b| && |d.headers| == |hs|
    ensures forall i :: 0 <= i < |hs| ==> d.headers[i] == hs[i].(totalBytes := d.headers[i].totalBytes)
  {
    if |hs| <= 1 then Draft(b, hs)
    else
      var inner := Finish(b, hs[1..]);
      var f := FinishHeader(inner.bytes, hs[0], inner.headers[0]);
      Draft(f.bytes, [f.header] + inner.headers)
  }

  // ----- What can be finished

  /** A header that carries others, before anything is known of what it carries; an IPv4 header has no options. */
  predicate Shell(b: seq<byte>, h: Header) {
    && h.offset + h.headerBytes <= |b|
    && match h.kind
       case IPV4 => h.headerBytes == 20 == Ipv4HeaderLen(b, h.offset) && !IsFragment(b, h.offset)
       case IPV6 => h.headerBytes == 40
       case GRE => GreOk(b, h)
       case MPLS => h.headerBytes >= 4 && h.headerBytes % 4 == 0 && LabelStack(b, h.offset, h.headerBytes / 4)
       case _ => false
  }

  /** An IP header names its own version, as what is outermost or follows a GRE or MPLS header has to. */
  predicate Versioned(b: seq<byte>, h: Header) { IsIp(h.kind) ==> VersionLink(b, h) }

  /** The nestings that the header_types table can announce. */
  predicate CanCarry(h: HeaderType, g: HeaderType) {
    match h
    case IPV4 => !g.MPLS?
    case IPV6 => !g.MPLS?
    case GRE => IsIp(g) || g.MPLS?
    case MPLS => IsIp(g)
    case _ => false
  }

  /** In a packet that ends at end, the datagram length fits its 16-bit field. */
  predicate LengthFits(end: nat, h: Header) {
    && (h.kind.IPV4? ==> end - h.offset <= 0xFFFF)
    && (h.kind.IPV6? ==> end - h.offset - 40 <= 0xFFFF)
  }

  /** A contiguous stack of shells around a complete layer 4 header that takes the rest of the buffer. */
  predicate Stackable(b: seq<byte>, hs: seq<Header>) {
    && hs != []
    && if |hs| == 1 then
         IsLayer4(hs[0].kind) && HeaderOk(b, hs[0]) && hs[0].offset + hs[0].totalBytes == |b|
       else
         && Shell(b, hs[0]) && LengthFits(|b|, hs[0])
         && CanCarry(hs[0].kind, hs[1].kind)
         && (IsIp(hs[0].kind) || Versioned(b, hs[1]))
         && hs[1].offset == hs[0].offset + hs[0].headerBytes
         && Stackable(b, hs[1..])
  }

  /** The metadata of a finished stack: each header's total reaches to the end of the packet. */
  function ToEnd(hs: seq<Header>, end: nat): seq<Header> {
    seq(|hs|, i requires 0 <= i < |hs| => hs[i].(totalBytes := if hs[i].offset <= end then end - hs[i].offset else 0))
  }

  lemma {:induction false} StackableRoom(b: seq<byte>, hs: seq<Header>)
    requires Stackable(b, hs)
    ensures Room(b, hs)
    ensures forall i :: 0 <= i < |hs| ==> hs[0].offset <= hs[i].offset <= |b|
    decreases |hs|
  {
    if |hs| > 1 {
      StackableRoom(b, hs[1..]);
      assert forall i :: 1 <= i < |hs| ==> hs[i] == hs[1..][i - 1];
    }
  }

  // ----- Encodings are local

  lemma HeaderOkLocal(b: seq<byte>, b': seq<byte>, h: Header)
    requires |b| == |b'| && HeaderOk(b, h) && h.offset <= |b| && b[h.offset..] == b'[h.offset..]
    ensures HeaderOk(b', h)
  {
    var o := h.offset;
    assert forall k :: o <= k < |b| ==> b[k] == b[o..][k - o] == b'[o..][k - o] == b'[k];
    if h.kind.IPV4? {
      assert b[o..o + h.headerBytes] == b'[o..o + h.headerBytes];
    } else if h.kind.MPLS? {
      LabelStackLocal(b, b', o, h.headerBytes / 4);
    }
  }

  lemma LabelStackLocal(b: seq<byte>, b': seq<byte>, o: nat, k: nat)
    requires o + 4 * k <= |b| && o + 4 * k <= |b'| && LabelStack(b, o, k)
    requires forall i :: o <= i < o + 4 * k ==> b[i] == b'[i]
    ensures LabelStack(b', o, k)
  {
    forall i | 0 <= i < k ensures IsStackBottom(b', o + 4 * i) <==> i == k - 1 {
      assert IsStackBottom(b, o + 4 * i) <==> i == k - 1;
    }
  }

  lemma LinkLocal(b: seq<byte>, b': seq<byte>, h: Header, g: Header)
    requires |b| == |b'| && h.offset <= g.offset <= |b| && b[h.offset..] == b'[h.offset..] && Link(b, h, g)
    ensures Link(b', h, g) && b[g.offset..] == b'[g.offset..]
  {
    var o := h.offset;
    assert forall k :: o <= k < |b| ==> b[k] == b[o..][k - o] == b'[o..][k - o] == b'[k];
  }

  /** An encoding depends only on the bytes from its first header on. */
  lemma {:induction false} EncodesLocal(b: seq<byte>, b': seq<byte>, hs: seq<Header>)
    requires |b| == |b'| && Encodes(b, hs) && hs[0].offset <= |b|
    requires b[hs[0].offset..] == b'[hs[0].offset..]
    ensures Encodes(b', hs)
    decreases |hs|
  {
    HeaderOkLocal(b, b', hs[0]);
    if |hs| > 1 {
      EncodesEach(b, hs, 1);
      LinkLocal(b, b', hs[0], hs[1]);
      EncodesLocal(b, b', hs[1..]);
    }
  }

  /**
    What finishing h over g in b achieves: a well-formed header linked to what it carries, and no
    other byte changed.
   */
  predicate FinishedHeader(b: seq<byte>, h: Header, g: Header, f: Finished)
    requires h.offset <= g.offset <= |b|
  {
    && |f.bytes| == |b|
    && f.bytes[g.offset..] == b[g.offset..]
    && f.bytes[..h.offset] == b[..h.offset]
    && f.header == h.(totalBytes := |b| - h.offset)
    && HeaderOk(f.bytes, f.header)
    && Link(f.bytes, f.header, g)
    && (VersionLink(b, h) ==> VersionLink(f.bytes, f.header))
  }

  lemma FinishHeaderOk(b: seq<byte>, h: Header, g: Header)
    requires Shell(b, h) && LengthFits(|b|, h) && CanCarry(h.kind, g.kind)
    requires g.offset == h.offset + h.headerBytes && g.offset + g.totalBytes == |b|
    requires IsIp(h.kind) || Versioned(b, g)
    ensures FinishedHeader(b, h, g, FinishHeader(b, h, g))
  {
    match h.kind {
      case IPV4 => FinishIpv4Ok(b, h, g);
      case IPV6 => FinishIpv6Ok(b, h, g);
      case GRE => FinishGreOk(b, h, g);
      case MPLS => FinishMplsOk(b, h, g);
    }
  }

  lemma FinishIpv6Ok(b: seq<byte>, h: Header, g: Header)
    requires h.kind.IPV6? && Shell(b, h) && LengthFits(|b|, h) && CanCarry(IPV6, g.kind)
    requires g.offset == h.offset + 40 && g.offset + g.totalBytes == |b|
    ensures FinishedHeader(b, h, g, FinishIpv6(b, h, g))
  {
  }

  lemma FinishGreOk(b: seq<byte>, h: Header, g: Header)
    requires h.kind.GRE? && Shell(b, h) && CanCarry(GRE, g.kind)
    requires g.offset == h.offset + h.headerBytes && g.offset + g.totalBytes == |b| && Versioned(b, g)
    ensures FinishedHeader(b, h, g, FinishGre(b, h, g))
  {
  }

  lemma FinishMplsOk(b: seq<byte>, h: Header, g: Header)
    requires h.kind.MPLS? && Shell(b, h) && CanCarry(MPLS, g.kind)
    requires g.offset == h.offset + h.headerBytes && g.offset + g.totalBytes == |b| && Versioned(b, g)
    ensures FinishedHeader(b, h, g, FinishHeader(b, h, g))
  {
    assert LabelStack(b, h.offset, h.headerBytes / 4);
  }

  /** The fields of the IPv4 header at o in r, which is b outside the header. */
  predicate Ipv4Set(b: seq<byte>, r: seq<byte>, o: nat, total: nat, protocol: byte)
    requires o + 20 <= |b|
  {
    && |r| == |b|
    && At(r, o) == At(b, o) && Be16(r, o + 2) == total && Be16(r, o + 6) == Be16(b, o + 6)
    && At(r, o + 9) == protocol
    && r[..o] == b[..o] && r[o + 20..] == b[o + 20..]
  }

  lemma FinishIpv4Ok(b: seq<byte>, h: Header, g: Header)
    requires h.kind.IPV4? && Shell(b, h) && LengthFits(|b|, h) && CanCarry(IPV4, g.kind)
    requires g.offset == h.offset + 20 && g.offset + g.totalBytes == |b|
    ensures FinishedHeader(b, h, g, FinishIpv4(b, h, g))
  {
    var total: u16 := 20 + g.totalBytes;
    var r := Ipv4Check(Ipv4Fields(b, h.offset, total, IpProto(g.kind)), h.offset);
    Ipv4Finished(b, h.offset, total, IpProto(g.kind), r);
    FinishedIpv4(b, r, h, g);
  }

  lemma Ipv4Finished(b: seq<byte>, o: nat, total: u16, protocol: byte, r: seq<byte>)
    requires o + 20 <= |b| && Ipv4HeaderLen(b, o) == 20
    requires r == Ipv4Check(Ipv4Fields(b, o, total, protocol), o)
    ensures Ipv4Set(b, r, o, total, protocol) && WireChecksum(r[o..o + 20]) == 0
  {
    var b3 := Ipv4Fields(b, o, total, protocol);
    Ipv4FieldsSet(b, o, total, protocol, b3);
    Ipv4CheckKeeps(b, b3, o, total, protocol, Ipv4Check(b3, o));
    Ipv4CheckVerifies(b3, o);
  }

  lemma Ipv4FieldsSet(b: seq<byte>, o: nat, total: u16, protocol: byte, r: seq<byte>)
    requires o + 20 <= |b| && r == Ipv4Fields(b, o, total, protocol)
    ensures Ipv4Set(b, r, o, total, protocol) && Be16(r, o + 10) == 0
  {
  }

  lemma Ipv4CheckKeeps(b: seq<byte>, b3: seq<byte>, o: nat, total: u16, protocol: byte, r: seq<byte>)
    requires o + 20 <= |b| == |b3| && r == Ipv4Check(b3, o) && Ipv4Set(b, b3, o, total, protocol)
    ensures Ipv4Set(b, r, o, total, protocol)
  {
    assert r[..o] == b3[..o] && r[o + 20..] == b3[o + 20..];
  }

  lemma Ipv4CheckVerifies(b: seq<byte>, o: nat)
    requires o + 20 <= |b| && Ipv4HeaderLen(b, o) == 20 && Be16(b, o + 10) == 0
    ensures WireChecksum(Ipv4Check(b, o)[o..o + 20]) == 0
  {
    var header := b[o..o + 20];
    var check := WireChecksum(header);
    SpliceWithin(b, o, 20, 10, Octets16(check));
    assert Be16(header, 10) == 0;
    VerifiesIff(header, 10, check);
  }

  lemma FinishedIpv4(b: seq<byte>, r: seq<byte>, h: Header, g: Header)
    requires h.kind.IPV4? && Shell(b, h) && LengthFits(|b|, h) && CanCarry(IPV4, g.kind)
    requires g.offset == h.offset + 20 && g.offset + g.totalBytes == |b|
    requires Ipv4Set(b, r, h.offset, 20 + g.totalBytes, IpProto(g.kind))
             && WireChecksum(r[h.offset..h.offset + 20]) == 0
    ensures FinishedHeader(b, h, g, Finished(r, h.(totalBytes := 20 + g.totalBytes)))
  {
  }

  lemma SpliceWithin(b: seq<byte>, o: nat, len: nat, i: nat, s: seq<byte>)
    requires o + len <= |b| && i + |s| <= len
    ensures Splice(b, o + i, s)[o..o + len] == Splice(b[o..o + len], i, s)
  {
  }

  /** What finishing hs in b achieves. */
  predicate FinishedStack(b: seq<byte>, hs: seq<Header>, d: Draft)
    requires hs != [] && hs[0].offset <= hs[|hs| - 1].offset <= |b|
  {
    && |d.bytes| == |b|
    && d.headers == ToEnd(hs, |b|)
    && Encodes(d.bytes, d.headers)
    && (VersionLink(b, hs[0]) ==> VersionLink(d.bytes, d.headers[0]))
    && d.bytes[..hs[0].offset] == b[..hs[0].offset]
    && d.bytes[hs[|hs| - 1].offset..] == b[hs[|hs| - 1].offset..]
  }

  /**
    Finishing a stack from the inside out makes the buffer encode it: every header has the length,
    protocol and checksum fields that its contents call for, and no payload octet changes.
   */
  lemma {:induction false} FinishEncodes(b: seq<byte>, hs: seq<Header>)
    requires Stackable(b, hs)
    ensures Room(b, hs) && hs[0].offset <= hs[|hs| - 1].offset <= |b|
    ensures FinishedStack(b, hs, Finish(b, hs))
    decreases |hs|
  {
    StackableRoom(b, hs);
    if |hs| == 1 {
      FinishLast(b, hs);
    } else {
      FinishEncodes(b, hs[1..]);
      FinishMore(b, hs, Finish(b, hs[1..]));
    }
  }

  lemma {:induction false} FinishLast(b: seq<byte>, hs: seq<Header>)
    requires |hs| == 1 && Stackable(b, hs)
    ensures Room(b, hs) && FinishedStack(b, hs, Finish(b, hs))
  {
    assert ToEnd(hs, |b|) == hs;
  }

  lemma {:induction false} FinishMore(b: seq<byte>, hs: seq<Header>, inner: Draft)
    requires |hs| > 1 && Stackable(b, hs) && Room(b, hs) && hs[1].offset <= hs[|hs| - 1].offset <= |b|
    requires inner == Finish(b, hs[1..]) && FinishedStack(b, hs[1..], inner)
    ensures FinishedStack(b, hs, Finish(b, hs))
  {
    FinishOuter(b, hs, inner);
    FinishStep(b, hs, inner, FinishHeader(inner.bytes, hs[0], inner.headers[0]));
  }

  lemma {:induction false} FinishOuter(b: seq<byte>, hs: seq<Header>, inner: Draft)
    requires |hs| > 1 && Stackable(b, hs) && hs[1].offset <= hs[|hs| - 1].offset <= |b|
    requires FinishedStack(b, hs[1..], inner)
    ensures FinishedHeader(inner.bytes, hs[0], inner.headers[0], FinishHeader(inner.bytes, hs[0], inner.headers[0]))
  {
    ShellLocal(b, inner.bytes, hs[0]);
    FinishHeaderOk(inner.bytes, hs[0], inner.headers[0]);
  }

  lemma FinishStep(b: seq<byte>, hs: seq<Header>, inner: Draft, f: Finished)
    requires |hs| > 1 && hs[0].offset <= hs[1].offset <= hs[|hs| - 1].offset <= |b|
    requires FinishedStack(b, hs[1..], inner) && FinishedHeader(inner.bytes, hs[0], inner.headers[0], f)
    ensures FinishedStack(b, hs, Draft(f.bytes, [f.header] + inner.headers))
  {
    FinishedEncodes(inner.bytes, hs[0], inner.headers, f);
    SlicesNest(f.bytes, inner.bytes, b, hs[0].offset, hs[1].offset, hs[|hs| - 1].offset);
    ToEndCons(hs, |b|);
  }

  lemma {:induction false} FinishedEncodes(b: seq<byte>, h: Header, rest: seq<Header>, f: Finished)
    requires rest != [] && h.offset <= rest[0].offset <= |b| && Encodes(b, rest) && FinishedHeader(b, h, rest[0], f)
    ensures Encodes(f.bytes, [f.header] + rest)
  {
    EncodesLocal(b, f.bytes, rest);
    EncodesCons(f.bytes, f.header, rest);
  }

  lemma ToEndCons(hs: seq<Header>, end: nat)
    requires hs != [] && hs[0].offset <= end
    ensures ToEnd(hs, end) == [hs[0].(totalBytes := end - hs[0].offset)] + ToEnd(hs[1..], end)
  {
  }

  lemma {:induction false} EncodesCons(b: seq<byte>, h: Header, rest: seq<Header>)
    requires Encodes(b, rest) && HeaderOk(b, h) && Link(b, h, rest[0])
    ensures Encodes(b, [h] + rest)
  {
    assert ([h] + rest)[1..] == rest;
  }

  lemma SlicesNest(x: seq<byte>, y: seq<byte>, z: seq<byte>, lo: nat, mid: nat, hi: nat)
    requires |x| == |y| == |z| && lo <= mid <= hi <= |x|
    requires x[mid..] == y[mid..] && x[..lo] == y[..lo] && y[..mid] == z[..mid] && y[hi..] == z[hi..]
    ensures x[..lo] == z[..lo] && x[hi..] == z[hi..]
  {
    assert x[hi..] == x[mid..][hi - mid..] && y[hi..] == y[mid..][hi - mid..];
    assert y[..lo] == y[..mid][..lo] && z[..lo] == z[..mid][..lo];
  }

  lemma ShellLocal(b: seq<byte>, b': seq<byte>, h: Header)
    requires |b| == |b'| && Shell(b, h)
    requires b[..h.offset + h.headerBytes] == b'[..h.offset + h.headerBytes]
    ensures Shell(b', h)
  {
    var end := h.offset + h.headerBytes;
    assert forall k :: 0 <= k < end ==> b[k] == b[..end][k] == b'[..end][k] == b'[k];
    if h.kind.MPLS? {
      LabelStackLocal(b, b', h.offset, h.headerBytes / 4);
    }
  }

  // ----- What finishing leaves alone

  /** The octets of a header that finishing may change: lengths, protocols and the IPv4 header checksum. */
  predicate FinishField(h: Header, k: int) {
    match h.kind
    case IPV4 => 2 <= k - h.offset <= 3 || 9 <= k - h.offset <= 11
    case IPV6 => 4 <= k - h.offset <= 6
    case GRE => 2 <= k - h.offset <= 3
    case _ => false
  }

  lemma {:induction false} FinishHeaderTouches(b: seq<byte>, h: Header, next: Header, k: nat)
    requires h.offset + FixedBytes(h.kind) <= |b| && k < |b| && !FinishField(h, k)
    ensures FinishHeader(b, h, next).bytes[k] == b[k]
  {
    if h.kind.IPV4? {
      var total := 20 + next.totalBytes;
      assert Ipv4Fields(b, h.offset, total, IpProto(next.kind))[k] == b[k];
    }
  }

  /** Finishing changes nothing but these fields of the headers: addresses, time to live, labels, keys stay. */
  lemma {:induction false} FinishTouches(b: seq<byte>, hs: seq<Header>, k: nat)
    requires Room(b, hs) && k < |b| && forall i :: 0 <= i < |hs| ==> !FinishField(hs[i], k)
    ensures Finish(b, hs).bytes[k] == b[k]
    decreases |hs|
  {
    if |hs| > 1 {
      assert forall i :: 0 <= i < |hs| - 1 ==> hs[1..][i] == hs[i + 1];
      FinishTouches(b, hs[1..], k);
      FinishHeaderTouches(Finish(b, hs[1..]).bytes, hs[0], Finish(b, hs[1..]).headers[0], k);
    }
  }
}
