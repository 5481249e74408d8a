/** Merging the collected fragments of one segment into a single packet (aggregate_packets). */
module Aggregation {
  import opened Wrappers
  import opened Bytes
  import opened Checksum
  import opened WireFormat
  import opened PacketParser
  import opened Packets
  import opened Encapsulation
  import opened Encapsulate
  import opened Collecting
  import opened Sniffing
  import opened TcpPacket

  /** Concatenation. */
  function Join(parts: seq<seq<byte>>): seq<byte> {
    if parts == [] then [] else Join(parts[..|parts| - 1]) + parts[|parts| - 1]
  }

  lemma {:induction false} JoinNext(parts: seq<seq<byte>>, k: nat)
    requires k < |parts|
    ensures Join(parts[..k + 1]) == Join(parts[..k]) + parts[k]
    ensures |Join(parts[..k + 1])| <= |Join(parts)|
    decreases |parts|
  {
    assert parts[..k + 1][..k] == parts[..k];
    var n := |parts|;
    if k + 1 == n {
      assert parts[..n] == parts;
    } else {
      JoinNext(parts[..n - 1], k);
      assert parts[..n - 1][..k + 1] == parts[..k + 1] && parts[..n - 1][..k] == parts[..k];
    }
  }

  function PayloadList(fs: seq<TcpFragment>): seq<seq<byte>> {
    seq(|fs|, i requires 0 <= i < |fs| => fs[i].Payload())
  }

  /** The payloads of all fragments in order. */
  function Payloads(fs: seq<TcpFragment>): seq<byte> {
    Join(PayloadList(fs))
  }

  lemma {:induction false} PayloadsTotal(fs: seq<TcpFragment>)
    ensures |Payloads(fs)| == TCP_FRAGMENTS.Total(fs)
    decreases |fs|
  {
    var n := |fs|;
    if n > 0 {
      PayloadsTotal(fs[..n - 1]);
      assert PayloadList(fs)[..n - 1] == PayloadList(fs[..n - 1]);
    }
  }

  /** Every header covers extra more octets. */
  function Lengthen(hs: seq<Header>, extra: nat): seq<Header> {
    seq(|hs|, i requires 0 <= i < |hs| => hs[i].(totalBytes := hs[i].totalBytes + extra))
  }

  /** The TCP header at t with another sequence number, and with the CWR bit of another flag byte. */
  function Stamp(b: seq<byte>, t: nat, seqNo: u32, flags: byte): (r: seq<byte>)
    requires t + 20 <= |b|
    ensures |r| == |b|
  {
    Splice(Splice(b, t + 4, Octets32(seqNo)), t + 13, [flags / 0x80 * 0x80 + b[t + 13] % 0x80])
  }

  method StampInPlace(buffer: array<byte>, t: nat, seqNo: u32, flags: byte)
    requires t + 20 <= buffer.Length
    modifies buffer
    ensures buffer[..] == Stamp(old(buffer[..]), t, seqNo, flags)
  {
    StoreSeq(buffer, t + 4, Octets32(seqNo));
    StoreByte(buffer, t + 13, flags / 0x80 * 0x80 + buffer[t + 13] % 0x80);
  }

  /**
    The merged packet before its headers are finished: the last fragment's headers, with the first
    one's sequence number and CWR flag.
   */
  function Merged(fs: seq<TcpFragment>): (b: seq<byte>)
    requires fs != [] && fs[|fs| - 1].Tcp().offset + 20 <= fs[|fs| - 1].PayloadStart()
    ensures |b| == fs[|fs| - 1].PayloadStart() + |Payloads(fs)|
  {
    var first, last := fs[0], fs[|fs| - 1];
    Stamp(last.bytes[..last.PayloadStart()] + Payloads(fs), last.Tcp().offset, first.Seq(), first.Flags())
  }

  /** What the program relies on: the last fragment's headers lie inside the merged packet. */
  predicate CanAggregate(fs: seq<TcpFragment>) {
    && fs != [] && fs[|fs| - 1].Tcp().offset + 20 <= fs[|fs| - 1].PayloadStart()
    && |Payloads(fs)| >= fs[|fs| - 1].PayloadLen()
    && Room(Merged(fs), fs[|fs| - 1].headers)
  }

  /** By how much the merged packet is longer than the last fragment. */
  function Growth(fs: seq<TcpFragment>): nat
    requires fs != [] && |Payloads(fs)| >= fs[|fs| - 1].PayloadLen()
  {
    |Payloads(fs)| - fs[|fs| - 1].PayloadLen()
  }

  function Aggregate(fs: seq<TcpFragment>): Draft
    requires CanAggregate(fs)
  {
    Finish(Merged(fs), Lengthen(fs[|fs| - 1].headers, Growth(fs)))
  }

  /** The buffer of the merged packet: headers, payloads, then the two fields taken from the first fragment. */
  method FillMerged(buffer: array<byte>, front: seq<byte>, parts: seq<seq<byte>>, t: nat, seqNo: u32, flags: byte)
    requires t + 20 <= |front| && buffer.Length == |front| + |Join(parts)|
    modifies buffer
    ensures buffer[..] == Stamp(front + Join(parts), t, seqNo, flags)
  {
    StoreSeq(buffer, 0, front);
    assert buffer[..|front|] == front;
    CopyPayloads(buffer, |front|, parts);
    StampInPlace(buffer, t, seqNo, flags);
  }

  /** The copying loop over the list. */
  method CopyPayloads(buffer: array<byte>, at: nat, parts: seq<seq<byte>>)
    requires at + |Join(parts)| == buffer.Length
    modifies buffer
    ensures buffer[..] == old(buffer[..at]) + Join(parts)
  {
    var iter, k := at, 0;
    while k < |parts|
      invariant 0 <= k <= |parts| && at <= iter <= buffer.Length
      invariant buffer[..iter] == old(buffer[..at]) + Join(parts[..k])
    {
      JoinNext(parts, k);
      ghost var before := buffer[..];
      StoreSeq(buffer, iter, parts[k]);
      assert buffer[..iter] == before[..iter];
      iter := iter + |parts[k]|;
      k := k + 1;
    }
    assert parts[..|parts|] == parts;
  }

  /** packet_duplicate_info with extra payload, for a TCP packet. */
  function Duplicated(f: TcpFragment, extra: nat): Metadata {
    var ip, t := f.At(|f.headers| - 2), f.Tcp().offset;
    Metadata(0, f.At(0).totalBytes + extra, Lengthen(f.headers, extra),
             if ip.kind.IPV4? then Some(ip.offset) else None, if ip.kind.IPV6? then Some(ip.offset) else None,
             Some(t), None, None, None)
  }

  method DuplicateInfo(packet: Packet, f: TcpFragment, extra: nat)
    modifies packet
    ensures packet.buffer == old(packet.buffer) && packet.Meta() == Duplicated(f, extra)
  {
    var ip := f.At(|f.headers| - 2);
    packet.l2HeaderBytes, packet.ipBytes := 0, f.At(0).totalBytes + extra;
    packet.headers := Lengthen(f.headers, extra);
    packet.ipv4 := if ip.kind.IPV4? then Some(ip.offset) else None;
    packet.ipv6 := if ip.kind.IPV6? then Some(ip.offset) else None;
    packet.tcp, packet.udp := Some(f.Tcp().offset), None;
    packet.icmpv4, packet.icmpv6 := None, None;
  }

  /** aggregate_packets. */
  method AggregatePackets(fs: seq<TcpFragment>, payloadSize: nat) returns (packet: Packet)
    requires CanAggregate(fs) && payloadSize == |Payloads(fs)|
    ensures fresh(packet) && fresh(packet.buffer)
    ensures Draft(packet.buffer[..], packet.headers) == Aggregate(fs)
    ensures packet.Meta() == Duplicated(fs[|fs| - 1], Growth(fs)).(headers := packet.headers)
  {
    packet := NewMerged(fs, payloadSize);
    ghost var m, hs := packet.buffer[..], packet.headers;
    AggregateIs(fs, m, hs);
    FinishEncapsulationHeaders(packet);
  }

  lemma {:induction false} AggregateIs(fs: seq<TcpFragment>, m: seq<byte>, hs: seq<Header>)
    requires CanAggregate(fs) && m == Merged(fs) && hs == Lengthen(fs[|fs| - 1].headers, Growth(fs))
    ensures Room(m, hs) && Finish(m, hs) == Aggregate(fs) && hs != [] && hs[|hs| - 1].kind.TCP?
  {
  }

  /** The part of aggregate_packets before the headers are finished. */
  method NewMerged(fs: seq<TcpFragment>, payloadSize: nat) returns (packet: Packet)
    requires fs != [] && fs[|fs| - 1].Tcp().offset + 20 <= fs[|fs| - 1].PayloadStart()
    requires payloadSize == |Payloads(fs)| >= fs[|fs| - 1].PayloadLen()
    ensures fresh(packet) && fresh(packet.buffer)
    ensures packet.buffer[..] == Merged(fs) && packet.headers == Lengthen(fs[|fs| - 1].headers, Growth(fs))
    ensures packet.Meta() == Duplicated(fs[|fs| - 1], Growth(fs))
  {
    var last := fs[|fs| - 1];
    var extra := payloadSize - last.PayloadLen();
    packet := new Packet(last.End() + extra);
    FillMerged(packet.buffer, last.bytes[..last.PayloadStart()], PayloadList(fs), last.Tcp().offset,
               fs[0].Seq(), fs[0].Flags());
    DuplicateInfo(packet, last, extra);
  }

  // ----- The merged packet is one well-formed packet

  /** The last fragment is a packet as the parser accepts it, captured from Ethernet or from IP. */
  predicate Captured(fs: seq<TcpFragment>, layer: Layer) {
    fs != [] && Parse(fs[|fs| - 1].bytes, layer) == Ok(fs[|fs| - 1].headers)
  }

  predicate OptionLess(hs: seq<Header>) {
    forall i :: 0 <= i < |hs| && hs[i].kind.IPV4? ==> hs[i].headerBytes == 20
  }

  predicate LengthsFit(end: nat, hs: seq<Header>) {
    forall i :: 0 <= i < |hs| ==> LengthFits(end, hs[i])
  }

  /**
    What merging takes: no IPv4 options in the last fragment, a TCP segment that reaches to its end,
    and a merged length that every IP length field can hold.
   */
  predicate Mergeable(fs: seq<TcpFragment>) {
    && fs != []
    && var last := fs[|fs| - 1];
       Refillable(last.headers, last.End(), last.PayloadStart() + |Payloads(fs)|)
  }

  /** A stack around a packet that ends at end can carry one that ends at end'. */
  predicate Refillable(hs: seq<Header>, end: nat, end': nat) {
    && hs != [] && OptionLess(hs)
    && hs[|hs| - 1].offset + hs[|hs| - 1].totalBytes == end
    && LengthsFit(end', hs)
  }

  /**
    The segment s has the given payload behind a TCP header that has this sequence number, the CWR
    bit of these flags, and everything else from head.
   */
  predicate MergedTcp(s: seq<byte>, head: seq<byte>, seqNo: u32, flags: byte, payload: seq<byte>) {
    && |s| == |head| + |payload| && |head| >= 20
    && s[..4] == head[..4] && s[8..13] == head[8..13] && s[14..|head|] == head[14..]
    && Be32(s, 4) == seqNo && s[13] / 0x80 == flags / 0x80 && s[13] % 0x80 == head[13] % 0x80
    && s[|head|..] == payload
  }

  /** The parser accepts d with the header stack that it records, which is hs with each header reaching to the end. */
  predicate Recorded(d: Draft, hs: seq<Header>, layer: Layer) {
    Parse(d.bytes, layer) == Ok(d.headers) && d.headers == ToEnd(hs, |d.bytes|)
  }

  /** In m, a merged segment stands where the stack hs of b has its TCP header. */
  predicate Around(m: seq<byte>, b: seq<byte>, hs: seq<Header>, seqNo: u32, flags: byte, payload: seq<byte>) {
    && hs != []
    && var g := hs[|hs| - 1];
       && g.offset + g.headerBytes <= |b| && g.offset <= |m|
       && MergedTcp(m[g.offset..], b[g.offset..g.offset + g.headerBytes], seqNo, flags, payload)
  }

  /** d is one packet, with the headers of the last fragment around the segment that merges the fragments. */
  predicate OnePacket(d: Draft, fs: seq<TcpFragment>, layer: Layer)
    requires fs != []
  {
    var last := fs[|fs| - 1];
    && Recorded(d, last.headers, layer)
    && Around(d.bytes, last.bytes, last.headers, fs[0].Seq(), fs[0].Flags(), Payloads(fs))
  }

  // The parsed stack, and where the layer 4 header lies.

  lemma {:induction false} OffsetsRise(b: seq<byte>, hs: seq<Header>, i: nat)
    requires Encodes(b, hs) && i < |hs| - 1
    ensures hs[i].offset + hs[i].headerBytes <= hs[|hs| - 1].offset <= |b|
    decreases |hs| - i
  {
    EncodesEach(b, hs, i);
    EncodesEach(b, hs, i + 1);
    if i + 1 < |hs| - 1 {
      OffsetsRise(b, hs, i + 1);
    }
  }

  /** The last header of hs takes the octets of b from t to start, and at least 20 of them. */
  predicate HeadOf(b: seq<byte>, hs: seq<Header>, t: nat, start: nat) {
    hs != [] && hs[|hs| - 1].offset == t && t + 20 <= t + hs[|hs| - 1].headerBytes == start <= |b|
  }

  lemma CapturedTcp(fs: seq<TcpFragment>, layer: Layer)
    requires Captured(fs, layer)
    ensures var last := fs[|fs| - 1];
            && Encodes(last.bytes, last.headers) && HeaderOk(last.bytes, last.Tcp())
            && Entry(last.bytes, layer, last.headers[0]) && |last.headers| <= PACKET_MAX_HEADERS
            && last.Tcp().offset + 20 <= last.Tcp().offset + last.Tcp().headerBytes == last.PayloadStart()
            && HeadOf(last.bytes, last.headers, last.Tcp().offset, last.PayloadStart())
  {
    var last := fs[|fs| - 1];
    ParseIff(last.bytes, layer, last.headers);
    EncodesEach(last.bytes, last.headers, |last.headers| - 1);
  }

  /** The program's own reliance is justified for whatever the parser accepted. */
  lemma CapturedCanAggregate(fs: seq<TcpFragment>, layer: Layer)
    requires Captured(fs, layer)
    ensures CanAggregate(fs)
  {
    CapturedTcp(fs, layer);
    PayloadStandsAt(fs, |fs| - 1);
    RoomFrom(fs[|fs| - 1].bytes, Merged(fs), fs[|fs| - 1].headers);
  }

  lemma {:induction false} RoomFrom(b: seq<byte>, m: seq<byte>, hs: seq<Header>)
    requires Encodes(b, hs) && hs[|hs| - 1].offset <= |m|
    ensures Room(m, hs) && forall i :: 0 <= i < |hs| ==> hs[i].offset <= |m|
  {
    forall i | 0 <= i < |hs| ensures hs[i].offset + FixedBytes(hs[i].kind) <= |m| {
      EncodesEach(b, hs, i);
      if i < |hs| - 1 {
        OffsetsRise(b, hs, i);
      }
    }
  }

  // Where these conditions hold, the merged packet is well formed.

  /** A header that carries others is a shell for whatever it is going to carry, as long as its own octets stay. */
  lemma ShellFrom(b: seq<byte>, m: seq<byte>, h: Header, mid: nat, extra: nat)
    requires HeaderOk(b, h) && !IsLayer4(h.kind) && (h.kind.IPV4? ==> h.headerBytes == 20)
    requires h.offset + h.headerBytes <= mid <= |b| && mid <= |m| && b[..mid] == m[..mid]
    ensures Shell(m, h.(totalBytes := h.totalBytes + extra))
  {
    assert forall k :: 0 <= k < mid ==> b[k] == b[..mid][k] == m[..mid][k] == m[k];
    if h.kind.MPLS? {
      LabelStackLocal(b, m, h.offset, h.headerBytes / 4);
    }
  }

  lemma VersionFrom(b: seq<byte>, m: seq<byte>, h: Header, mid: nat, extra: nat)
    requires h.offset < mid <= |b| && mid <= |m| && b[..mid] == m[..mid]
    ensures VersionLink(b, h) ==> VersionLink(m, h.(totalBytes := h.totalBytes + extra))
  {
    assert b[h.offset] == b[..mid][h.offset] == m[..mid][h.offset] == m[h.offset];
  }

  /** An encoded stack can be finished again around another layer 4 header and payload. */
  lemma {:induction false} StackableFrom(b: seq<byte>, m: seq<byte>, hs: seq<Header>, t: nat, extra: nat)
    requires Encodes(b, hs) && hs[|hs| - 1].offset == t <= |b| && t <= |m| && b[..t] == m[..t]
    requires OptionLess(hs) && LengthsFit(|m|, hs)
    requires var g := Lengthen(hs, extra)[|hs| - 1]; HeaderOk(m, g) && t + g.totalBytes == |m|
    ensures Stackable(m, Lengthen(hs, extra))
    decreases |hs|
  {
    if |hs| > 1 {
      OffsetsRise(b, hs, 0);
      ShellFrom(b, m, hs[0], t, extra);
      VersionBehind(b, m, hs, t, extra);
      assert Lengthen(hs, extra)[1..] == Lengthen(hs[1..], extra);
      StackableFrom(b, m, hs[1..], t, extra);
    }
  }

  lemma {:induction false} VersionBehind(b: seq<byte>, m: seq<byte>, hs: seq<Header>, t: nat, extra: nat)
    requires |hs| > 1 && Encodes(b, hs) && hs[|hs| - 1].offset == t <= |b| && t <= |m| && b[..t] == m[..t]
    ensures IsIp(hs[0].kind) || Versioned(m, Lengthen(hs, extra)[1])
  {
    EncodesEach(b, hs, 1);
    if !IsIp(hs[0].kind) && IsIp(hs[1].kind) {
      OffsetsRise(b, hs, 1);
      VersionFrom(b, m, hs[1], t, extra);
    }
  }

  /** The stamped header is the TCP header it was but for two fields. */
  lemma StampHead(head: seq<byte>, seqNo: u32, flags: byte, payload: seq<byte>)
    requires |head| >= 20
    ensures MergedTcp(Stamp(head, 0, seqNo, flags) + payload, head, seqNo, flags, payload)
  {
    var h1 := Splice(head, 4, Octets32(seqNo));
    var r := Stamp(head, 0, seqNo, flags);
    assert forall k :: 0 <= k < 4 ==> r[4 + k] == h1[4 + k] == Octets32(seqNo)[k];
    assert (r + payload)[..|head|] == r;
  }

  lemma SpliceInside(front: seq<byte>, b: seq<byte>, tail: seq<byte>, i: nat, s: seq<byte>)
    requires i + |s| <= |b|
    ensures Splice(front + b + tail, |front| + i, s) == front + Splice(b, i, s) + tail
  {
  }

  /** What lies before and behind the stamped header is as before. */
  lemma StampInside(front: seq<byte>, head: seq<byte>, payload: seq<byte>, seqNo: u32, flags: byte)
    requires |head| >= 20
    ensures Stamp(front + head + payload, |front|, seqNo, flags) == front + Stamp(head, 0, seqNo, flags) + payload
  {
    SpliceInside(front, head, payload, 4, Octets32(seqNo));
    SpliceInside(front, Splice(head, 4, Octets32(seqNo)), payload, 13, [flags / 0x80 * 0x80 + head[13] % 0x80]);
    assert (front + head + payload)[|front| + 13] == head[13];
  }

  lemma StampFields(front: seq<byte>, head: seq<byte>, payload: seq<byte>, seqNo: u32, flags: byte, m: seq<byte>)
    requires |head| >= 20 && m == Stamp(front + head + payload, |front|, seqNo, flags)
    ensures m[..|front|] == front && MergedTcp(m[|front|..], head, seqNo, flags, payload)
  {
    StampInside(front, head, payload, seqNo, flags);
    StampHead(head, seqNo, flags, payload);
    assert m[|front|..] == Stamp(head, 0, seqNo, flags) + payload;
  }

  /** The last fragment's octets up to its payload, stamped, before the merged payload. */
  lemma StampedAround(b: seq<byte>, m: seq<byte>, hs: seq<Header>, t: nat, start: nat,
                      seqNo: u32, flags: byte, payload: seq<byte>)
    requires HeadOf(b, hs, t, start)
    requires m == Stamp(b[..start] + payload, t, seqNo, flags)
    ensures m[..t] == b[..t] && Around(m, b, hs, seqNo, flags, payload)
  {
    assert b[..start] == b[..t] + b[t..start];
    StampFields(b[..t], b[t..start], payload, seqNo, flags, m);
  }

  /** What the merged buffer takes over from the last fragment and from the first. */
  lemma MergedAround(fs: seq<TcpFragment>, layer: Layer)
    requires Captured(fs, layer) && CanAggregate(fs)
    ensures var last, m := fs[|fs| - 1], Merged(fs);
            && m[..last.Tcp().offset] == last.bytes[..last.Tcp().offset]
            && Around(m, last.bytes, last.headers, fs[0].Seq(), fs[0].Flags(), Payloads(fs))
  {
    var last: TcpFragment := fs[|fs| - 1];
    CapturedTcp(fs, layer);
    StampedAround(last.bytes, Merged(fs), last.headers, last.Tcp().offset, last.PayloadStart(),
                  fs[0].Seq(), fs[0].Flags(), Payloads(fs));
  }

  /** The TCP header of a merged segment is well formed, and the segment fills the packet. */
  lemma MergedTcpOk(b: seq<byte>, m: seq<byte>, h: Header, seqNo: u32, flags: byte, payload: seq<byte>)
    requires h.kind.TCP? && HeaderOk(b, h) && h.offset <= |m|
    requires MergedTcp(m[h.offset..], b[h.offset..h.offset + h.headerBytes], seqNo, flags, payload)
    ensures HeaderOk(m, h.(totalBytes := |m| - h.offset))
  {
    var t, s, head := h.offset, m[h.offset..], b[h.offset..h.offset + h.headerBytes];
    assert m[t + 12] == s[12] == s[8..13][4] == head[8..13][4] == head[12] == b[t + 12];
  }

  /** The new segment behind the old shells. */
  lemma {:induction false} Restacked(b: seq<byte>, m: seq<byte>, hs: seq<Header>, t: nat, end: nat, extra: nat,
                                     layer: Layer)
    requires |hs| > 1 && Encodes(b, hs) && hs[|hs| - 1].offset == t <= |b| && t <= |m| && b[..t] == m[..t]
    requires Refillable(hs, end, |m|) && |m| == end + extra && IsIp(hs[0].kind) && Entry(b, layer, hs[0])
    requires HeaderOk(m, hs[|hs| - 1].(totalBytes := |m| - t))
    ensures Stackable(m, Lengthen(hs, extra)) && Entry(m, layer, Lengthen(hs, extra)[0])
  {
    StackableFrom(b, m, hs, t, extra);
    EncodesEach(b, hs, 0);
    OffsetsRise(b, hs, 0);
    EntryFrom(b, m, hs[0], t, extra, layer);
  }

  lemma EntryFrom(b: seq<byte>, m: seq<byte>, h: Header, mid: nat, extra: nat, layer: Layer)
    requires IsIp(h.kind) && Entry(b, layer, h) && h.offset < mid <= |b| && mid <= |m| && b[..mid] == m[..mid]
    ensures Entry(m, layer, h.(totalBytes := h.totalBytes + extra))
  {
    VersionFrom(b, m, h, mid, extra);
    if layer.PACKET_LAYER_2_ETHERNET? {
      assert forall k :: 12 <= k < 14 ==> b[k] == b[..mid][k] == m[..mid][k] == m[k];
    }
  }

  /** Only the offsets of the headers matter for a packet whose headers all reach to its end. */
  lemma ToEndLengthen(hs: seq<Header>, extra: nat, end: nat)
    ensures ToEnd(Lengthen(hs, extra), end) == ToEnd(hs, end)
  {
  }

  /** Finishing the old stack around the new segment. */
  lemma {:induction false} FinishedAround(b: seq<byte>, m: seq<byte>, hs: seq<Header>, t: nat, end: nat, extra: nat,
                                          layer: Layer, d: Draft)
    requires Parse(b, layer) == Ok(hs) && IsIp(hs[0].kind)
    requires hs[|hs| - 1].offset == t <= |b| && t <= |m| && b[..t] == m[..t]
    requires HeaderOk(m, hs[|hs| - 1].(totalBytes := |m| - t))
    requires Refillable(hs, end, |m|) && |m| == end + extra
    requires Room(m, Lengthen(hs, extra)) && d == Finish(m, Lengthen(hs, extra))
    ensures Recorded(d, hs, layer) && d.bytes[t..] == m[t..]
  {
    ParsedLayout(b, layer, hs);
    ParseIff(b, layer, hs);
    Restacked(b, m, hs, t, end, extra, layer);
    FinishedParses(m, Lengthen(hs, extra), layer);
    ToEndLengthen(hs, extra, |m|);
  }

  lemma AroundTail(m: seq<byte>, m': seq<byte>, b: seq<byte>, hs: seq<Header>, t: nat,
                   seqNo: u32, flags: byte, payload: seq<byte>)
    requires Around(m, b, hs, seqNo, flags, payload) && hs[|hs| - 1].offset == t
    requires t <= |m'| && m'[t..] == m[t..]
    ensures Around(m', b, hs, seqNo, flags, payload)
  {
  }

  lemma {:induction false} AroundTcpOk(m: seq<byte>, b: seq<byte>, hs: seq<Header>, seqNo: u32, flags: byte,
                                       payload: seq<byte>)
    requires Encodes(b, hs) && hs[|hs| - 1].kind.TCP? && Around(m, b, hs, seqNo, flags, payload)
    ensures HeaderOk(m, hs[|hs| - 1].(totalBytes := |m| - hs[|hs| - 1].offset))
  {
    EncodesEach(b, hs, |hs| - 1);
    MergedTcpOk(b, m, hs[|hs| - 1], seqNo, flags, payload);
  }

  lemma {:induction false} FinishedOnePacket(b: seq<byte>, m: seq<byte>, hs: seq<Header>, t: nat,
                                             seqNo: u32, flags: byte, payload: seq<byte>, end: nat, extra: nat,
                                             layer: Layer, d: Draft)
    requires Parse(b, layer) == Ok(hs) && IsIp(hs[0].kind) && hs[|hs| - 1].kind.TCP? && hs[|hs| - 1].offset == t
    requires Around(m, b, hs, seqNo, flags, payload) && m[..t] == b[..t]
    requires Refillable(hs, end, |m|) && |m| == end + extra
    requires Room(m, Lengthen(hs, extra)) && d == Finish(m, Lengthen(hs, extra))
    ensures Recorded(d, hs, layer) && Around(d.bytes, b, hs, seqNo, flags, payload)
  {
    ParseIff(b, layer, hs);
    AroundTcpOk(m, b, hs, seqNo, flags, payload);
    FinishedAround(b, m, hs, t, end, extra, layer, d);
    AroundTail(m, d.bytes, b, hs, t, seqNo, flags, payload);
  }

  lemma TcpIsLast(f: TcpFragment)
    ensures f.headers != [] && f.headers[|f.headers| - 1] == f.Tcp() && f.Tcp().kind.TCP? && IsIp(f.headers[0].kind)
  {
  }

  /** Merged fragments that meet the conditions are one packet. */
  lemma AggregateParses(fs: seq<TcpFragment>, layer: Layer)
    requires Captured(fs, layer) && Mergeable(fs) && CanAggregate(fs)
    ensures OnePacket(Aggregate(fs), fs, layer)
  {
    var last, m := fs[|fs| - 1], Merged(fs);
    var extra := Growth(fs);
    TcpIsLast(last);
    MergedAround(fs, layer);
    AggregateIs(fs, m, Lengthen(last.headers, extra));
    var t, seqNo, flags, payload, end := last.Tcp().offset, fs[0].Seq(), fs[0].Flags(), Payloads(fs), last.End();
    assert m[..t] == last.bytes[..t] && |m| == end + extra;
    FinishedOnePacket(last.bytes, m, last.headers, t, seqNo, flags, payload, end, extra, layer, Aggregate(fs));
  }

  // Where one of them fails, it is not.

  predicate Contiguous(hs: seq<Header>) {
    forall i :: 1 <= i < |hs| ==> hs[i].offset == hs[i - 1].offset + hs[i - 1].headerBytes
  }

  /** Finishing counts an IPv4 header as 20 octets. */
  lemma {:induction false} FinishTotals(b: seq<byte>, hs: seq<Header>, d: Draft)
    requires |hs| > 1 && Room(b, hs) && d == Finish(b, hs)
    ensures d.headers[1..] == Finish(b, hs[1..]).headers
    ensures hs[0].kind.IPV4? ==> d.headers[0].totalBytes == 20 + d.headers[1].totalBytes
  {
  }

  /** Were some IPv4 header longer, then its total would not reach to the end; nor is that of the segment changed. */
  lemma {:induction false} ToEndOptionLess(b: seq<byte>, hs: seq<Header>, d: Draft)
    requires hs != [] && Room(b, hs) && d == Finish(b, hs) && d.headers == ToEnd(hs, |b|)
    requires Contiguous(hs) && hs[|hs| - 1].offset <= |b| && IsLayer4(hs[|hs| - 1].kind)
    ensures hs[0].offset <= |b|
    ensures OptionLess(hs) && hs[|hs| - 1].offset + hs[|hs| - 1].totalBytes == |b|
    decreases |hs|
  {
    assert d.headers[0] == ToEnd(hs, |b|)[0];
    if |hs| > 1 {
      FinishTotals(b, hs, d);
      assert ToEnd(hs, |b|)[1..] == ToEnd(hs[1..], |b|);
      ToEndOptionLess(b, hs[1..], Finish(b, hs[1..]));
      assert d.headers[1] == ToEnd(hs, |b|)[1];
      OptionLessCons(hs);
    }
  }

  lemma OptionLessCons(hs: seq<Header>)
    requires hs != [] && OptionLess(hs[1..]) && (hs[0].kind.IPV4? ==> hs[0].headerBytes == 20)
    ensures OptionLess(hs)
  {
    assert forall i :: 1 <= i < |hs| ==> hs[i] == hs[1..][i - 1];
  }

  /** The length fields hold 16 bits. */
  lemma {:induction false} ToEndFits(b: seq<byte>, hs: seq<Header>)
    requires Encodes(b, ToEnd(hs, |b|)) && forall i :: 0 <= i < |hs| ==> hs[i].offset <= |b|
    ensures LengthsFit(|b|, hs)
  {
    forall i | 0 <= i < |hs| ensures LengthFits(|b|, hs[i]) {
      EncodesEach(b, ToEnd(hs, |b|), i);
    }
  }

  lemma OnePacketMergeable(fs: seq<TcpFragment>, layer: Layer)
    requires Captured(fs, layer) && CanAggregate(fs) && OnePacket(Aggregate(fs), fs, layer)
    ensures Mergeable(fs)
  {
    var last := fs[|fs| - 1];
    var extra := Growth(fs);
    var m, d := Merged(fs), Aggregate(fs);
    CapturedTcp(fs, layer);
    AggregateIs(fs, m, Lengthen(last.headers, extra));
    RecordedRefillable(last.bytes, m, last.headers, last.End(), extra, layer, d);
  }

  lemma {:induction false} RecordedRefillable(b: seq<byte>, m: seq<byte>, hs: seq<Header>, end: nat,
                                              extra: nat, layer: Layer, d: Draft)
    requires Encodes(b, hs) && hs[|hs| - 1].offset <= |m| && Room(m, Lengthen(hs, extra))
    requires d == Finish(m, Lengthen(hs, extra)) && Recorded(d, hs, layer)
    requires |m| == end + extra
    ensures Refillable(hs, end, |m|)
  {
    var longer := Lengthen(hs, extra);
    ToEndLengthen(hs, extra, |m|);
    EncodesContiguous(b, hs);
    LengthenKeeps(hs, extra, longer);
    ToEndOptionLess(m, longer, d);
    RecordedFits(d, hs, b, layer);
  }

  lemma LengthenKeeps(hs: seq<Header>, extra: nat, longer: seq<Header>)
    requires hs != [] && longer == Lengthen(hs, extra)
    ensures (Contiguous(hs) ==> Contiguous(longer)) && (OptionLess(longer) ==> OptionLess(hs))
    ensures longer[|hs| - 1] == hs[|hs| - 1].(totalBytes := hs[|hs| - 1].totalBytes + extra)
  {
    if OptionLess(longer) {
      forall i | 0 <= i < |hs| && hs[i].kind.IPV4? ensures hs[i].headerBytes == 20 {
        assert longer[i].headerBytes == 20;
      }
    }
  }

  lemma {:induction false} RecordedFits(d: Draft, hs: seq<Header>, b: seq<byte>, layer: Layer)
    requires Recorded(d, hs, layer) && Encodes(b, hs) && hs[|hs| - 1].offset <= |d.bytes|
    ensures LengthsFit(|d.bytes|, hs)
  {
    ParseIff(d.bytes, layer, d.headers);
    RoomFrom(b, d.bytes, hs);
    ToEndFits(d.bytes, hs);
  }

  lemma {:induction false} EncodesContiguous(b: seq<byte>, hs: seq<Header>)
    requires Encodes(b, hs)
    ensures Contiguous(hs) && IsLayer4(hs[|hs| - 1].kind)
  {
    EncodesEach(b, hs, |hs| - 1);
    forall i | 1 <= i < |hs| ensures hs[i].offset == hs[i - 1].offset + hs[i - 1].headerBytes {
      EncodesEach(b, hs, i - 1);
    }
  }

  /**
    Exactly when merging gives one packet: for whatever fragments, the last one accepted by the parser,
    the parser accepts the merged packet with the headers that aggregate_packets recorded, every length
    reaching to its end, around all payloads in order behind a TCP header with the first fragment's
    sequence number and CWR flag, if and only if the last fragment has no IPv4 options, its segment
    reaches to its end, and the merged length fits.
   */
  lemma AggregateIff(fs: seq<TcpFragment>, layer: Layer)
    requires Captured(fs, layer)
    ensures CanAggregate(fs) && (OnePacket(Aggregate(fs), fs, layer) <==> Mergeable(fs))
  {
    CapturedCanAggregate(fs, layer);
    if Mergeable(fs) {
      AggregateParses(fs, layer);
    }
    if OnePacket(Aggregate(fs), fs, layer) {
      OnePacketMergeable(fs, layer);
    }
  }

  lemma {:induction false} JoinPart(parts: seq<seq<byte>>, k: nat)
    requires k < |parts|
    ensures |Join(parts[..k])| + |parts[k]| <= |Join(parts)|
    ensures Join(parts)[|Join(parts[..k])|..|Join(parts[..k])| + |parts[k]|] == parts[k]
    decreases |parts|
  {
    var n := |parts|;
    if k < n - 1 {
      JoinPart(parts[..n - 1], k);
      assert parts[..n - 1][..k] == parts[..k];
    }
  }

  lemma PayloadStandsAt(fs: seq<TcpFragment>, i: nat)
    requires i < |fs|
    ensures var at := |Payloads(fs[..i])|;
            at + |fs[i].Payload()| <= |Payloads(fs)| && Payloads(fs)[at..at + |fs[i].Payload()|] == fs[i].Payload()
  {
    JoinPart(PayloadList(fs), i);
    assert PayloadList(fs)[..i] == PayloadList(fs[..i]);
  }

  lemma {:induction false} SequenceOfFragment(fs: seq<TcpFragment>, expected: int, i: nat)
    requires TCP_FRAGMENTS.Chain(fs, expected) && i < |fs|
    ensures fs[i].Seq() == SeqAfter(fs[0].Seq(), TCP_FRAGMENTS.Total(fs[..i]))
  {
    ObservedSeq(fs[0]);
    ObservedSeq(fs[i]);
    ObservedSequence(fs, expected, i);
  }

  lemma {:induction false} ObservedSequence(fs: seq<TcpFragment>, expected: int, i: nat)
    requires TCP_FRAGMENTS.Chain(fs, expected) && i < |fs| && 0 <= TCP_FRAGMENTS.seqNo(fs[0]) < TWO32
    ensures TCP_FRAGMENTS.seqNo(fs[i]) == SeqAfter(TCP_FRAGMENTS.seqNo(fs[0]), TCP_FRAGMENTS.Total(fs[..i]))
  {
    TcpChecksSequence();
    SequenceNumbers(TCP_FRAGMENTS, fs, expected, i);
  }

  lemma ObservedSeq(f: TcpFragment)
    ensures TCP_FRAGMENTS.seqNo(f) == f.Seq()
  {
  }

  /** The i-th payload stands in the merged payload where its sequence number says, counted from the first one's. */
  predicate InSequence(fs: seq<TcpFragment>, i: nat)
    requires i < |fs|
  {
    var at, payload := |Payloads(fs[..i])|, fs[i].Payload();
    && fs[i].Seq() == SeqAfter(fs[0].Seq(), at)
    && at + |payload| <= |Payloads(fs)| && Payloads(fs)[at..at + |payload|] == payload
  }

  /**
    Reassembly is in sequence: in what the collecting loop returns, every fragment's payload stands in
    the merged payload exactly where its sequence number says, across wrap-around, and the merged
    payload has the expected length.
   */
  lemma ReassembledInSequence(fs: seq<TcpFragment>, expected: int, i: nat)
    requires TCP_FRAGMENTS.Collected(fs, expected, expected) && i < |fs|
    ensures |Payloads(fs)| == expected && InSequence(fs, i)
  {
    PayloadsTotal(fs);
    PayloadsTotal(fs[..i]);
    SequenceOfFragment(fs, expected, i);
    PayloadStandsAt(fs, i);
  }

  /** Reassembly from end to end, for what the collecting loop returns. */
  lemma CollectedIsOnePacket(fs: seq<TcpFragment>, expected: int, layer: Layer)
    requires TCP_FRAGMENTS.Collected(fs, expected, expected) && Captured(fs, layer)
    ensures CanAggregate(fs) && |Payloads(fs)| == expected
    ensures OnePacket(Aggregate(fs), fs, layer) <==> Mergeable(fs)
    ensures forall i :: 0 <= i < |fs| ==> InSequence(fs, i)
  {
    AggregateIff(fs, layer);
    PayloadsTotal(fs);
    forall i | 0 <= i < |fs| ensures InSequence(fs, i) {
      ReassembledInSequence(fs, expected, i);
    }
  }

  // ----- Fragments that cannot be merged

  const LONG_PAYLOAD: u16 := 32747

  /** An IPv4 header without options for a datagram of 32799 octets, its checksum in place. */
  function LongIpHeader(): (r: seq<byte>)
    ensures |r| == 20
  {
    [0x45, 0, 0x80, 0x1F, 0, 0, 0, 0, 0xFF, 6, 0x3B, 0xD9] + Zeros(8)
  }

  /** A TCP header with a timestamp option. */
  function LongTcpHeader(seqNo: u32): (r: seq<byte>)
    ensures |r| == 32
  {
    Zeros(4) + Octets32(seqNo) + Zeros(4) + [0x80, 0x10] + Zeros(6) + [1, 1, 8, 10] + Zeros(8)
  }

  function LongFragment(seqNo: u32): (f: Fragment)
    ensures |f.bytes| == 32799
  {
    Fragment(LongIpHeader() + LongTcpHeader(seqNo) + Zeros(LONG_PAYLOAD), LongHeaders())
  }

  function LongHeaders(): (r: seq<Header>) {
    [Header(IPV4, 0, 20, 32799), Header(TCP, 20, 32, 32779)]
  }

  /** The fields that the parser and the loop look at. */
  predicate LongLayout(b: seq<byte>, seqNo: u32) {
    && |b| == 32799 && b[..20] == LongIpHeader()
    && (forall k :: 20 <= k < 40 && !(24 <= k < 28) && k != 32 && k != 33 ==> At(b, k) == 0)
    && Be32(b, 24) == seqNo && At(b, 32) == 0x80 && At(b, 33) == 0x10
  }

  lemma LongFields(seqNo: u32, b: seq<byte>)
    requires b == LongFragment(seqNo).bytes
    ensures LongLayout(b, seqNo)
  {
    LongTcpFields(seqNo, LongTcpHeader(seqNo));
    var t := LongTcpHeader(seqNo);
    assert forall k :: 0 <= k < 32 ==> b[20 + k] == t[k];
    assert forall k :: 20 <= k < 52 ==> b[k] == t[k - 20];
    assert b[..20] == LongIpHeader();
  }

  lemma LongTcpFields(seqNo: u32, t: seq<byte>)
    requires t == LongTcpHeader(seqNo)
    ensures Be32(t, 4) == seqNo && t[12] == 0x80 && t[13] == 0x10
    ensures forall k :: 0 <= k < 20 && !(4 <= k < 8) && k != 12 && k != 13 ==> t[k] == 0
  {
    assert t[4..8] == Octets32(seqNo);
    assert forall k :: 4 <= k < 8 ==> t[k] == t[4..8][k - 4];
  }

  lemma {:induction false} SumFirst(a: byte, b: byte, rest: seq<byte>)
    ensures OnesSum([a, b] + rest) == OnesAdd(a as int * 0x100 + b as int, OnesSum(rest))
  {
    assert ([a, b] + rest)[2..] == rest;
  }

  lemma LongIpTail() returns (tail: seq<byte>)
    ensures tail == [0xFF, 6, 0x3B, 0xD9] + Zeros(8) && OnesSum(tail) == 0x3AE0
  {
    var z2: seq<byte> := [0, 0];
    SumFirst(0, 0, []);
    assert z2 == z2 + [];
    SumFirst(0, 0, z2);
    SumFirst(0, 0, z2 + z2);
    SumFirst(0, 0, z2 + (z2 + z2));
    var z8 := z2 + (z2 + (z2 + z2));
    SumFirst(0x3B, 0xD9, z8);
    SumFirst(0xFF, 6, [0x3B, 0xD9] + z8);
    tail := [0xFF, 6] + ([0x3B, 0xD9] + z8);
  }

  lemma LongIpVerifies()
    ensures WireChecksum(LongIpHeader()) == 0
  {
    var z2: seq<byte> := [0, 0];
    var tail := LongIpTail();
    SumFirst(0, 0, tail);
    SumFirst(0, 0, z2 + tail);
    SumFirst(0x80, 0x1F, z2 + (z2 + tail));
    SumFirst(0x45, 0, [0x80, 0x1F] + (z2 + (z2 + tail)));
    assert LongIpHeader() == [0x45, 0] + ([0x80, 0x1F] + (z2 + (z2 + tail)));
  }

  /** Everything that the loop and the parser see of such a fragment. */
  predicate IsLong(f: TcpFragment, seqNo: u32) {
    && f.headers == LongHeaders()
    && LongLayout(f.bytes, seqNo)
    && f.PayloadLen() == LONG_PAYLOAD
    && Parse(f.bytes, PACKET_LAYER_3_IP) == Ok(f.headers)
  }

  lemma LongIpOctets(p: seq<byte>)
    requires p == LongIpHeader()
    ensures p[0] == 0x45 && p[1] == 0 && p[2] == 0x80 && p[3] == 0x1F && p[6] == 0 && p[7] == 0
    ensures p[8] == 0xFF && p[9] == 6 && forall k :: 12 <= k < 20 ==> p[k] == 0
  {
  }

  lemma LongIpFields(b: seq<byte>, seqNo: u32)
    requires LongLayout(b, seqNo)
    ensures At(b, 0) == 0x45 && At(b, 1) == 0 && Be16(b, 2) == 32799 && Be16(b, 6) == 0
    ensures At(b, 8) == 0xFF && At(b, 9) == 6
    ensures forall k :: 12 <= k < 24 ==> At(b, k) == 0
    ensures WireChecksum(b[0..20]) == 0
  {
    LongIpVerifies();
    PrefixFields(b, LongIpHeader());
  }

  lemma PrefixFields(b: seq<byte>, p: seq<byte>)
    requires 20 == |p| <= |b| && b[..20] == p
    ensures b[0..20] == p && forall k :: 0 <= k < 20 ==> At(b, k) == p[k]
    ensures p == LongIpHeader() ==>
              && At(b, 0) == 0x45 && At(b, 1) == 0 && Be16(b, 2) == 32799 && Be16(b, 6) == 0
              && At(b, 8) == 0xFF && At(b, 9) == 6
              && forall k :: 12 <= k < 20 ==> At(b, k) == 0
  {
    assert forall k :: 0 <= k < 20 ==> b[k] == b[..20][k];
    if p == LongIpHeader() {
      LongIpOctets(p);
    }
  }

  lemma ALongFragment(seqNo: u32) returns (f: TcpFragment)
    ensures IsLong(f, seqNo)
  {
    var long := LongFragment(seqNo);
    LongFields(seqNo, long.bytes);
    LongIpFields(long.bytes, seqNo);
    LongParses(long.bytes, long.headers);
    f := long;
  }

  lemma LongParses(b: seq<byte>, hs: seq<Header>)
    requires |b| == 32799 && hs == LongHeaders()
    requires At(b, 0) == 0x45 && Be16(b, 2) == 32799 && Be16(b, 6) == 0 && At(b, 9) == 6
    requires WireChecksum(b[0..20]) == 0 && At(b, 32) == 0x80
    ensures Parse(b, PACKET_LAYER_3_IP) == Ok(hs)
  {
    assert hs[1..] == [hs[1]];
    ParseIff(b, PACKET_LAYER_3_IP, hs);
  }

  /**
    A script packet that new_tcp_packet accepts, with any options, and two fragments that the loop
    collects for it when they are what the wire delivers: merged, they are not one packet.
   */
  lemma MergeTooLong() returns (script: TcpFields, fs: seq<TcpFragment>)
    ensures script.Accepted(AF_INET, DIRECTION_OUTBOUND)
    ensures var expected := script.payloadBytes;
            && Completes(TCP_FRAGMENTS, fs, expected, true, 1) && Stretch(TCP_FRAGMENTS, fs, 1) == fs
            && TCP_FRAGMENTS.Collected(fs, expected, expected)
    ensures Captured(fs, PACKET_LAYER_3_IP) && CanAggregate(fs)
    ensures !OnePacket(Aggregate(fs), fs, PACKET_LAYER_3_IP)
  {
    script := LongScript();
    var f := ALongFragment(0);
    var g := ALongFragment(LONG_PAYLOAD);
    fs := [f, g];
    LongFollows(f, g);
    LongCollected(f, g, fs);
    LongNotMergeable(g, fs);
    AggregateIff(fs, PACKET_LAYER_3_IP);
  }

  lemma LongScript() returns (script: TcpFields)
    ensures script.Accepted(AF_INET, DIRECTION_OUTBOUND) && script.payloadBytes == 65494
  {
    script := TcpFields(0, 0, ".", 0, 0, -1, 0, None, 65494);
  }

  lemma {:induction false} LongNotMergeable(g: TcpFragment, fs: seq<TcpFragment>)
    requires |fs| == 2 && fs[1] == g && IsLong(g, LONG_PAYLOAD) && TCP_FRAGMENTS.Total(fs) == 65494
    ensures !Mergeable(fs)
  {
    PayloadsTotal(fs);
    assert !LengthFits(65546, g.headers[0]);
  }

  lemma LongFollows(f: TcpFragment, g: TcpFragment)
    requires IsLong(f, 0) && IsLong(g, LONG_PAYLOAD)
    ensures f.Tuple() == g.Tuple() && HeadersMatch(g, f)
  {
    LongTuple(f, 0);
    LongTuple(g, LONG_PAYLOAD);
    LongTcpMatches(f, g);
    LongIpMatches(f, g);
  }

  lemma LongTuple(f: Fragment, seqNo: u32)
    requires LongLayout(f.bytes, seqNo) && f.headers == LongHeaders()
    ensures f.Tuple() == Zeros(12)
  {
    LongIpFields(f.bytes, seqNo);
    assert Field(f.bytes, 12, 8) == Zeros(8);
    assert Field(f.bytes, 20, 4) == Zeros(4);
    assert Zeros(8) + Zeros(4) == Zeros(12);
  }

  lemma LongIpMatches(f: Fragment, g: Fragment)
    requires LongLayout(f.bytes, 0) && LongLayout(g.bytes, LONG_PAYLOAD) && f.headers == g.headers == LongHeaders()
    ensures HeaderMatches(g, f, 0)
  {
    LongIpFields(f.bytes, 0);
    LongIpFields(g.bytes, LONG_PAYLOAD);
  }

  lemma LongTcpMatches(f: Fragment, g: Fragment)
    requires LongLayout(f.bytes, 0) && LongLayout(g.bytes, LONG_PAYLOAD) && f.PayloadLen() == LONG_PAYLOAD
    requires f.headers == g.headers == LongHeaders()
    ensures HeaderMatches(g, f, 1)
  {
    ZeroWord(f.bytes, 28);
    ZeroWord(g.bytes, 28);
    ZeroWord(f.bytes, 34);
    ZeroWord(g.bytes, 34);
    ZeroWord(f.bytes, 36);
    ZeroWord(g.bytes, 36);
  }

  lemma ZeroWord(b: seq<byte>, o: nat)
    requires At(b, o) == At(b, o + 1) == At(b, o + 2) == At(b, o + 3) == 0
    ensures Be32(b, o) == Be16(b, o) == Be16(b, o + 2) == 0
  {
  }

  /** What the loop makes of two fragments of that length, one after the other. */
  lemma LongCollected(f: TcpFragment, g: TcpFragment, fs: seq<TcpFragment>)
    requires fs == [f, g] && f.PayloadLen() == g.PayloadLen() == LONG_PAYLOAD
    requires f.Tuple() == g.Tuple() && HeadersMatch(g, f)
    ensures TCP_FRAGMENTS.Collected(fs, 65494, 65494)
    ensures Completes(TCP_FRAGMENTS, fs, 65494, true, 1) && Stretch(TCP_FRAGMENTS, fs, 1) == fs
  {
    assert fs[..1] == [f] && [f][..0] == [];
    assert TCP_FRAGMENTS.Total([f]) == TCP_FRAGMENTS.Total([f][..0]) + f.PayloadLen();
    assert TCP_FRAGMENTS.Chain([f], 65494);
    assert TCP_FRAGMENTS.Follows(g, f, LONG_PAYLOAD, 65494);
    assert TCP_FRAGMENTS.Collected(fs, 65494, 65494);
    assert Since(TCP_FRAGMENTS, fs, 0) == 0 && Stretch(TCP_FRAGMENTS, fs, 0) == [f];
    assert Since(TCP_FRAGMENTS, fs, 1) == 0 && Stretch(TCP_FRAGMENTS, fs, 1) == fs;
    assert FallsShort(TCP_FRAGMENTS, fs, 65494, 0);
  }
}
