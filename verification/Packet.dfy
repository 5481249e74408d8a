/** struct packet and its header bookkeeping (packet.h, packet.c). */
module Packets {
  import opened Wrappers
  import opened Bytes
  import opened WireFormat

  /** Everything a packet records about the bytes in its buffer. Pointers are offsets into the buffer. */
  datatype Metadata = Metadata(l2HeaderBytes: nat, ipBytes: nat, headers: seq<Header>,
                               ipv4: Option<nat>, ipv6: Option<nat>,
                               tcp: Option<nat>, udp: Option<nat>, icmpv4: Option<nat>, icmpv6: Option<nat>)

  class Packet {
    var buffer: array<byte>
    var l2HeaderBytes: nat
    var ipBytes: nat
    var headers: seq<Header>
    var ipv4: Option<nat>
    var ipv6: Option<nat>
    var tcp: Option<nat>
    var udp: Option<nat>
    var icmpv4: Option<nat>
    var icmpv6: Option<nat>

    /** packet_new: calloc clears the metadata, the buffer itself is left as malloc returns it. */
    constructor (bufferBytes: nat)
      ensures fresh(buffer) && buffer.Length == bufferBytes
      ensures Meta() == Metadata(0, 0, [], None, None, None, None, None, None)
    {
      buffer := new byte[bufferBytes];
      l2HeaderBytes, ipBytes, headers := 0, 0, [];
      ipv4, ipv6, tcp, udp, icmpv4, icmpv6 := None, None, None, None, None, None;
    }

    function Meta(): Metadata
      reads this
    {
      Metadata(l2HeaderBytes, ipBytes, headers, ipv4, ipv6, tcp, udp, icmpv4, icmpv6)
    }

    /**
      packet_append_header, followed by what every caller does with the header it gets back: to set
      its total_bytes. The new header starts where the headers so far end.
     */
    method AppendHeader(kind: HeaderType, headerBytes: nat, totalBytes: nat) returns (ok: bool)
      requires |headers| <= PACKET_MAX_HEADERS
      modifies this`ipBytes, this`headers
      ensures ok == (|old(headers)| < PACKET_MAX_HEADERS && old(ipBytes) + headerBytes <= buffer.Length)
      ensures Meta() == if !ok then old(Meta()) else old(Meta()).(
                          ipBytes := old(ipBytes) + headerBytes,
                          headers := old(headers) +
                            [Header(kind, l2HeaderBytes + old(ipBytes), headerBytes, totalBytes)])
    {
      if |headers| == PACKET_MAX_HEADERS {
        return false;
      }
      if ipBytes + headerBytes > buffer.Length {
        return false;
      }
      var header := Header(kind, l2HeaderBytes + ipBytes, headerBytes, 0);
      ipBytes := ipBytes + headerBytes;
      headers := headers + [header.(totalBytes := totalBytes)];
      ok := true;
    }
  }

  function HeaderSum(hs: seq<Header>): nat {
    if hs == [] then 0 else hs[0].headerBytes + HeaderSum(hs[1..])
  }
}
