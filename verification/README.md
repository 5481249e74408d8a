# packetdrill's native core, modelled and verified

The native code under `app/src/main/cpp` is packetdrill, a script-driven TCP/IP test engine, with a
small LRU cache beside it. This project models its five cores in Dafny and proves what they are for.

- **Packet codec.** `WireFormat` says what it means for octets to encode a stack of headers.
  `PacketParser` specifies the mutually recursive parser and proves it accepts exactly the encodings of
  at most six headers; `ParseInPlace` is the parser as procedures that fill in a `Packet`, proved against
  that specification. `WireOctets` and `Rejections` say over bare octets what is accepted and what is refused. `Encapsulation`, `Encapsulate`, `OuterHeaders`, `PacketChecksum` and `TcpPacket` go
  the other way, from building a segment over tunnelling it to checksums, each operation in place on
  the buffer, with the round trips through the parser. `Collecting`, `Sniffing` and `Aggregation` are the
  loop that collects fragments and the merge that follows. `SegmentOctets`, `Tunnels` and `Merges` close the
  circle: from the octets that leave, everything that went in is read back at positions written out there.
- **Checksums.** `Checksum` relates the native 32-bit sum to the 16-bit one of RFC 1071; `Crc` relates the
  table-driven CRC-32C to the shift register of RFC 4960, Appendix B.
- **Two concurrent protocols.** `SyscallThread` (two threads, one mutex, three condition variables) and
  `WireProtocol` (client and server over two FIFO channels) are step relations, with invariants over every
  run and every interleaving.
- **Caches and indexes.** `LruCache` is the list with a map of iterators into it; `HashMap` is the growing
  chained map over `Murmur`, each proved against a plain list or finite map.
- **Stream codecs.** `TcpOptions`, `WireConn` and `Argv`.

`Bytes` and `Bits` hold what the others share. What the source changes in place is a class or an array
here, with each method proved against a function of the old state; theorems are lemmas about these
functions. Every inductive lemma carries its own proof: automatic induction is off wherever it would be
tried. The host is little-endian. An address inside a buffer is an offset, a list of headers that ends in
`HEADER_NONE` is a sequence, a null pointer is `None`, and an error return with its message is a result
value without the text.

Where the code does less than its comments or callers expect, the model follows the code:

- `new_tcp_packet` admits 65536 octets, whose length field wraps to zero; `TcpPacket.TcpFitsIff` gives the
  exact limit and `TcpPacket.TcpOverflow` such a packet. On IPv6 it fails an assertion in
  `set_ipv6_header`, so it is excluded there.
- `offset_sack_blocks` shifts an option before the iterator has checked its length;
  `TcpOptions.OutsideKeptIff` says exactly when octets behind the options keep their values.
- The wire server does not wait within a stretch of packet events, so it does not in general run after
  *all* earlier events; `WireProtocol.WaitsIff` says for which events of a script it always does.
- `aggregate_packets` relies on option-less IPv4 headers and on lengths of 16 bits without checking
  either; `Aggregation.AggregateIff` is exact about when it yields one packet.
- `run_system_call_event` ignores the time limit of `await_idle_thread`: `SyscallThread.CallsAlone` says when a
  non-blocking call is made alone, `SyscallThread.TimeoutOverlaps` gives a run in which it is not.
- With a label stack outermost `ip_bytes` stays the sum of the header lengths (`ParseInPlace.ParsedIpBytes`).

To check the whole project: `dafny verify dfyconfig.toml`.

## Model

| member | source | states |
|---|---|---|
| `Checksum.IpChecksumPartial` | app/src/main/cpp/checksum.c:33-56 | Adds the little-endian sum of the octets to the accumulator, with the trailing odd octet padded; the 64-bit accumulator does not wrap for buffers of up to 2^32 octets |
| `Checksum.IpChecksumFold` | app/src/main/cpp/checksum.c:58-66 | Both folding loops end, and the result is the complement of the canonical one's-complement residue of the 64-bit sum |
| `Checksum.ChecksumIsRfc1071` | app/src/main/cpp/checksum.c:33-66 | For every octet string, odd lengths included, the 32-bit-at-a-time sum, folded and stored by a little-endian host, is the complement of the 16-bit big-endian one's-complement sum of RFC 1071, sections 1 and 2 |
| `Checksum.LeSumAppend` | app/src/main/cpp/checksum.c:97-104 | Summing a pseudo-header and then the payload is summing their concatenation |
| `Checksum.Ipv4Checksum` | app/src/main/cpp/checksum.c:106-111 | The header checksum in host order is the RFC 1071 checksum of the header |
| `Checksum.TcpUdpV4Checksum` | app/src/main/cpp/checksum.c:68-104 | The RFC 1071 checksum of the IPv4 pseudo-header followed by the segment |
| `Checksum.TcpUdpV6Checksum` | app/src/main/cpp/checksum.c:113-152 | The RFC 1071 checksum of the IPv6 pseudo-header followed by the segment |
| `Checksum.VerifiesIff` | app/src/main/cpp/checksum.c:58-66 | A value stored into a zeroed even-offset field makes the whole verify exactly if it is the computed checksum, or both are representations of zero |
| `Checksum.FillVerifies` | app/src/main/cpp/packet_checksum.c:39-64 | Zeroing a field, summing and storing the sum makes the same octets sum to zero again, for any contents and any even-length pseudo-header |
| `PacketParser.ParseIff` | app/src/main/cpp/packet_parser.c:165-186 | For every octet string and header stack: parsing succeeds with exactly that stack if and only if the octets encode it, link by link, and it has at most six headers |
| `PacketParser.ParsedLayout` | app/src/main/cpp/packet_parser.c:83-163 | Accepted headers are contiguous from the link layer on, each lies inside the capture with its header no longer than its total, and their types are any encapsulations, IP, one layer 4 header |
| `PacketParser.ParseStable` | app/src/main/cpp/packet_parser.c:202-354 | An accepted capture with any octets appended is accepted with the same headers, only label stacks reaching further |
| `PacketParser.MplsStackEndIff` | app/src/main/cpp/packet_parser.c:559-598 | The label loop ends exactly behind the first entry marked as the bottom of the stack, or at the end of the capture |
| `PacketParser.GreIff` | app/src/main/cpp/packet_parser.c:509-557 | parse_gre accepts exactly the stacks that a well-formed GRE header announces |
| `WireOctets.ParseOctetsIff` | app/src/main/cpp/packet_parser.c:165-354 | For every octet string and header stack: the parser returns that stack if and only if the octets say so, every field read at its place and with its bits as the RFCs lay them out, independently of the accessors that the parser uses |
| `WireOctets.AcceptsNoFragment` | app/src/main/cpp/packet_parser.c:231-238 | No accepted packet holds an IPv4 header with the more-fragments bit or a fragment offset, at any depth |
| `Rejections.FragmentIsBad` | app/src/main/cpp/packet_parser.c:231-238 | Setting any of those bits in any IPv4 header of an accepted packet makes the parser refuse it as bad, whatever becomes of that header's checksum |
| `Rejections.UnknownIff` | app/src/main/cpp/packet_parser.c:600-625 | PACKET_UNKNOWN_L4 is returned exactly when well-formed headers lead up to one that announces a protocol or Ethernet type that the parser does not know |
| `ParseInPlace.ParsePacket` | app/src/main/cpp/packet_parser.c:165-186 | The mutually recursive procedures that fill in one packet return the result of the specification and leave exactly its headers, pointers and lengths |
| `ParseInPlace.ParseIpv4InPlace` | app/src/main/cpp/packet_parser.c:202-288 | parse_ipv4 on the packet in place: same result and metadata as the specification, with the unchecked first read |
| `ParseInPlace.ParseIpv6InPlace` | app/src/main/cpp/packet_parser.c:290-354 | parse_ipv6 on the packet in place |
| `ParseInPlace.ParseGreInPlace` | app/src/main/cpp/packet_parser.c:509-557 | parse_gre on the packet in place |
| `ParseInPlace.ParseMplsInPlace` | app/src/main/cpp/packet_parser.c:559-598 | parse_mpls on the packet in place, its do/while loop included |
| `ParseInPlace.ParseLayer4InPlace` | app/src/main/cpp/packet_parser.c:600-625 | The dispatch on the protocol number, in place |
| `ParseInPlace.ParseLayer3ByProtoInPlace` | app/src/main/cpp/packet_parser.c:83-136 | The dispatch on the Ethernet type, in place |
| `ParseInPlace.ParsedPointers` | app/src/main/cpp/packet_parser.c:255-282 | On acceptance exactly one layer 4 pointer is set, at the last header, and exactly one IP pointer, at the innermost IP header |
| `ParseInPlace.ParsedIpBytes` | app/src/main/cpp/packet_parser.c:255-288 | ip_bytes is the outer datagram's length when IP is outermost, and the sum of the header lengths when a label stack is |
| `Packets.Packet.AppendHeader` | app/src/main/cpp/packet.c:122-146 | Appends a header where the headers so far end, or changes nothing and fails at six headers or a full buffer |
| `Encapsulate.Ipv4HeaderFinish` | app/src/main/cpp/ip_packet.c:188-204 | Length, protocol and checksum are stored in place as the specification says |
| `Encapsulate.Ipv6HeaderFinish` | app/src/main/cpp/ip_packet.c:206-221 | Payload length and next header are stored in place |
| `Encapsulate.GreHeaderFinish` | app/src/main/cpp/gre_packet.c:45-56 | The protocol is stored in place, and the total length includes what follows |
| `Encapsulate.FinishEncapsulationHeaders` | app/src/main/cpp/packet.c:216-233 | The backward loop leaves the buffer and the headers that finishing from the inside out gives |
| `Encapsulation.FinishEncodes` | app/src/main/cpp/packet.c:216-233 | Finishing any stack of shells around a complete layer 4 header makes the buffer encode the stack, each total reaching to the end, and changes no octet before the stack or from the last header on |
| `Encapsulation.FinishHeaderOk` | app/src/main/cpp/ip_packet.c:188-221 | A finish function turns a shell into a well-formed header linked to what it carries, and touches no other octet |
| `Encapsulation.FinishTouches` | app/src/main/cpp/ip_packet.c:188-221 | Finishing a stack changes nothing but the lengths, protocols and header checksums in it, octet by octet |
| `Encapsulate.CopyWithHeadroom` | app/src/main/cpp/packet.c:192-208 | The copy holds the octets in use behind the headroom, with headers and pointers moved by it |
| `Encapsulate.PacketEncapsulate` | app/src/main/cpp/packet.c:235-263 | The new packet is the two buffers one behind the other with all headers finished, and the inner packet's pointers moved by the headroom; what these point at is stated by Tunnels.EncapsulatedAsParsed |
| `Encapsulate.EncapsulateRoundTrip` | app/src/main/cpp/packet.c:235-263 | For every stack of shells starting with IP and every complete inner packet, at most six headers and fitting lengths: parsing what packet_encapsulate builds finds exactly the recorded types, offsets, header and total lengths |
| `Encapsulate.EncapsulateKeepsPayload` | app/src/main/cpp/packet.c:235-263 | The inner layer 4 header and payload are carried over unchanged |
| `Tunnels.MovedDesignates` | app/src/main/cpp/packet.c:168-179 | If the inner packet's pointers designate its innermost two headers, then those of the encapsulated packet designate them where they are now |
| `Tunnels.EncapsulatedAsParsed` | app/src/main/cpp/packet.c:235-263 | packet_encapsulate leaves the metadata that parsing the new packet would leave: every pointer at the innermost header of its type, ip_bytes the length of the whole |
| `Tunnels.AsParsedMeans` | app/src/main/cpp/packet_parser.c:255-282 | Metadata as the parser leaves them designate the innermost IP and layer 4 headers, and ip_bytes is the outermost datagram's length |
| `OuterHeaders.Ipv4HeaderAppend` | app/src/main/cpp/ip_packet.c:122-153 | Behind whatever headers, appends the header octets with both addresses in place, or changes nothing recorded and fails; behind outer headers that can carry it, the stack stays one that can be encapsulated in |
| `OuterHeaders.Ipv6HeaderAppend` | app/src/main/cpp/ip_packet.c:155-186 | The same for the IPv6 header |
| `OuterHeaders.GreHeaderAppend` | app/src/main/cpp/gre_packet.c:30-43 | The same for as many octets as the GRE flags call for |
| `OuterHeaders.MplsHeaderAppend` | app/src/main/cpp/mpls_packet.c:52-67 | The same for any label entries; the stack of shells is kept if only the last entry is marked as the bottom |
| `OuterHeaders.ShellsStored` | app/src/main/cpp/ip_packet.c:122-186 | What the append functions store is a shell of its type |
| `OuterHeaders.ShellsGrow` | app/src/main/cpp/mpls_packet.c:52-67 | Appending a shell that the last one can carry keeps the whole a stack of shells |
| `OuterHeaders.ShellsRead` | app/src/main/cpp/ip_packet.c:29-75 | The stored outer headers read back: version, traffic class, time to live with 255 for none, no fragmentation, source and destination in their places |
| `OuterHeaders.EncapsulatedTcpRoundTrip` | app/src/main/cpp/packet.c:235-263 | A built TCP segment inside built outer headers parses as the nested stack that was built, segment unchanged |
| `OuterHeaders.TunnelledTcpRoundTrip` | app/src/main/cpp/run_packet.c:1731-1745 | Build, encapsulate, checksum, parse: the packet that is sent through a tunnel is accepted with the nested stack that was built, and its TCP checksum verifies |
| `Tunnels.SendLiveIpPacket` | app/src/main/cpp/run_packet.c:1731-1745 | On any packet that the parser accepts, with metadata as it leaves them: checksums are filled in place, the packet stays accepted with the same headers, and a receiver's sum verifies |
| `Tunnels.TunnelOutgoing` | app/src/main/cpp/packet.c:235-263 | What leaves through a tunnel carries the tunnel's own octets but for lengths, protocols and header checksums, and gives every field of the script's segment and of its IP header back |
| `Tunnels.SendThroughTunnel` | app/src/main/cpp/run_packet.c:1731-1745 | The program's own steps in order, on packets in place: built, encapsulated and checksummed exactly for the accepted arguments, and read back at the far end as the script had it |
| `PacketChecksum.ChecksumPacket` | app/src/main/cpp/packet_checksum.c:108-117 | For every packet whose length fields, of at least 20 octets for an IPv4 header and one for the segment, and whose checksum fields stay inside the buffer, fragments and malformed segments included: fills in the IPv4 header checksum and then the layer 4 checksum, in place, as the specification says |
| `PacketChecksum.ChecksumIpv4Packet` | app/src/main/cpp/packet_checksum.c:35-68 | The IPv4 half of it, for TCP, UDP and ICMP |
| `PacketChecksum.ChecksumIpv6Packet` | app/src/main/cpp/packet_checksum.c:70-106 | The IPv6 half of it, for TCP, UDP and ICMPv6 |
| `PacketChecksum.ChecksummedParses` | app/src/main/cpp/packet_checksum.c:35-106 | A complete packet whose checksums have been filled in is accepted by the parser with its own headers, through every nesting of outer headers |
| `PacketChecksum.AcceptedChecksummed` | app/src/main/cpp/run_packet.c:1731-1745 | Checksumming whatever packet the parser accepts, tunnelled ones included, leaves it accepted with the same headers, changes nothing but the two checksum fields, and makes its segment verify |
| `PacketChecksum.ChecksummedVerifies` | app/src/main/cpp/packet_checksum.c:48-64 | Whenever the segment is long enough to hold its checksum field, the checksum verifies at a receiver that sums pseudo-header and segment |
| `SegmentOctets.OnlyChecksumsChange` | app/src/main/cpp/packet_checksum.c:35-106 | checksum_packet changes octets 16 and 17 of a TCP header, 6 and 7 of UDP, 2 and 3 of ICMP, 10 and 11 of an IPv4 header, and no other octet |
| `SegmentOctets.ChecksumVerifies` | app/src/main/cpp/packet_checksum.c:35-106 | The one's-complement sum that a receiver forms over the literal pseudo-header and the segment is all ones |
| `TcpPacket.NewTcpPacket` | app/src/main/cpp/tcp_packet.c:53-166 | Returns a packet exactly for the arguments that pass the checks, with exactly the specified octets and metadata |
| `TcpPacket.SetPacketIpHeader` | app/src/main/cpp/ip_packet.c:93-119 | Stores the IP header of either family and records it |
| `TcpPacket.IsTcpFlagsSpecValid` | app/src/main/cpp/tcp_packet.c:34-46 | Accepts exactly the strings over the known flag characters |
| `TcpPacket.SetTcpHeader` | app/src/main/cpp/tcp_packet.c:124-162 | The field stores write exactly the specified header |
| `TcpPacket.TcpRoundTrip` | app/src/main/cpp/tcp_packet.c:53-166 | Build, checksum, parse: every segment of at most 65535 octets is accepted with the recorded headers, and its TCP checksum verifies |
| `SegmentOctets.TcpReadsBack` | app/src/main/cpp/tcp_packet.c:124-162 | Every field of the built and checksummed segment reads back as the script's: ports, sequence and acknowledgement numbers, flags, window, urgent pointer, options, payload, traffic class, flow label and time to live |
| `SegmentOctets.AcceptedIff` | app/src/main/cpp/tcp_packet.c:66-108 | The arguments that the builder accepts, in full |
| `TcpPacket.TcpFitsIff` | app/src/main/cpp/tcp_packet.c:100-119 | A built IPv4 segment is fit for checksum_packet if and only if it has at most 65535 octets; the 65536 that the builder admits is always rejected by the parser |
| `TcpPacket.TcpOverflow` | app/src/main/cpp/tcp_packet.c:100-119 | Arguments that the builder accepts and that make 65536 octets |
| `Collecting.CollectFragments` | app/src/main/cpp/run_packet.c:1582-1681 | The loop succeeds if and only if the fragments since the last change of connection form a chain that adds up to exactly the expected length, before any fragment that breaks a chain or exceeds the length; the result is that chain; one fragment in local mode |
| `Collecting.Consider` | app/src/main/cpp/run_packet.c:1617-1670 | One round of the loop: exactly when a fragment is kept, starts the list anew, or is rejected, and the list stays a chain of compatible fragments |
| `Collecting.SequenceNumbers` | app/src/main/cpp/run_packet.c:902-904 | Each collected fragment's sequence number is the first's plus all earlier payload, modulo 2^32 |
| `Collecting.EqualPayloads` | app/src/main/cpp/run_packet.c:1423-1437 | All collected fragments but the last carry equal payloads |
| `Sniffing.TcpChecksSequence` | app/src/main/cpp/run_packet.c:858-918 | The non-strict header comparison of TCP fragments includes the check that the sequence number continues the predecessor's payload |
| `Merges.HeaderMatchesIff` | app/src/main/cpp/run_packet.c:782-918 | A fragment's header suits its predecessor's exactly when the listed octets agree, the time to live follows, and the sequence number continues the payload |
| `Merges.TupleIff` | app/src/main/cpp/run_packet.c:1638-1645 | Two fragments are of one connection exactly when IP version, both addresses and both ports are the same octets |
| `Merges.ChainIff` | app/src/main/cpp/run_packet.c:1617-1670 | The loop collects exactly the lists in which every fragment was still needed and may follow the one before it, link by link, over octets |
| `Merges.FragmentsAgree` | app/src/main/cpp/run_packet.c:1410-1437 | All fragments collected for a segment agree with the first in addresses, ports, protocol, tunnel headers, data offset, acknowledgement number, window, urgent pointer, the flags SYN, RST, ACK, URG and ECE, and in time to live unless the first one's is 255 |
| `Aggregation.AggregatePackets` | app/src/main/cpp/packet.c:274-330 | The merged packet has the specified octets and metadata |
| `Aggregation.CopyPayloads` | app/src/main/cpp/packet.c:297-303 | The copying loop concatenates the payloads in order |
| `Aggregation.AggregateIff` | app/src/main/cpp/packet.c:274-330 | For all fragments of which the parser accepted the last, from Ethernet or from IP: the parser accepts the merged packet with the recorded headers, all lengths reaching its end, around all payloads in order behind the last TCP header with the first one's sequence number and CWR flag, if and only if the last fragment has no IPv4 options, its segment reaches to its end, and the merged length fits the length fields |
| `Aggregation.CollectedIsOnePacket` | app/src/main/cpp/packet.c:274-330 | From end to end: what the loop collects can be merged, has the expected length with every payload where its sequence number says, and is one packet if and only if those conditions hold |
| `Merges.MergedAsParsed` | app/src/main/cpp/packet.c:156-185 | When the merge is one packet its metadata are those that parsing it would leave: ip_bytes reaches to the end of the buffer, and the pointers are at the innermost two headers; only the link layer length is not copied |
| `Merges.MergedOuterKept` | app/src/main/cpp/packet.c:274-330 | In front of the TCP header the merge changes nothing but lengths, protocols and header checksums |
| `Merges.CollectedMerge` | app/src/main/cpp/run_packet.c:1582-1681 | From end to end: the merged TCP header has the acknowledgement number, window, urgent pointer, data offset and flags that all collected fragments share, beside the first one's sequence number |
| `Aggregation.MergeTooLong` | app/src/main/cpp/packet.c:274-330 | A script packet that new_tcp_packet accepts, and two IPv4 fragments with TCP timestamps that the loop collects for its 65494 octets, whose merge is not one packet |
| `Aggregation.CapturedCanAggregate` | app/src/main/cpp/packet.c:274-330 | Whenever the parser accepted the last fragment, what aggregate_packets relies on holds |
| `Aggregation.ReassembledInSequence` | app/src/main/cpp/run_packet.c:1582-1681 | In what the loop collects, every payload stands in the merged payload where its sequence number says, across wrap-around, and the merged length is the expected one |
| `SyscallThread.RunInv` | app/src/main/cpp/run_system_call.c:3341-3392 | The invariant holds after every interleaving of the two threads, spurious wakeups, timeouts and errors included |
| `SyscallThread.Safety` | app/src/main/cpp/run_system_call.c:3361-3387 | No assertion of the thread fails, the RUNNING and DONE arm is not reached, mutual exclusion holds, and main never finds DONE while it holds the mutex |
| `SyscallThread.RunsWhatWasEnqueued` | app/src/main/cpp/run_system_call.c:1089-1110 | The call the thread is about to make is the event that main enqueued and is still at |
| `SyscallThread.ExactlyOnceInOrder` | app/src/main/cpp/run_system_call.c:3417-3506 | The calls started are always the script's first blocking calls, each once and in order, and all of them when main ends |
| `SyscallThread.BlockingExact` | app/src/main/cpp/run_system_call.c:3417-3440 | The reference list holds exactly the blocking calls, in increasing order |
| `SyscallThread.CallsAlone` | app/src/main/cpp/run_system_call.c:3401-3412 | Unless main has timed out since it last read an event, a call that does not block is made only while the thread is idle, all earlier blocking calls having been started and having returned |
| `SyscallThread.TimeoutOverlaps` | app/src/main/cpp/run_system_call.c:3401-3412 | A run in which main has timed out and makes such a call while the thread is in a blocking one |
| `SyscallThread.StartedBeforeNext` | app/src/main/cpp/run_system_call.c:3362-3372 | When main goes on to the next event, every blocking call up to then has been started |
| `SyscallThread.YieldsUntilBlocked` | app/src/main/cpp/run_system_call.c:3374-3398 | Main yields until it finds the thread asleep or the state IDLE, and IDLE means that all calls so far have returned |
| `SyscallThread.NeverStuck` | app/src/main/cpp/run_system_call.c:3305-3335 | No wakeup is lost and nothing deadlocks: until main has finished one thread can step without a spurious wakeup or timeout |
| `SyscallThread.CanFinish` | app/src/main/cpp/run_system_call.c:3528-3551 | From every reachable state short of a timeout, steps of the two threads alone lead to the end with every blocking call made |
| `WireProtocol.RunInv` | app/src/main/cpp/wire_server.c:315-339 | The invariant that ties both positions in the script to the messages in the two channels holds after every interleaving |
| `WireProtocol.CountsAgree` | app/src/main/cpp/wire_client.c:187-241 | Neither side ever sees a wrong event count or an unexpected message; the client dies only of a failed packet |
| `WireProtocol.ServerWaitsForClient` | app/src/main/cpp/wire_server.c:246-275 | When the server runs a packet event the client has dispatched every earlier event of its own |
| `WireProtocol.ClientWaitsForServer` | app/src/main/cpp/wire_client.c:283-302 | When the client dispatches an event of its own the server has finished every earlier packet event |
| `WireProtocol.WaitsIff` | app/src/main/cpp/wire_server.c:315-339 | For every script and packet event k: in all runs the client has dispatched every earlier event when the server runs event k, if and only if event k - 1 is not a packet event |
| `WireProtocol.NeverStuck` | app/src/main/cpp/wire_server.c:389-435 | One side can step until both have stopped |
| `WireProtocol.EmptyAtEnd` | app/src/main/cpp/wire_client.c:283-302 | Both channels are empty at the end of the script |
| `WireProtocol.WarningsConserved` | app/src/main/cpp/wire_client.c:187-215 | In every run the warnings of packets are those that the client has printed and those on their way to it |
| `WireProtocol.AllPrinted` | app/src/main/cpp/wire_server.c:356-365 | At the end of the script every warning has been printed |
| `WireProtocol.FailureIsReported` | app/src/main/cpp/wire_server.c:346-356 | A client that cannot go on has died if and only if a packet failed on the server; it never finishes the script then |
| `WireProtocol.RunsAreBounded` | app/src/main/cpp/run.c:605-652 | Every run is at most six steps for each event and the end |
| `LruCache.Cache.Put` | app/src/main/cpp/lrucache.h:26-42 | The list is the key in front of the others, cut off at the capacity; list and map stay linked |
| `LruCache.Cache.Get` | app/src/main/cpp/lrucache.h:44-52 | Returns the stored value and moves its node to the front, or reports the miss and changes nothing |
| `LruCache.PutExact` | app/src/main/cpp/lrucache.h:26-42 | After put the key has its new value, and every other key is found as before, but for the last one of a full cache that a new key pushes out; nothing is dropped while there is room |
| `LruCache.GetEraseExact` | app/src/main/cpp/lrucache.h:44-60 | get changes nothing that is found; erase_if_exists takes away its key only |
| `LruCache.EraseIfExact` | app/src/main/cpp/lrucache.h:62-73 | erase_if takes away exactly the keys whose values match |
| `LruCache.Cache.EraseIfExists` | app/src/main/cpp/lrucache.h:54-60 | Removes exactly the key |
| `LruCache.Cache.EraseIf` | app/src/main/cpp/lrucache.h:62-73 | Removes exactly the entries whose value matches, keeping order, whatever order the map is visited in |
| `LruCache.Cache.Inquiries` | app/src/main/cpp/lrucache.h:80-86 | exists and size answer as the list does, and the size is at most the capacity |
| `LruCache.Inclusion` | app/src/main/cpp/lrucache.h:26-78 | Of two caches fed the same operations the smaller one's recency list is a subsequence of the larger one's, values included |
| `LruCache.HitsGrowWithCapacity` | app/src/main/cpp/lrucache.h:44-52 | What a smaller cache finds after any operations a larger one finds too, with the same value |
| `LruCache.OrderedByLastUse` | app/src/main/cpp/lrucache.h:26-52 | The list is always ordered by last use, so the entry that put drops is the least recently used |
| `HashMap.Map.Set` | app/src/main/cpp/hash_map.c:138-149 | Replaces the first node with the key or inserts one, growing first if the map is full; the representation is kept |
| `HashMap.Map.Get` | app/src/main/cpp/hash_map.c:151-162 | Returns the value of the first node with the key |
| `HashMap.Map.Grow` | app/src/main/cpp/hash_map.c:100-121 | Every node moves to its bucket among twice as many |
| `HashMap.Map.LinkNode` | app/src/main/cpp/hash_map.c:88-94 | The node becomes the head of the bucket of its key |
| `HashMap.PickBucketCount` | app/src/main/cpp/hash_map.c:51-57 | The least power of two that covers the keys, up to 2^30 |
| `HashMap.SetKeeps` | app/src/main/cpp/hash_map.c:138-149 | Storing keeps every node in the bucket of its hash, keys unique, the count right and the load below one until 2^30 buckets; it changes one key's value and no other look-up |
| `HashMap.GrowKeeps` | app/src/main/cpp/hash_map.c:100-121 | Growing changes no look-up and no count |
| `HashMap.GrowSplits` | app/src/main/cpp/hash_map.c:100-121 | Growing sends a key of old bucket i to bucket i or i plus the old count only |
| `HashMap.RunRefinesMap` | app/src/main/cpp/hash_map.c:124-162 | After any stores, through any growths, every look-up answers as a finite map, and the key count is that map's size |
| `Murmur.MurmurHash3_x86_32` | app/src/main/cpp/hash.c:99-155 | The block loop and the tail switch compute the specified hash |
| `Murmur.HashKeyRound` | app/src/main/cpp/hash_map.c:34-39 | For a four-octet key the algorithm is one round and the finalization |
| `Murmur.FmixUndone` | app/src/main/cpp/hash.c:73-82 | The finalization is undone, both ways, by inverse multiplications and shifts |
| `Murmur.HashKeyIsPermutation` | app/src/main/cpp/hash_map.c:34-39 | hash_key is a permutation of the 32-bit words, with an explicit inverse |
| `Murmur.HashKeyInjective` | app/src/main/cpp/hash_map.c:34-39 | Distinct keys never share a full hash |
| `Crc.Crc32c` | app/src/main/cpp/checksum.c:223-239 | The table-driven loop computes the bit-serial reflected CRC-32C and emits it least significant octet first |
| `Crc.TableStepFeedsOctet` | app/src/main/cpp/checksum.c:154 | One table look-up is the shift register fed the eight bits of an octet |
| `Crc.TableIsColumns` | app/src/main/cpp/checksum.c:156-221 | Every one of the 256 table entries is the sum of the entries of the bits set in its index |
| `Crc.ColumnsSum` | app/src/main/cpp/checksum.c:156-221 | That sum is what eight steps of the register make of the octet |
| `Crc.BurstsAreDetected` | app/src/main/cpp/checksum.c:223-239 | Two messages of one length that differ only within 32 consecutive bits have the same sum if and only if they are equal |
| `TcpOptions.Options.Append` | app/src/main/cpp/tcp_options.c:44-54 | Appends the option's octets if they fit in 40, and changes nothing otherwise |
| `TcpOptions.Build` | app/src/main/cpp/tcp_options.c:44-54 | Any list of well-formed options is appended completely exactly if it totals at most 40 octets, and then iterates into the same options in order |
| `TcpOptions.SplitIff` | app/src/main/cpp/tcp_options_iterator.c:133-169 | An option area iterates into these options if and only if it is their concatenation and each is well formed |
| `TcpOptions.WellFormedIff` | app/src/main/cpp/tcp_options_iterator.c:40-77 | The option kinds and the length of each, in full |
| `TcpOptions.StopsIff` | app/src/main/cpp/tcp_options_iterator.c:85-118 | Which error stops the iterator, for every area |
| `TcpOptions.Iterator.Next` | app/src/main/cpp/tcp_options_iterator.c:133-169 | Advances past exactly one option, or stops with the right error and does not move |
| `TcpOptions.OffsetSackBlocks` | app/src/main/cpp/run_packet.c:420-445 | The loop shifts in place as the specification says, errors included |
| `TcpOptions.ShiftOkIff` | app/src/main/cpp/run_packet.c:420-445 | Shifting succeeds exactly on areas that iterate without error and whose SACK options hold whole blocks |
| `TcpOptions.ShiftKeepsBoundaries` | app/src/main/cpp/run_packet.c:420-445 | A shifted area iterates into the shifted options, and nothing behind the area changes |
| `TcpOptions.EdgeMoves` | app/src/main/cpp/run_packet.c:433-441 | Each SACK edge moves by the offset modulo 2^32 |
| `TcpOptions.WidthsKept` | app/src/main/cpp/run_packet.c:433-441 | Every block keeps its width, across a wrap too |
| `TcpOptions.ShiftBack` | app/src/main/cpp/run_packet.c:420-445 | For every packet, malformed ones included, shifting by d and then by -d restores it bit for bit and reports the same |
| `TcpOptions.OutsideKeptIff` | app/src/main/cpp/run_packet.c:425-443 | The octets behind the option area keep their values, whatever the offset, if and only if no SACK option is reached that claims more than the area holds |
| `TcpOptions.OverrunExample` | app/src/main/cpp/run_packet.c:425-443 | For every size from two octets on, and so for every size that a TCP header can have, an option area for which the payload behind it changes |
| `WireConn.Conn.WriteBytes` | app/src/main/cpp/wire_conn.c:156-174 | Whatever partial writes and interruptions, the octets go out in order, all of them on success; how many, with which status and after which answers of the kernel is exact |
| `WireConn.Conn.ReadBytes` | app/src/main/cpp/wire_conn.c:197-218 | The first octets on the way, in whatever pieces they come, all of them on success; how many, with which status and after which answers is exact |
| `WireConn.Conn.Write` | app/src/main/cpp/wire_conn.c:176-194 | Header and payload go out as one frame, or as much of its front as the kernel takes; status and answers used are exact |
| `WireConn.Conn.Read` | app/src/main/cpp/wire_conn.c:220-254 | On success the frame at the front of the stream; an announced length outside 0 to 10,000,000 is refused; status, octets taken and answers used are exact; the reused buffer is large enough and at most doubles a message |
| `WireConn.RefusedIff` | app/src/main/cpp/wire_conn.c:235-240 | A written message is refused by the reader if and only if it exceeds 10,000,000 octets |
| `WireConn.FrameOctets` | app/src/main/cpp/wire_conn.c:176-194 | A frame is its whole length and the operation, each in four octets, most significant first, and the payload |
| `WireConn.FramesUnique` | app/src/main/cpp/wire_conn.c:176-254 | A stream is the frames of one list of messages only |
| `WireConn.MessageWritten` | app/src/main/cpp/wire_conn.c:176-194 | Whenever a reliable kernel moves an octet at least once for each octet of the frame, the write succeeds, and leaves the rest of its answers for the next |
| `WireConn.MessageRead` | app/src/main/cpp/wire_conn.c:220-254 | The same for reading a frame at the head of the stream, unless its length is refused |
| `WireConn.WriteAll` | app/src/main/cpp/wire_conn.c:176-194 | A sequence of writes puts the frames on the stream in order, and succeeds when the kernel moves octets often enough |
| `WireConn.ReadAll` | app/src/main/cpp/wire_conn.c:220-254 | A sequence of reads takes messages off the front of any stream; of a stream of messages it reads the first of them, and all of them exactly if none is over the limit, when the kernel moves octets often enough |
| `WireConn.Converse` | app/src/main/cpp/wire_conn.c:156-254 | For every list of messages and all kernel behaviour on both sides: what is read is the front of what was written, and all of it on success; when both kernels move octets often enough, all messages are read if and only if none is over the limit |
| `WireConn.WriteEndsIff` | app/src/main/cpp/wire_conn.c:156-174 | A write on a reliable connection ends well exactly when the kernel's answers take all its octets |
| `WireConn.ReadEnds` | app/src/main/cpp/wire_conn.c:197-218 | A read of octets that are on the way ends well once as many calls have returned |
| `Argv.Serialize` | app/src/main/cpp/wire_client.c:56-86 | The second pass fills exactly the length that the first pass counted, with the kept arguments and their terminators |
| `Argv.Unserialize` | app/src/main/cpp/wire_server.c:88-121 | For any received octets: the terminated strings in order, and then --wire_server |
| `Argv.Transfer` | app/src/main/cpp/wire_client.c:56-105 | The server gets the arguments without those containing -wire_client, in order, followed by --wire_server |
| `Argv.KeptIsFilter` | app/src/main/cpp/wire_client.c:65-80 | Each argument is kept as often as it occurs, or not at all if it contains the needle |

## Left out

- Sockets, tun and pcap devices, clocks, configuration, scripts, symbol tables, output and logging: foreign effects or plumbing; what the kernel answers and what the wire delivers are parameters here.
- The individual `syscall_*` handlers: the thread protocol has one abstract call; `syscall_splice`, which never calls `begin_syscall`, is not one of the calls of the model.
- The UDP and ICMP builders: they would repeat the TCP builder with fewer fields; parsing and checksumming of both are modelled.
- Packet flags, direction, timestamps and the TOS check mode in a packet's metadata: copied by the source, read by nothing that is modelled.
- `find_tcp_timestamp` and the outbound option checks: loops over the same iterator that only read.
- The strict comparison of a sniffed packet with the script packet: field-by-field equality.
- The UDP length on aggregation: the source does not fix it up, and merging is modelled for TCP.
- IPv4 options in outer headers: `ipv4_header_finish` counts 20 octets of header, and the append functions write none; for aggregated headers `Aggregation.AggregateIff` says what options do.
- Encapsulate.FinishEncapsulationHeaders: the innermost header is of layer 4; the source would hand a finish function of any other type a null pointer for the header that follows.
- Fairness: the thread protocol is shown to be always able to finish and never stuck, not to finish under every scheduler; a spinning main thread can starve the other.
- Message lengths and the terminated error text inside WIRE_PACKETS_DONE: the protocol model passes the counts and the result.
- Allocation failure, and the BSD ports.
- HashMap.Map.LinkNode: a bucket's chain of nodes is a sequence in the bucket array; that growing reuses the node objects, and the `next` pointers themselves, are not modelled.
- LruCache.Cache.Get: returns the value, not a reference through which the caller could store into the cache.
- Sniffing.TcpChecksSequence: sniffed fragments are values, already converted to script sequence numbers; the TOS and window checks that depend on script flags are off, as they are for sniffed packets.
- Argv.Unserialize: the source's last loop pass reads one string behind the input and overwrites the result at once; that read is absent.
- TcpOptions.OffsetSackBlocks: a store past the end of the packet's memory is dropped, and a read there gives zero.
- ParseInPlace.ParseIpv4InPlace: the header length is read before any bounds check; beyond the buffer that read may return any value.
- Murmur.MurmurHash3_x86_32: the 128-bit variants, which nothing uses, are not modelled.
