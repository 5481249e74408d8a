/** Collecting the fragments of one scripted packet (do_outbound_script_packet and its verify functions). */
module Sniffing {
  import opened Bytes
  import opened WireFormat
  import opened Collecting

  /** A sniffed packet as the parser left it, its sequence number already converted to script space. */
  datatype Fragment = Fragment(bytes: seq<byte>, headers: seq<Header>)
  {
    /** TCP under IP, in a captured datagram whose outermost header is IP too and covers the TCP header. */
    predicate Valid() {
      && |headers| >= 2 && IsIp(headers[0].kind) && IsIp(headers[|headers| - 2].kind)
      && headers[|headers| - 1].kind.TCP?
      && PayloadStart() <= End() <= |bytes|
    }

    /** The i-th header; reading beyond the list gives an empty one. */
    function At(i: int): Header {
      if 0 <= i < |headers| then headers[i] else Header(TCP, 0, 0, 0)
    }

    function Tcp(): Header { At(|headers| - 1) }

    /** packet_end: where the outermost datagram ends. */
    function End(): nat { At(0).offset + At(0).totalBytes }

    /** packet_payload. */
    function PayloadStart(): nat { Tcp().offset + TcpHeaderLen(bytes, Tcp().offset) }

    /** packet_payload_len, a difference of pointers. */
    function PayloadLen(): int { End() - PayloadStart() }

    function Payload(): seq<byte>
      requires Valid()
    {
      bytes[PayloadStart()..End()]
    }

    function Seq(): u32 { Be32(bytes, Tcp().offset + 4) }

    /** The octet that holds the TCP flags. */
    function Flags(): byte { Bytes.At(bytes, Tcp().offset + 13) }

    /** get_packet_tuple: the addresses of the innermost IP header and the ports. */
    function Tuple(): seq<byte> {
      var ip := At(|headers| - 2);
      Field(bytes, if ip.kind.IPV4? then ip.offset + 12 else ip.offset + 8, if ip.kind.IPV4? then 8 else 32)
      + Field(bytes, Tcp().offset, 4)
    }
  }

  /** The n octets at o. */
  function Field(b: seq<byte>, o: nat, n: nat): (r: seq<byte>)
    ensures |r| == n
  {
    seq<byte>(n, i requires 0 <= i => At(b, o + i))
  }

  /**
    verify_ipv4, verify_ipv6, verify_gre and verify_tcp in their non-strict mode, comparing a fragment
    with its predecessor: a sniffed packet, so with none of the check flags of a script packet set.
   */
  predicate HeaderMatches(actual: Fragment, script: Fragment, i: nat)
    requires i < |actual.headers| && i < |script.headers|
  {
    var a, s := actual.bytes, script.bytes;
    var o, p := actual.headers[i].offset, script.headers[i].offset;
    && actual.headers[i].kind == script.headers[i].kind
    && match actual.headers[i].kind
       case IPV4 =>
         && At(a, o) == At(s, p) && At(a, o + 9) == At(s, p + 9)
         && (At(s, p + 8) == 255 || At(a, o + 8) == At(s, p + 8))
       case IPV6 =>
         && IpVersion(a, o) == IpVersion(s, p) && At(a, o + 6) == At(s, p + 6)
         && (At(s, p + 7) == 255 || At(a, o + 7) == At(s, p + 7))
       case GRE =>
         GreLen(a, o) == GreLen(s, p) && Field(a, o, GreLen(a, o)) == Field(s, p, GreLen(s, p))
       case MPLS =>
         && actual.headers[i].headerBytes == script.headers[i].headerBytes
         && Field(a, o, actual.headers[i].headerBytes) == Field(s, p, script.headers[i].headerBytes)
       case TCP =>
         && At(a, o + 12) == At(s, p + 12)
         && FlagsButFinPshCwr(At(a, o + 13)) == FlagsButFinPshCwr(At(s, p + 13))
         && Be32(a, o + 4) == SeqAfter(Be32(s, p + 4), script.PayloadLen())
         && Be32(a, o + 8) == Be32(s, p + 8)
         && Be16(a, o + 14) == Be16(s, p + 14)
         && Be16(a, o + 18) == Be16(s, p + 18)
       case _ => true
  }

  /** syn, rst, ack, urg and ece: the flags on which all fragments of one segment agree. */
  function FlagsButFinPshCwr(flags: byte): nat {
    flags / 2 % 4 + flags / 0x10 % 8 * 4
  }

  /** verify_outbound_live_headers, non-strict. */
  predicate HeadersMatch(actual: Fragment, script: Fragment) {
    && |actual.headers| == |script.headers|
    && forall i :: 0 <= i < |script.headers| ==> HeaderMatches(actual, script, i)
  }

  type TcpFragment = f: Fragment | f.Valid()
    witness Fragment([], [Header(IPV4, 0, 0, 0), Header(TCP, 0, 0, 0)])

  /** How the collecting loop observes TCP fragments. */
  const TCP_FRAGMENTS: Observe<TcpFragment> :=
    Observe((f: TcpFragment) => f.Tuple(), (f: TcpFragment) => f.PayloadLen(), (f: TcpFragment) => f.Seq(),
            (a: TcpFragment, b: TcpFragment) => HeadersMatch(a, b))

  lemma TcpChecksSequence()
    ensures TCP_FRAGMENTS.ChecksSequence()
  {
    forall a: TcpFragment, b: TcpFragment | TCP_FRAGMENTS.matches(a, b)
      ensures TCP_FRAGMENTS.seqNo(a) == SeqAfter(TCP_FRAGMENTS.seqNo(b), TCP_FRAGMENTS.len(b))
    {
      HeadersMatchSequence(a, b);
    }
  }

  lemma HeadersMatchSequence(a: Fragment, b: Fragment)
    requires a.Valid() && b.Valid() && HeadersMatch(a, b)
    ensures a.Seq() == SeqAfter(b.Seq(), b.PayloadLen())
  {
    assert HeaderMatches(a, b, |a.headers| - 1);
  }
}
