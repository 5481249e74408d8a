/** Which fragments may follow one another, and what their merge has in common with all of them. */
module Merges {
  import opened Wrappers
  import opened Bytes
  import opened WireFormat
  import opened PacketParser
  import opened Packets
  import opened ParseInPlace
  import opened Encapsulation
  import opened PacketChecksum
  import opened Collecting
  import opened Sniffing
  import opened Aggregation
  import opened Tunnels

  // ----- Which fragments may follow one another

  /** The k-th octet of a field at o. */
  function Octet(b: seq<byte>, o: nat, k: nat): byte { At(b, o + k) }

  /** a and b have the same n octets, at o and at p. */
  predicate SameOctets(a: seq<byte>, o: nat, b: seq<byte>, p: nat, n: nat) {
    forall k :: 0 <= k < n ==> Octet(a, o, k) == Octet(b, p, k)
  }

  /** SYN, RST, ACK, URG and ECE; FIN, PSH and CWR may differ. */
  predicate SameFlags(x: byte, y: byte) {
    && x / 0x02 % 2 == y / 0x02 % 2 && x / 0x04 % 2 == y / 0x04 % 2 && x / 0x10 % 2 == y / 0x10 % 2
    && x / 0x20 % 2 == y / 0x20 % 2 && x / 0x40 % 2 == y / 0x40 % 2
  }

  /** The octets of a GRE header that its flags call for. */
  function GreOctetCount(b: seq<byte>, o: nat): nat {
    4 + (if At(b, o) / 0x80 == 1 then 4 else 0) + (if At(b, o) / 0x20 % 2 == 1 then 4 else 0)
      + if At(b, o) / 0x10 % 2 == 1 then 4 else 0
  }

  /** The fields of header i that do not change from one fragment of a segment to the next. */
  predicate SameFields(a: Fragment, b: Fragment, i: nat)
    requires i < |a.headers| && i < |b.headers|
  {
    var x, y, o, p := a.bytes, b.bytes, a.headers[i].offset, b.headers[i].offset;
    && a.headers[i].kind == b.headers[i].kind
    && match a.headers[i].kind
       case IPV4 => At(x, o) == At(y, p) && At(x, o + 9) == At(y, p + 9)
       case IPV6 => At(x, o) / 16 == At(y, p) / 16 && At(x, o + 6) == At(y, p + 6)
       case GRE => GreOctetCount(x, o) == GreOctetCount(y, p) && SameOctets(x, o, y, p, GreOctetCount(x, o))
       case MPLS =>
         a.headers[i].headerBytes == b.headers[i].headerBytes && SameOctets(x, o, y, p, a.headers[i].headerBytes)
       case TCP =>
         && At(x, o + 12) == At(y, p + 12)                        // data offset
         && SameFlags(At(x, o + 13), At(y, p + 13))
         && SameOctets(x, o + 8, y, p + 8, 4)                     // acknowledgement number
         && SameOctets(x, o + 14, y, p + 14, 2)                   // window
         && SameOctets(x, o + 18, y, p + 18, 2)                   // urgent pointer
       case _ => true
  }

  /** The time to live or hop limit: 255 in the one before stands for any. */
  predicate TtlFollows(a: Fragment, b: Fragment, i: nat)
    requires i < |a.headers| && i < |b.headers|
  {
    var o, p := a.headers[i].offset, b.headers[i].offset;
    match a.headers[i].kind
    case IPV4 => At(b.bytes, p + 8) == 255 || At(a.bytes, o + 8) == At(b.bytes, p + 8)
    case IPV6 => At(b.bytes, p + 7) == 255 || At(a.bytes, o + 7) == At(b.bytes, p + 7)
    case _ => true
  }

  function Word(b: seq<byte>, o: nat): nat {
    At(b, o) as int * 0x100_0000 + At(b, o + 1) as int * 0x1_0000 + At(b, o + 2) as int * 0x100 + At(b, o + 3)
  }

  /** The sequence number goes on where b's payload ends. */
  predicate SequenceFollows(a: Fragment, b: Fragment, i: nat)
    requires i < |a.headers| && i < |b.headers|
  {
    a.headers[i].kind == TCP ==>
      Word(a.bytes, a.headers[i].offset + 4)
      == (Word(b.bytes, b.headers[i].offset + 4) + b.PayloadLen()) % 0x1_0000_0000
  }

  lemma SameFlagsIff(x: byte, y: byte)
    ensures FlagsButFinPshCwr(x) == FlagsButFinPshCwr(y) <==> SameFlags(x, y)
  {
    FlagParts(x);
    FlagParts(y);
    LowPart(x / 2 % 4, x / 0x10 % 8, y / 2 % 4, y / 0x10 % 8);
    TwoParts(x / 0x02 % 2, x / 0x04 % 2, y / 0x02 % 2, y / 0x04 % 2);
    ThreeParts(x / 0x10 % 2, x / 0x20 % 2, x / 0x40 % 2, y / 0x10 % 2, y / 0x20 % 2, y / 0x40 % 2);
  }

  lemma LowPart(a: nat, b: nat, c: nat, d: nat)
    requires a < 4 && c < 4
    ensures a + b * 4 == c + d * 4 <==> a == c && b == d
  {
  }

  lemma TwoParts(a: nat, b: nat, c: nat, d: nat)
    requires a < 2 && c < 2
    ensures a + 2 * b == c + 2 * d <==> a == c && b == d
  {
  }

  lemma ThreeParts(a: nat, b: nat, c: nat, d: nat, e: nat, f: nat)
    requires a < 2 && b < 2 && d < 2 && e < 2
    ensures a + 2 * b + 4 * c == d + 2 * e + 4 * f <==> a == d && b == e && c == f
  {
    TwoParts(a, b + 2 * c, d, e + 2 * f);
    TwoParts(b, c, e, f);
  }

  lemma FlagParts(x: byte)
    ensures x / 2 % 4 == x / 0x02 % 2 + 2 * (x / 0x04 % 2)
    ensures x / 0x10 % 8 == x / 0x10 % 2 + 2 * (x / 0x20 % 2) + 4 * (x / 0x40 % 2)
  {
    Halves(x);
    TwoBits(x / 2);
    ThreeBits(x / 0x10);
  }

  lemma Halves(x: nat)
    ensures x / 0x04 == x / 2 / 2 && x / 0x20 == x / 0x10 / 2 && x / 0x40 == x / 0x10 / 4
  {
  }

  lemma ThreeBits(v: nat)
    ensures v % 8 == v % 2 + 2 * (v / 2 % 2) + 4 * (v / 4 % 2)
  {
    TwoBits(v / 2);
    assert v / 2 / 2 == v / 4 && v % 8 == v % 2 + 2 * (v / 2 % 4);
  }

  lemma TwoBits(v: nat)
    ensures v % 4 == v % 2 + 2 * (v / 2 % 2)
  {
  }

  lemma SameWordIff(a: seq<byte>, o: nat, b: seq<byte>, p: nat)
    ensures Be32(a, o) == Be32(b, p) <==> SameOctets(a, o, b, p, 4)
  {
    SameHalves(Be16(a, o), Be16(a, o + 2), Be16(b, p), Be16(b, p + 2));
    SameHalfIff(a, o, b, p);
    SameHalfIff(a, o + 2, b, p + 2);
    assert Octet(a, o, 2) == Octet(a, o + 2, 0) && Octet(a, o, 3) == Octet(a, o + 2, 1);
    assert Octet(b, p, 2) == Octet(b, p + 2, 0) && Octet(b, p, 3) == Octet(b, p + 2, 1);
  }

  lemma SameHalves(a: u16, b: u16, c: u16, d: u16)
    ensures a as int * 0x1_0000 + b as int == c as int * 0x1_0000 + d as int <==> a == c && b == d
  {
  }

  lemma SameHalfIff(a: seq<byte>, o: nat, b: seq<byte>, p: nat)
    ensures Be16(a, o) == Be16(b, p) <==> SameOctets(a, o, b, p, 2)
  {
    if SameOctets(a, o, b, p, 2) {
      assert Octet(a, o, 0) == Octet(b, p, 0) && Octet(a, o, 1) == Octet(b, p, 1);
    }
  }

  lemma FieldIff(a: seq<byte>, o: nat, b: seq<byte>, p: nat, n: nat)
    ensures Field(a, o, n) == Field(b, p, n) <==> SameOctets(a, o, b, p, n)
  {
    var x, y := Field(a, o, n), Field(b, p, n);
    assert forall k :: 0 <= k < n ==> x[k] == Octet(a, o, k) && y[k] == Octet(b, p, k);
    if x == y {
      forall k | 0 <= k < n ensures Octet(a, o, k) == Octet(b, p, k) {
        assert x[k] == y[k];
      }
    }
  }

  lemma GreCount(b: seq<byte>, o: nat)
    ensures GreLen(b, o) == GreOctetCount(b, o)
  {
  }

  /** A fragment's header suits its predecessor's exactly when these octets say so. */
  lemma HeaderMatchesIff(a: Fragment, b: Fragment, i: nat)
    requires i < |a.headers| && i < |b.headers|
    ensures HeaderMatches(a, b, i) <==> SameFields(a, b, i) && TtlFollows(a, b, i) && SequenceFollows(a, b, i)
  {
    var x, y, o, p := a.bytes, b.bytes, a.headers[i].offset, b.headers[i].offset;
    match a.headers[i].kind {
      case GRE =>
        GreCount(x, o);
        GreCount(y, p);
        FieldIff(x, o, y, p, GreLen(x, o));
      case MPLS => FieldIff(x, o, y, p, a.headers[i].headerBytes);
      case TCP =>
        SameFlagsIff(At(x, o + 13), At(y, p + 13));
        SameWordIff(x, o + 8, y, p + 8);
        SameHalfIff(x, o + 14, y, p + 14);
        SameHalfIff(x, o + 18, y, p + 18);
      case _ =>
    }
  }

  /** One connection: the same IP version innermost, the same addresses and the same ports. */
  predicate SameConnection(a: Fragment, b: Fragment) {
    var x, y, o, p := a.bytes, b.bytes, a.At(|a.headers| - 2), b.At(|b.headers| - 2);
    && o.kind.IPV4? == p.kind.IPV4?
    && (if o.kind.IPV4? then SameOctets(x, o.offset + 12, y, p.offset + 12, 8)   // source and destination
        else SameOctets(x, o.offset + 8, y, p.offset + 8, 32))
    && SameOctets(x, a.Tcp().offset, y, b.Tcp().offset, 4)                       // ports
  }

  lemma TupleIff(a: Fragment, b: Fragment)
    ensures a.Tuple() == b.Tuple() <==> SameConnection(a, b)
  {
    var o, p := a.At(|a.headers| - 2), b.At(|b.headers| - 2);
    var m, n := if o.kind.IPV4? then 8 else 32, if p.kind.IPV4? then 8 else 32;
    var f, g := Field(a.bytes, if o.kind.IPV4? then o.offset + 12 else o.offset + 8, m),
                Field(b.bytes, if p.kind.IPV4? then p.offset + 12 else p.offset + 8, n);
    SameConcatenation(f, Field(a.bytes, a.Tcp().offset, 4), g, Field(b.bytes, b.Tcp().offset, 4));
    FieldIff(a.bytes, a.Tcp().offset, b.bytes, b.Tcp().offset, 4);
    if m == n {
      FieldIff(a.bytes, if o.kind.IPV4? then o.offset + 12 else o.offset + 8,
               b.bytes, if p.kind.IPV4? then p.offset + 12 else p.offset + 8, m);
    }
  }

  lemma SameConcatenation(f: seq<byte>, x: seq<byte>, g: seq<byte>, y: seq<byte>)
    requires |x| == |y|
    ensures f + x == g + y <==> f == g && x == y
  {
    if f + x == g + y {
      assert |f| == |g| && f == (f + x)[..|f|] && g == (g + y)[..|f|];
      assert x == (f + x)[|f|..] && y == (g + y)[|f|..];
    }
  }

  /** a may be collected right behind b, its payload not being the last one, or being it. */
  predicate Succeeds(a: Fragment, b: Fragment, last: bool) {
    && SameConnection(a, b) && |a.headers| == |b.headers|
    && (forall i :: 0 <= i < |a.headers| ==> SameFields(a, b, i) && TtlFollows(a, b, i) && SequenceFollows(a, b, i))
    && (!last ==> a.PayloadLen() == b.PayloadLen())
  }

  lemma FollowsIff(a: TcpFragment, b: TcpFragment, sniffed: int, expected: int)
    ensures TCP_FRAGMENTS.Follows(a, b, sniffed, expected)
            <==> Succeeds(a, b, sniffed + a.PayloadLen() >= expected)
  {
    TupleIff(a, b);
    ObservesTcp(a, b);
    if |a.headers| == |b.headers| {
      forall i | 0 <= i < |a.headers|
        ensures HeaderMatches(a, b, i) <==> SameFields(a, b, i) && TtlFollows(a, b, i) && SequenceFollows(a, b, i)
      {
        HeaderMatchesIff(a, b, i);
      }
    }
  }

  lemma ObservesTcp(a: TcpFragment, b: TcpFragment)
    ensures TCP_FRAGMENTS.matches(a, b) == HeadersMatch(a, b)
    ensures TCP_FRAGMENTS.tuple(a) == a.Tuple() && TCP_FRAGMENTS.tuple(b) == b.Tuple()
    ensures TCP_FRAGMENTS.len(a) == a.PayloadLen() && TCP_FRAGMENTS.len(b) == b.PayloadLen()
  {
  }

  /** The i-th fragment was still needed, and may follow the one before it. */
  predicate LinkAt(fs: seq<TcpFragment>, expected: int, i: nat)
    requires 0 < i < |fs|
  {
    && |Payloads(fs[..i])| < expected
    && Succeeds(fs[i], fs[i - 1], |Payloads(fs[..i])| + fs[i].PayloadLen() >= expected)
  }

  lemma LinkInFront(fs: seq<TcpFragment>, front: seq<TcpFragment>, expected: int, i: nat)
    requires |fs| > 1 && front == fs[..|fs| - 1] && 0 < i < |front|
    ensures LinkAt(front, expected, i) == LinkAt(fs, expected, i)
  {
    assert front[..i] == fs[..i];
  }

  lemma {:induction false} LastLink(fs: seq<TcpFragment>, expected: int)
    requires |fs| > 1
    ensures TCP_FRAGMENTS.Chain(fs, expected)
            <==> TCP_FRAGMENTS.Chain(fs[..|fs| - 1], expected) && LinkAt(fs, expected, |fs| - 1)
  {
    var n := |fs|;
    PayloadsTotal(fs[..n - 1]);
    FollowsIff(fs[n - 1], fs[n - 2], TCP_FRAGMENTS.Total(fs[..n - 1]), expected);
  }

  /** The collected list, link by link: exactly what the loop lets through. */
  lemma {:induction false} ChainIff(fs: seq<TcpFragment>, expected: int)
    ensures TCP_FRAGMENTS.Chain(fs, expected) <==> forall i :: 0 < i < |fs| ==> LinkAt(fs, expected, i)
    decreases |fs|
  {
    var n := |fs|;
    if n > 1 {
      var front := fs[..n - 1];
      LastLink(fs, expected);
      ChainIff(front, expected);
      forall i | 0 < i < n - 1 ensures LinkAt(front, expected, i) == LinkAt(fs, expected, i) {
        LinkInFront(fs, front, expected, i);
      }
    }
  }

  // ----- What all fragments of a segment have in common

  lemma SameOctetsTwice(a: seq<byte>, o: nat, b: seq<byte>, p: nat, c: seq<byte>, q: nat, n: nat)
    requires SameOctets(a, o, b, p, n) && SameOctets(b, p, c, q, n)
    ensures SameOctets(a, o, c, q, n)
  {
    forall k | 0 <= k < n ensures Octet(a, o, k) == Octet(c, q, k) {
      assert Octet(a, o, k) == Octet(b, p, k) && Octet(b, p, k) == Octet(c, q, k);
    }
  }

  lemma SameFieldsTwice(a: Fragment, b: Fragment, c: Fragment, i: nat)
    requires i < |a.headers| && i < |b.headers| && i < |c.headers|
    requires SameFields(a, b, i) && SameFields(b, c, i)
    ensures SameFields(a, c, i)
  {
    var x, y, z := a.bytes, b.bytes, c.bytes;
    var o, p, q := a.headers[i].offset, b.headers[i].offset, c.headers[i].offset;
    match a.headers[i].kind {
      case GRE => SameOctetsTwice(x, o, y, p, z, q, GreOctetCount(x, o));
      case MPLS => SameOctetsTwice(x, o, y, p, z, q, a.headers[i].headerBytes);
      case TCP =>
        SameOctetsTwice(x, o + 8, y, p + 8, z, q + 8, 4);
        SameOctetsTwice(x, o + 14, y, p + 14, z, q + 14, 2);
        SameOctetsTwice(x, o + 18, y, p + 18, z, q + 18, 2);
      case _ =>
    }
  }

  lemma SameConnectionTwice(a: Fragment, b: Fragment, c: Fragment)
    requires SameConnection(a, b) && SameConnection(b, c)
    ensures SameConnection(a, c)
  {
    TupleIff(a, b);
    TupleIff(b, c);
    TupleIff(a, c);
  }

  /** a has what does not change within a segment from b, and its time to live, where b's is not 255. */
  predicate Agrees(a: Fragment, b: Fragment) {
    && SameConnection(a, b) && |a.headers| == |b.headers|
    && forall i :: 0 <= i < |a.headers| ==> SameFields(a, b, i) && TtlFollows(a, b, i)
  }

  lemma AgreesTwice(a: Fragment, b: Fragment, c: Fragment)
    requires Agrees(a, b) && Agrees(b, c)
    ensures Agrees(a, c)
  {
    SameConnectionTwice(a, b, c);
    forall i | 0 <= i < |a.headers| ensures SameFields(a, c, i) && TtlFollows(a, c, i) {
      assert SameFields(a, b, i) && SameFields(b, c, i) && TtlFollows(a, b, i) && TtlFollows(b, c, i);
      SameFieldsTwice(a, b, c, i);
    }
  }

  /**
    All fragments that the loop collects for one segment agree with the first: addresses, ports, IP version,
    protocol, tunnel headers, data offset, acknowledgement number, window, urgent pointer and the flags SYN,
    RST, ACK, URG and ECE; and time to live or hop limit, unless the first one's is 255.
   */
  lemma {:induction false} FragmentsAgree(fs: seq<TcpFragment>, expected: int, i: nat)
    requires TCP_FRAGMENTS.Chain(fs, expected) && i < |fs|
    ensures Agrees(fs[i], fs[0])
    decreases i
  {
    if i == 0 {
      AgreesSelf(fs[0]);
    } else {
      FragmentsAgree(fs, expected, i - 1);
      ChainIff(fs, expected);
      assert LinkAt(fs, expected, i);
      AgreesTwice(fs[i], fs[i - 1], fs[0]);
    }
  }

  lemma AgreesSelf(f: Fragment)
    ensures Agrees(f, f)
  {
  }

  // ----- The merged packet

  /** Where its TCP header is. */
  function MergedTcpAt(fs: seq<TcpFragment>): nat
    requires fs != []
  {
    fs[|fs| - 1].Tcp().offset
  }

  /**
    The merged TCP header has what all fragments have in common: the acknowledgement number, window,
    urgent pointer, data offset and flags of any of them, beside the sequence number of the first.
   */
  predicate HeaderInCommon(b: seq<byte>, t: nat, f: TcpFragment, first: TcpFragment) {
    var p, q := f.Tcp().offset, first.Tcp().offset;
    && SameOctets(b, t + 8, f.bytes, p + 8, 4) && SameOctets(b, t + 14, f.bytes, p + 14, 2)
    && SameOctets(b, t + 18, f.bytes, p + 18, 2)
    && At(b, t + 12) == At(f.bytes, p + 12) && SameFlags(At(b, t + 13), At(f.bytes, p + 13))
    && SameOctets(b, t + 4, first.bytes, q + 4, 4) && At(b, t + 13) / 0x80 == At(first.bytes, q + 13) / 0x80
  }

  lemma HeadOctets(s: seq<byte>, head: seq<byte>, seqNo: u32, flags: byte, payload: seq<byte>, k: nat)
    requires MergedTcp(s, head, seqNo, flags, payload) && k < 20 && !(4 <= k < 8) && k != 13
    ensures k < |s| && s[k] == head[k]
  {
    if k < 4 {
      assert s[k] == s[..4][k] && head[k] == head[..4][k];
    } else if k < 13 {
      assert s[k] == s[8..13][k - 8] && head[k] == head[8..13][k - 8];
    } else {
      assert s[k] == s[14..|head|][k - 14] && head[k] == head[14..][k - 14];
    }
  }

  /** The merged packet around the TCP header of the last fragment. */
  lemma AroundOctets(b: seq<byte>, last: TcpFragment, seqNo: u32, flags: byte, payload: seq<byte>)
    requires Around(b, last.bytes, last.headers, seqNo, flags, payload)
    ensures var t := last.Tcp().offset;
            && (forall k :: 0 <= k < 20 && !(4 <= k < 8) && k != 13 ==> Octet(b, t, k) == Octet(last.bytes, t, k))
            && Be32(b, t + 4) == seqNo
            && At(b, t + 13) / 0x80 == flags / 0x80 && At(b, t + 13) % 0x80 == At(last.bytes, t + 13) % 0x80
  {
    var t := last.Tcp().offset;
    var g := last.headers[|last.headers| - 1];
    var s, head := b[t..], last.bytes[t..t + g.headerBytes];
    forall k | 0 <= k < 20 && !(4 <= k < 8) && k != 13 ensures Octet(b, t, k) == Octet(last.bytes, t, k) {
      HeadOctets(s, head, seqNo, flags, payload, k);
      assert b[t + k] == s[k] && last.bytes[t + k] == head[k];
    }
    assert forall k :: 0 <= k < |s| ==> s[k] == b[t + k];
    assert At(b, t + 13) == s[13] && At(last.bytes, t + 13) == head[13];
  }

  lemma FlagsModulo(x: byte, y: byte)
    requires x % 0x80 == y % 0x80
    ensures SameFlags(x, y)
  {
    if x >= 0x80 > y {
      WithCwr(x, y);
    } else if y >= 0x80 > x {
      WithCwr(y, x);
    }
  }

  lemma WithCwr(x: byte, m: byte)
    requires x == m + 0x80
    ensures SameFlags(x, m)
  {
    Quotients(x, m);
    Parity(x / 0x02, m / 0x02, 32);
    Parity(x / 0x04, m / 0x04, 16);
    Parity(x / 0x10, m / 0x10, 4);
    Parity(x / 0x20, m / 0x20, 2);
    Parity(x / 0x40, m / 0x40, 1);
  }

  lemma Quotients(x: nat, m: nat)
    requires x == m + 0x80
    ensures x / 0x02 == m / 0x02 + 64 && x / 0x04 == m / 0x04 + 32 && x / 0x10 == m / 0x10 + 8
    ensures x / 0x20 == m / 0x20 + 4 && x / 0x40 == m / 0x40 + 2
  {
  }

  lemma Parity(u: nat, v: nat, k: nat)
    requires u == v + 2 * k
    ensures u % 2 == v % 2
  {
  }

  /** The same of the merge around the last fragment, whose flags but CWR it keeps. */
  lemma AroundFirst(b: seq<byte>, last: TcpFragment, first: TcpFragment, payload: seq<byte>)
    requires Around(b, last.bytes, last.headers, first.Seq(), first.Flags(), payload)
    ensures var t := last.Tcp().offset;
            && (forall k :: 0 <= k < 20 && !(4 <= k < 8) && k != 13 ==> Octet(b, t, k) == Octet(last.bytes, t, k))
            && SameFlags(At(b, t + 13), At(last.bytes, t + 13))
            && SameOctets(b, t + 4, first.bytes, first.Tcp().offset + 4, 4)
            && At(b, t + 13) / 0x80 == At(first.bytes, first.Tcp().offset + 13) / 0x80
  {
    var t := last.Tcp().offset;
    AroundOctets(b, last, first.Seq(), first.Flags(), payload);
    FlagsModulo(At(b, t + 13), At(last.bytes, t + 13));
    SameWordIff(b, t + 4, first.bytes, first.Tcp().offset + 4);
  }

  lemma {:induction false} MergedInCommon(fs: seq<TcpFragment>, expected: int, b: seq<byte>, i: nat)
    requires TCP_FRAGMENTS.Chain(fs, expected) && i < |fs|
    requires Around(b, fs[|fs| - 1].bytes, fs[|fs| - 1].headers, fs[0].Seq(), fs[0].Flags(), Payloads(fs))
    ensures HeaderInCommon(b, MergedTcpAt(fs), fs[i], fs[0])
  {
    FragmentsAgree(fs, expected, |fs| - 1);
    FragmentsAgree(fs, expected, i);
    AgreeInCommon(b, fs[|fs| - 1], fs[i], fs[0], Payloads(fs));
  }

  lemma AgreeInCommon(b: seq<byte>, last: TcpFragment, f: TcpFragment, first: TcpFragment, payload: seq<byte>)
    requires Around(b, last.bytes, last.headers, first.Seq(), first.Flags(), payload)
    requires Agrees(last, first) && Agrees(f, first)
    ensures HeaderInCommon(b, last.Tcp().offset, f, first)
  {
    AroundFirst(b, last, first, payload);
    LastInCommon(b, last.Tcp().offset, last, f, first);
  }

  lemma LastInCommon(b: seq<byte>, t: nat, last: TcpFragment, f: TcpFragment, first: TcpFragment)
    requires t == last.Tcp().offset && Agrees(last, first) && Agrees(f, first)
    requires forall k :: 0 <= k < 20 && !(4 <= k < 8) && k != 13 ==> Octet(b, t, k) == Octet(last.bytes, t, k)
    requires SameFlags(At(b, t + 13), At(last.bytes, t + 13))
    requires SameOctets(b, t + 4, first.bytes, first.Tcp().offset + 4, 4)
    requires At(b, t + 13) / 0x80 == At(first.bytes, first.Tcp().offset + 13) / 0x80
    ensures HeaderInCommon(b, t, f, first)
  {
    var x, p, y, q := first.bytes, first.Tcp().offset, f.bytes, f.Tcp().offset;
    TcpAgrees(last, first);
    TcpAgrees(f, first);
    FieldInCommon(b, last.bytes, t, t + 8, 8, x, p + 8, y, q + 8, 4);
    FieldInCommon(b, last.bytes, t, t + 14, 14, x, p + 14, y, q + 14, 2);
    FieldInCommon(b, last.bytes, t, t + 18, 18, x, p + 18, y, q + 18, 2);
    assert Octet(b, t, 12) == Octet(last.bytes, t, 12);
  }

  lemma TcpAgrees(f: TcpFragment, g: TcpFragment)
    requires Agrees(f, g)
    ensures var a, b, o, p := f.bytes, g.bytes, f.Tcp().offset, g.Tcp().offset;
            && SameOctets(a, o + 8, b, p + 8, 4) && SameOctets(a, o + 14, b, p + 14, 2)
            && SameOctets(a, o + 18, b, p + 18, 2)
            && At(a, o + 12) == At(b, p + 12) && SameFlags(At(a, o + 13), At(b, p + 13))
  {
    assert SameFields(f, g, |f.headers| - 1);
  }

  lemma FieldInCommon(b: seq<byte>, z: seq<byte>, t: nat, o: nat, from: nat, x: seq<byte>, p: nat,
                      y: seq<byte>, q: nat, n: nat)
    requires o == t + from && 8 <= from && from + n <= 20 && !(from <= 13 < from + n)
    requires forall k :: 0 <= k < 20 && !(4 <= k < 8) && k != 13 ==> Octet(b, t, k) == Octet(z, t, k)
    requires SameOctets(z, o, x, p, n) && SameOctets(y, q, x, p, n)
    ensures SameOctets(b, o, y, q, n)
  {
    forall k | 0 <= k < n ensures Octet(b, o, k) == Octet(y, q, k) {
      assert Octet(b, t, from + k) == Octet(z, t, from + k);
      assert Octet(z, o, k) == Octet(x, p, k) && Octet(y, q, k) == Octet(x, p, k);
    }
  }

  /** The metadata that aggregate_packets leaves. */
  function MergedMeta(fs: seq<TcpFragment>): Metadata
    requires CanAggregate(fs)
  {
    Duplicated(fs[|fs| - 1], Growth(fs)).(headers := Aggregate(fs).headers)
  }

  /**
    If the merge is one packet, then its metadata are those that parsing it would leave, but for the link
    layer length, which is not copied: ip_bytes reaches to the end of the buffer, and the pointers
    designate the innermost two headers.
   */
  lemma {:induction false} MergedAsParsed(fs: seq<TcpFragment>, layer: Layer)
    requires Captured(fs, layer) && CanAggregate(fs) && OnePacket(Aggregate(fs), fs, layer)
    ensures var m := MergedMeta(fs);
            && AsParsed(m) && m.l2HeaderBytes == 0
            && m.headers[0].offset + m.ipBytes == |Aggregate(fs).bytes|
            && |m.headers| >= 2 && Designates(m, m.headers[|m.headers| - 2], m.headers[|m.headers| - 1])
            && m.tcp == Some(fs[|fs| - 1].Tcp().offset)
  {
    var last, d := fs[|fs| - 1], Aggregate(fs);
    CapturedTcp(fs, layer);
    EndsLike(last.headers, d.headers, |d.bytes|);
    LengthGrows(fs);
    DuplicatedAsParsed(last, Growth(fs), d.headers, |d.bytes|);
  }

  lemma {:induction false} EndsLike(hs: seq<Header>, ends: seq<Header>, n: nat)
    requires ends == ToEnd(hs, n) && |hs| >= 2 && hs[0].offset <= n
    ensures |ends| == |hs| && ends[0].totalBytes == n - hs[0].offset && ends[0].offset == hs[0].offset
    ensures ends[0].kind == hs[0].kind
    ensures MovedHeader(ends[|hs| - 2], hs[|hs| - 2], 0) && MovedHeader(ends[|hs| - 1], hs[|hs| - 1], 0)
  {
  }

  lemma LengthGrows(fs: seq<TcpFragment>)
    requires CanAggregate(fs)
    ensures |Aggregate(fs).bytes| == fs[|fs| - 1].End() + Growth(fs)
  {
    AggregateIs(fs, Merged(fs), Lengthen(fs[|fs| - 1].headers, Growth(fs)));
  }

  lemma DuplicatedAsParsed(f: TcpFragment, extra: nat, hs: seq<Header>, n: nat)
    requires |hs| == |f.headers| && n == f.End() + extra
    requires hs[0].offset == f.At(0).offset && hs[0].kind == f.At(0).kind && hs[0].offset + hs[0].totalBytes == n
    requires MovedHeader(hs[|hs| - 2], f.headers[|hs| - 2], 0) && MovedHeader(hs[|hs| - 1], f.headers[|hs| - 1], 0)
    ensures var m := Duplicated(f, extra).(headers := hs);
            && AsParsed(m) && m.l2HeaderBytes == 0 && hs[0].offset + m.ipBytes == n
            && Designates(m, hs[|hs| - 2], hs[|hs| - 1]) && m.tcp == Some(f.Tcp().offset)
  {
  }

  /** Nothing of the headers in front of the segment changes but lengths, protocols and header checksums. */
  lemma {:induction false} MergedOuterKept(fs: seq<TcpFragment>, layer: Layer, k: nat)
    requires Captured(fs, layer) && CanAggregate(fs) && k < fs[|fs| - 1].Tcp().offset
    requires Unfinished(fs[|fs| - 1].headers, k)
    ensures At(Aggregate(fs).bytes, k) == At(fs[|fs| - 1].bytes, k)
  {
    var last, m, hs := fs[|fs| - 1], Merged(fs), Lengthen(fs[|fs| - 1].headers, Growth(fs));
    CapturedTcp(fs, layer);
    MergedAround(fs, layer);
    AggregateIs(fs, m, hs);
    LengthenUnfinished(last.headers, Growth(fs), hs, k);
    PrefixUnfinished(m, hs, last.bytes, last.Tcp().offset, k);
  }

  lemma LengthenUnfinished(hs: seq<Header>, extra: nat, longer: seq<Header>, k: int)
    requires Unfinished(hs, k) && longer == Lengthen(hs, extra)
    ensures Unfinished(longer, k)
  {
    forall i | 0 <= i < |longer| ensures !FinishField(longer[i], k) {
      assert !FinishField(hs[i], k);
    }
  }

  lemma {:induction false} PrefixUnfinished(m: seq<byte>, hs: seq<Header>, b: seq<byte>, mid: nat, k: nat)
    requires Room(m, hs) && k < mid <= |m| && mid <= |b| && m[..mid] == b[..mid] && Unfinished(hs, k)
    ensures At(Finish(m, hs).bytes, k) == At(b, k)
  {
    FinishTouches(m, hs, k);
    assert m[k] == m[..mid][k] == b[..mid][k] == b[k];
  }

  /**
    Reassembly from end to end, octet by octet: when what the loop has collected is one packet, its TCP header
    has everything that the fragments have in common, and its metadata are those of its octets.
   */
  lemma {:induction false} CollectedMerge(fs: seq<TcpFragment>, expected: int, layer: Layer)
    requires TCP_FRAGMENTS.Collected(fs, expected, expected) && Captured(fs, layer) && Mergeable(fs)
    ensures CanAggregate(fs) && OnePacket(Aggregate(fs), fs, layer) && |Payloads(fs)| == expected
    ensures AsParsed(MergedMeta(fs))
    ensures MergedMeta(fs).headers[0].offset + MergedMeta(fs).ipBytes == |Aggregate(fs).bytes|
    ensures forall i :: 0 <= i < |fs| ==> HeaderInCommon(Aggregate(fs).bytes, MergedTcpAt(fs), fs[i], fs[0])
  {
    CollectedIsOnePacket(fs, expected, layer);
    MergedAsParsed(fs, layer);
    forall i | 0 <= i < |fs| ensures HeaderInCommon(Aggregate(fs).bytes, MergedTcpAt(fs), fs[i], fs[0]) {
      MergedInCommon(fs, expected, Aggregate(fs).bytes, i);
    }
  }
}
