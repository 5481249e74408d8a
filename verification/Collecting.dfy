/**
  The loop that collects the fragments of one scripted packet (do_outbound_script_packet), over
  whatever fragments are: it looks at them only through the four observations below.
 */
module Collecting {
  import opened Bytes

  /** The sequence number that many octets on, in 32 bits. */
  function SeqAfter(seqNo: int, octets: int): u32 {
    (seqNo + octets) % TWO32
  }

  /**
    What the loop asks of a fragment: its connection, payload length and sequence number, and whether
    its headers suit a predecessor's.
   */
  datatype Observe<!F(!new)> = Observe(tuple: F -> seq<byte>, len: F -> int, seqNo: F -> int, matches: (F, F) -> bool)
  {
    /**
      current may follow the fragments that previous ends (verify_packet_fragments): same connection,
      compatible headers, and unless it is the last one as long as the one before it.
     */
    predicate Follows(current: F, previous: F, sniffed: int, expected: int) {
      && tuple(current) == tuple(previous)
      && matches(current, previous)
      && (len(current) < expected - sniffed ==> len(current) == len(previous))
    }

    function Total(fs: seq<F>): int {
      if fs == [] then 0 else Total(fs[..|fs| - 1]) + len(fs[|fs| - 1])
    }

    /** The list kept so far: each fragment was still needed, and may follow those before it. */
    predicate Chain(fs: seq<F>, expected: int) {
      var n := |fs|;
      n <= 1 || (&& Chain(fs[..n - 1], expected)
                 && Total(fs[..n - 1]) < expected
                 && Follows(fs[n - 1], fs[n - 2], Total(fs[..n - 1]), expected))
    }

    /** What the loop keeps true of its list. */
    predicate Collected(fs: seq<F>, expected: int, sniffed: int) {
      Chain(fs, expected) && Total(fs) == sniffed
    }

    /** Matching headers include the check that the sequence number continues the predecessor's payload. */
    ghost predicate ChecksSequence() {
      forall a, b :: matches(a, b) ==> seqNo(a) == SeqAfter(seqNo(b), len(b))
    }
  }

  datatype Verdict = Kept | Restarted | Rejected

  /** One round of the loop: what becomes of the list when live has been sniffed. */
  method Consider<F(!new)>(o: Observe<F>, list: seq<F>, sniffedLen: int, live: F, expected: int)
    returns (verdict: Verdict, list': seq<F>, sniffedLen': int)
    requires list != [] ==> sniffedLen < expected && o.Collected(list, expected, sniffedLen)
    ensures verdict == if list == [] then Kept
                       else if o.tuple(list[|list| - 1]) != o.tuple(live) then Restarted
                       else if o.Follows(live, list[|list| - 1], sniffedLen, expected) then Kept
                       else Rejected
    ensures verdict.Kept? ==> list' == list + [live]
    ensures verdict.Restarted? ==> list' == [live]
    ensures !verdict.Rejected? ==> o.Collected(list', expected, sniffedLen')
  {
    list', sniffedLen' := [live], o.len(live);
    assert [live][..0] == [];
    assert o.Total([live]) == o.Total([live][..0]) + o.len(live);
    if list == [] {
      return Kept, list', sniffedLen';
    }
    var previous := list[|list| - 1];
    if o.tuple(previous) != o.tuple(live) {
      return Restarted, list', sniffedLen';
    }
    if !o.matches(live, previous) || (o.len(live) < expected - sniffedLen && o.len(live) != o.len(previous)) {
      return Rejected, list', sniffedLen';
    }
    assert (list + [live])[..|list|] == list;
    return Kept, list + [live], sniffedLen + o.len(live);
  }

  datatype SniffResult<F> = Sniffed(list: seq<F>) | SniffError

  /** Where the connection of the i-th fragment took over last. */
  function Since<F(!new)>(o: Observe<F>, wire: seq<F>, i: nat): (s: nat)
    requires i < |wire|
    ensures s <= i && (s > 0 ==> o.tuple(wire[s - 1]) != o.tuple(wire[s]))
    ensures forall k :: s <= k <= i ==> o.tuple(wire[k]) == o.tuple(wire[i])
  {
    if i == 0 || o.tuple(wire[i - 1]) != o.tuple(wire[i]) then i else Since(o, wire, i - 1)
  }

  /** The fragments of wire up to the i-th since the last change of connection. */
  function Stretch<F(!new)>(o: Observe<F>, wire: seq<F>, i: nat): (r: seq<F>)
    requires i < |wire|
    ensures r != [] && r[|r| - 1] == wire[i]
  {
    wire[Since(o, wire, i)..i + 1]
  }

  lemma StretchNext<F(!new)>(o: Observe<F>, wire: seq<F>, i: nat)
    requires 0 < i < |wire|
    ensures Stretch(o, wire, i)
            == (if o.tuple(wire[i - 1]) != o.tuple(wire[i]) then [] else Stretch(o, wire, i - 1)) + [wire[i]]
  {
  }

  /** Up to here the stretch is a chain, but not yet long enough. */
  predicate FallsShort<F(!new)>(o: Observe<F>, wire: seq<F>, expected: int, i: nat)
    requires i < |wire|
  {
    o.Chain(Stretch(o, wire, i), expected) && o.Total(Stretch(o, wire, i)) < expected
  }

  /** The i-th fragment is the first to end the loop, and it completes the expected length. */
  ghost predicate Completes<F(!new)>(o: Observe<F>, wire: seq<F>, expected: int, aggregate: bool, i: nat) {
    && i < |wire|
    && o.Collected(Stretch(o, wire, i), expected, expected)
    && (i > 0 ==> aggregate)
    && forall j :: 0 <= j < i ==> FallsShort(o, wire, expected, j)
  }

  /** The result is the completed stretch if there is one, and an error if there is none. */
  ghost predicate Outcome<F(!new)>(o: Observe<F>, wire: seq<F>, expected: int, aggregate: bool,
                                   result: SniffResult<F>) {
    && (result.Sniffed? <==> exists i :: Completes(o, wire, expected, aggregate, i))
    && forall i :: Completes(o, wire, expected, aggregate, i) ==> result == Sniffed(Stretch(o, wire, i))
  }

  /** Only the fragment at which the loop stops can complete it. */
  lemma CompletesHere<F(!new)>(o: Observe<F>, wire: seq<F>, expected: int, aggregate: bool, n: nat)
    requires n < |wire| && forall j :: 0 <= j < n ==> FallsShort(o, wire, expected, j)
    requires n > 0 ==> aggregate
    ensures !aggregate || !FallsShort(o, wire, expected, n) ==>
              var list := Stretch(o, wire, n);
              Outcome(o, wire, expected, aggregate,
                      if o.Collected(list, expected, expected) then Sniffed(list) else SniffError)
  {
    if aggregate && FallsShort(o, wire, expected, n) {
      return;
    }
    assert Completes(o, wire, expected, aggregate, n)
           <==> o.Collected(Stretch(o, wire, n), expected, expected);
    forall i: nat | Completes(o, wire, expected, aggregate, i) ensures i == n {
      assert i < n ==> FallsShort(o, wire, expected, i);
    }
  }

  /** Every fragment before the n-th left a stretch that falls short; list is the stretch so far. */
  ghost predicate Underway<F(!new)>(o: Observe<F>, wire: seq<F>, expected: int, n: nat, list: seq<F>, sniffedLen: int) {
    && n <= |wire|
    && (forall j :: 0 <= j < n ==> FallsShort(o, wire, expected, j))
    && list == (if n == 0 then [] else Stretch(o, wire, n - 1))
    && (n > 0 ==> sniffedLen < expected && o.Collected(list, expected, sniffedLen))
  }

  lemma UnderwayNext<F(!new)>(o: Observe<F>, wire: seq<F>, expected: int, n: nat, before: seq<F>, lenBefore: int,
                              list: seq<F>, sniffedLen: int)
    requires n < |wire| && Underway(o, wire, expected, n, before, lenBefore)
    requires list == Stretch(o, wire, n) && o.Collected(list, expected, sniffedLen) && sniffedLen < expected
    ensures Underway(o, wire, expected, n + 1, list, sniffedLen)
  {
  }

  /** The loop's round for the n-th fragment: it extends the stretch, or breaks its chain. */
  method Round<F(!new)>(o: Observe<F>, wire: seq<F>, n: nat, list: seq<F>, sniffedLen: int, expected: int)
    returns (accepted: bool, list': seq<F>, sniffedLen': int)
    requires n < |wire| && Underway(o, wire, expected, n, list, sniffedLen)
    ensures accepted <==> o.Chain(Stretch(o, wire, n), expected)
    ensures accepted ==> list' == Stretch(o, wire, n) && o.Total(list') == sniffedLen'
  {
    if n > 0 {
      StretchNext(o, wire, n);
      if o.tuple(wire[n - 1]) == o.tuple(wire[n]) {
        RejectedFallsShort(o, wire, n, list, expected);
      }
    }
    var verdict;
    verdict, list', sniffedLen' := Consider(o, list, sniffedLen, wire[n], expected);
    accepted := !verdict.Rejected?;
  }

  /**
    The collecting loop. The wire is an oracle: the fragments it delivers, after which it fails.
    A fragment of another connection discards everything collected before it; the loop succeeds
    exactly when the fragments since then form a chain that adds up to the expected length, before
    any that breaks its chain or exceeds it, and the result is that chain.
   */
  method CollectFragments<F(!new)>(o: Observe<F>, wire: seq<F>, expected: int, aggregate: bool)
    returns (result: SniffResult<F>)
    ensures Outcome(o, wire, expected, aggregate, result)
  {
    var list: seq<F> := [];
    var sniffedLen := 0;
    var next: nat := 0;
    while true
      invariant next > 0 ==> aggregate
      invariant Underway(o, wire, expected, next, list, sniffedLen)
      decreases |wire| - next
    {
      if next == |wire| {
        NoneCompletes(o, wire, expected, aggregate);
        return SniffError;
      }
      CompletesHere(o, wire, expected, aggregate, next);
      ghost var before, lenBefore := list, sniffedLen;
      var accepted;
      accepted, list, sniffedLen := Round(o, wire, next, list, sniffedLen, expected);
      if !accepted {
        return SniffError;
      }
      if sniffedLen >= expected || !aggregate {
        break;
      }
      UnderwayNext(o, wire, expected, next, before, lenBefore, list, sniffedLen);
      next := next + 1;
    }
    result := if sniffedLen != expected then SniffError else Sniffed(list);
  }

  lemma NoneCompletes<F(!new)>(o: Observe<F>, wire: seq<F>, expected: int, aggregate: bool)
    requires forall j :: 0 <= j < |wire| ==> FallsShort(o, wire, expected, j)
    ensures Outcome(o, wire, expected, aggregate, SniffError)
  {
    forall i: nat ensures !Completes(o, wire, expected, aggregate, i) {
      assert i < |wire| ==> FallsShort(o, wire, expected, i);
    }
  }

  /** A fragment of the same connection that may not follow breaks the chain. */
  lemma {:induction false} RejectedFallsShort<F(!new)>(o: Observe<F>, wire: seq<F>, i: nat, list: seq<F>, expected: int)
    requires 0 < i < |wire| && list == Stretch(o, wire, i - 1) && o.tuple(wire[i - 1]) == o.tuple(wire[i])
    ensures o.Chain(Stretch(o, wire, i), expected) ==> o.Follows(wire[i], wire[i - 1], o.Total(list), expected)
  {
    StretchNext(o, wire, i);
    assert (list + [wire[i]])[..|list|] == list;
  }

  // ----- What a collected list looks like

  /** The chain, seen from any of its links. */
  lemma {:induction false} ChainAt<F(!new)>(o: Observe<F>, fs: seq<F>, expected: int, i: nat)
    requires o.Chain(fs, expected) && 0 < i < |fs|
    ensures o.Total(fs[..i]) < expected && o.Follows(fs[i], fs[i - 1], o.Total(fs[..i]), expected)
    decreases |fs|
  {
    var n := |fs|;
    if i < n - 1 {
      ChainAt(o, fs[..n - 1], expected, i);
      assert fs[..n - 1][..i] == fs[..i];
    }
  }

  lemma {:induction false} TotalNext<F(!new)>(o: Observe<F>, fs: seq<F>, i: nat)
    requires i < |fs|
    ensures o.Total(fs[..i + 1]) == o.Total(fs[..i]) + o.len(fs[i])
  {
    assert fs[..i + 1][..i] == fs[..i];
  }

  /** Sequence numbers: each fragment starts where the payload of all earlier ones ends, across wrap-around. */
  lemma {:induction false} SequenceNumbers<F(!new)>(o: Observe<F>, fs: seq<F>, expected: int, i: nat)
    requires o.Chain(fs, expected) && i < |fs| && o.ChecksSequence()
    requires 0 <= o.seqNo(fs[0]) < TWO32
    ensures o.seqNo(fs[i]) == SeqAfter(o.seqNo(fs[0]), o.Total(fs[..i]))
  {
    if i == 0 {
      assert fs[..0] == [];
    } else {
      SequenceNumbers(o, fs, expected, i - 1);
      ChainAt(o, fs, expected, i);
      TotalNext(o, fs, i - 1);
      NextSequenceNumber(o, fs[i - 1], fs[i], o.seqNo(fs[0]), o.Total(fs[..i - 1]));
    }
  }

  lemma NextSequenceNumber<F(!new)>(o: Observe<F>, previous: F, current: F, start: int, before: int)
    requires o.ChecksSequence() && o.matches(current, previous)
    requires o.seqNo(previous) == SeqAfter(start, before)
    ensures o.seqNo(current) == SeqAfter(start, before + o.len(previous))
  {
    AddModulo(start, before, o.len(previous));
  }

  lemma AddModulo(a: int, b: int, c: int)
    ensures SeqAfter(SeqAfter(a, b), c) == SeqAfter(a, b + c)
  {
  }

  /** All fragments but the last carry the same number of payload octets. */
  lemma {:induction false} EqualPayloads<F(!new)>(o: Observe<F>, fs: seq<F>, expected: int, i: nat)
    requires o.Chain(fs, expected) && i < |fs| - 1
    ensures o.len(fs[i]) == o.len(fs[0])
  {
    if i > 0 {
      EqualPayloads(o, fs, expected, i - 1);
      ChainAt(o, fs, expected, i);
      ChainAt(o, fs, expected, i + 1);
      TotalNext(o, fs, i);
    }
  }
}
