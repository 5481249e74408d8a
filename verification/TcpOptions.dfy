/**
  TCP options in wire format: appending (tcp_options.c), iterating (tcp_options_iterator.c) and
  shifting SACK edges in place (run_packet.c).
 */
module TcpOptions {
  import opened Bytes

  const MAX_OPTION_BYTES := 40

  const EOL := 0
  const NOP := 1
  const MAXSEG := 2
  const WINDOW := 3
  const SACK_PERMITTED := 4
  const SACK := 5
  const TIMESTAMP := 8
  const MD5SIG := 19
  const FASTOPEN := 34
  const EXP := 254

  datatype Error =
    | UnexpectedKind
    | LengthTooFar
    | LengthTooShort
    | DataTooFar
    | BadLength
    | SackTooShort
    | SackNotBlocks

  datatype Result<T> = Ok(value: T) | Err(error: Error)

  // ----- One option

  /** get_expected_tcp_option_length: 0 stands for a variable length. */
  function ExpectedLength(kind: byte): Result<nat> {
    if kind == EOL || kind == NOP then Ok(1)
    else if kind == MAXSEG then Ok(4)
    else if kind == WINDOW then Ok(3)
    else if kind == SACK_PERMITTED then Ok(2)
    else if kind == TIMESTAMP then Ok(10)
    else if kind == SACK || kind == MD5SIG || kind == FASTOPEN || kind == EXP then Ok(0)
    else Err(UnexpectedKind)
  }

  /** What tcp_options_next advances by at the front of the rest of an option area. */
  function OptionLength(area: seq<byte>): (r: Result<nat>)
    requires area != []
    ensures r.Ok? ==> 1 <= r.value <= |area|
  {
    var expected := ExpectedLength(area[0]);
    if expected.Err? then expected
    else if expected.value == 1 then Ok(1)
    else if |area| <= 1 then Err(LengthTooFar)
    else if area[1] < 2 then Err(LengthTooShort)
    else if area[1] > |area| then Err(DataTooFar)
    else if expected.value != 0 && area[1] != expected.value then Err(BadLength)
    else Ok(area[1])
  }

  /** num_sack_blocks. */
  function NumSackBlocks(optLen: byte): Result<nat> {
    if optLen <= 2 then Err(SackTooShort)
    else if (optLen - 2) % 8 != 0 then Err(SackNotBlocks)
    else Ok((optLen - 2) / 8)
  }

  /** A whole option as it must look on the wire. */
  predicate WellFormed(o: seq<byte>) {
    && o != []
    && ExpectedLength(o[0]).Ok?
    && var expected := ExpectedLength(o[0]).value;
       if expected == 1 then |o| == 1
       else |o| >= 2 && o[1] == |o| && (expected == 0 || |o| == expected)
  }

  /** A SACK option of at least one block. */
  predicate SackOfBlocks(o: seq<byte>) {
    o != [] && (o[0] == SACK ==> |o| > 2 && (|o| - 2) % 8 == 0)
  }

  /**
    The kinds and lengths in full: no-operation and end of list are single octets; the others carry their
    length, which is fixed for maximum segment size, window scale, SACK permitted and timestamps, and free
    for SACK, MD5 signature, fast open and the experimental kind; there is no other.
   */
  lemma WellFormedIff(o: seq<byte>)
    ensures WellFormed(o) <==>
            || o == [0] || o == [1]
            || (&& |o| >= 2 && o[1] == |o|
                && ((o[0] == 2 && |o| == 4) || (o[0] == 3 && |o| == 3) || (o[0] == 4 && |o| == 2)
                    || (o[0] == 8 && |o| == 10) || o[0] in {5, 19, 34, 254}))
  {
  }

  predicate KnownKind(k: byte) {
    k in {0, 1, 2, 3, 4, 5, 8, 19, 34, 254}
  }

  /** Which error stops the iterator in front of an area: the first of these that applies. */
  lemma StopsIff(area: seq<byte>)
    requires area != []
    ensures var r, k := OptionLength(area), area[0];
            var fixed := if k == 2 then 4 else if k == 3 then 3 else if k == 4 then 2 else 10;
            && (r == Err(UnexpectedKind) <==> !KnownKind(k))
            && (r == Err(LengthTooFar) <==> KnownKind(k) && k > 1 && |area| == 1)
            && (r == Err(LengthTooShort) <==> KnownKind(k) && k > 1 && |area| > 1 && area[1] < 2)
            && (r == Err(DataTooFar) <==> KnownKind(k) && k > 1 && |area| > 1 && area[1] >= 2 && area[1] > |area|)
            && (r == Err(BadLength) <==>
                  k in {2, 3, 4, 8} && |area| > 1 && 2 <= area[1] <= |area| && area[1] != fixed)
            && r != Err(SackTooShort) && r != Err(SackNotBlocks)
  {
  }

  // ----- A whole option area

  /** The options that the iterator yields, or the error that it stops with. */
  function Split(area: seq<byte>): Result<seq<seq<byte>>>
    decreases |area|
  {
    if area == [] then Ok([])
    else
      var length := OptionLength(area);
      if length.Err? then Err(length.error)
      else
        var rest := Split(area[length.value..]);
        if rest.Err? then rest else Ok([area[..length.value]] + rest.value)
  }

  function Flatten(os: seq<seq<byte>>): seq<byte> {
    if os == [] then [] else os[0] + Flatten(os[1..])
  }

  predicate AllWellFormed(os: seq<seq<byte>>) {
    forall k :: 0 <= k < |os| ==> WellFormed(os[k])
  }

  /**
    Iterating is the exact inverse of concatenating: an area yields these options if and only if it is
    their concatenation.
   */
  lemma {:induction false} SplitIff(area: seq<byte>, os: seq<seq<byte>>)
    ensures Split(area) == Ok(os) <==> area == Flatten(os) && AllWellFormed(os)
  {
    if Split(area) == Ok(os) {
      SplitFlattens(area, os);
    }
    if area == Flatten(os) && AllWellFormed(os) {
      FlattenSplits(os);
    }
  }

  lemma {:induction false} SplitFlattens(area: seq<byte>, os: seq<seq<byte>>)
    requires Split(area) == Ok(os)
    ensures area == Flatten(os) && AllWellFormed(os)
    decreases |area|
  {
    if area != [] {
      var n := OptionLength(area).value;
      SplitFlattens(area[n..], os[1..]);
      assert forall k :: 1 <= k < |os| ==> os[k] == os[1..][k - 1];
    }
  }

  lemma {:induction false} FlattenSplits(os: seq<seq<byte>>)
    requires AllWellFormed(os)
    ensures Split(Flatten(os)) == Ok(os)
  {
    if os != [] {
      var rest := Flatten(os[1..]);
      FlattenSplits(os[1..]);
      FrontLength(os[0], rest);
      assert (os[0] + rest)[|os[0]|..] == rest && (os[0] + rest)[..|os[0]|] == os[0];
      assert os == [os[0]] + os[1..];
    }
  }

  lemma FrontLength(o: seq<byte>, rest: seq<byte>)
    requires WellFormed(o)
    ensures OptionLength(o + rest) == Ok(|o|)
  {
  }

  // ----- Building

  /** struct tcp_option: kind, length and the data that follow in memory. */
  datatype Option = Option(kind: byte, length: byte, data: seq<byte>)
  {
    /** The octets of the struct. */
    function Image(): seq<byte> {
      [kind, length] + data
    }

    /** What memcpy takes from it. */
    function Wire(): seq<byte>
      requires length <= |Image()|
    {
      Image()[..length]
    }
  }

  /** A struct that describes an option of its kind. */
  predicate Describes(o: Option) {
    o.length <= |o.Image()| && WellFormed(o.Wire())
  }

  type Described = o: Option | Describes(o) witness Option(1, 1, [])

  class Options {
    const data: array<byte>
    var length: byte

    predicate Valid()
      reads this
    {
      length <= data.Length == MAX_OPTION_BYTES
    }

    function Area(): seq<byte>
      reads this, data
      requires Valid()
    {
      data[..length]
    }

    /** tcp_options_new. */
    constructor ()
      ensures Valid() && fresh(data) && Area() == []
    {
      data := new byte[MAX_OPTION_BYTES](_ => 0);
      length := 0;
    }

    /** tcp_options_append. */
    method Append(option: Option) returns (ok: bool)
      requires Valid() && option.length <= |option.Image()|
      modifies this, data
      ensures Valid()
      ensures ok <==> |old(Area())| + option.length <= MAX_OPTION_BYTES
      ensures Area() == if ok then old(Area()) + option.Wire() else old(Area())
    {
      if length as int + option.length as int > data.Length {
        return false;
      }
      var wire := option.Wire();
      var i := 0;
      ghost var was := data[..length];
      while i < option.length as int
        invariant 0 <= i <= option.length
        invariant length == old(length) && data[..length] == was
        invariant forall k :: 0 <= k < i ==> data[length + k] == wire[k]
      {
        data[length as int + i] := wire[i];
        i := i + 1;
      }
      assert data[length..length + option.length] == wire;
      length := length + option.length;
      assert data[..length] == was + wire;
      ok := true;
    }
  }

  /** The areas of a list of structs. */
  function Wires(os: seq<Described>): (r: seq<seq<byte>>)
    ensures |r| == |os| && forall k :: 0 <= k < |os| ==> r[k] == os[k].Wire()
  {
    if os == [] then [] else [os[0].Wire()] + Wires(os[1..])
  }

  function TotalLength(os: seq<Described>): nat {
    if os == [] then 0 else os[0].length + TotalLength(os[1..])
  }

  /** The appending of a list of options, one by one, until one does not fit. */
  method Build(os: seq<Described>) returns (options: Options, ok: bool)
    ensures fresh(options) && fresh(options.data) && options.Valid()
    ensures ok <==> TotalLength(os) <= MAX_OPTION_BYTES
    ensures ok ==> Split(options.Area()) == Ok(Wires(os)) && options.length == TotalLength(os)
  {
    options := new Options();
    ok := true;
    var i := 0;
    SplitIff([], []);
    while i < |os|
      invariant 0 <= i <= |os|
      invariant fresh(options) && fresh(options.data) && options.Valid()
      invariant options.Area() == Flatten(Wires(os[..i])) && |options.Area()| == TotalLength(os[..i])
    {
      var appended := options.Append(os[i]);
      FlattenNext(os, i);
      if !appended {
        TotalGrows(os, i + 1);
        return options, false;
      }
      i := i + 1;
    }
    assert os[..i] == os;
    SplitIff(options.Area(), Wires(os));
  }

  lemma {:induction false} FlattenAppend(a: seq<seq<byte>>, b: seq<seq<byte>>)
    ensures Flatten(a + b) == Flatten(a) + Flatten(b)
  {
    if a == [] {
      assert a + b == b;
    } else {
      FlattenAppend(a[1..], b);
      assert (a + b)[1..] == a[1..] + b;
      Regroup(a[0], Flatten(a[1..]), Flatten(b));
    }
  }

  lemma {:induction false} TotalAppend(a: seq<Described>, b: seq<Described>)
    ensures TotalLength(a + b) == TotalLength(a) + TotalLength(b)
  {
    if a == [] {
      assert a + b == b;
    } else {
      TotalAppend(a[1..], b);
      assert (a + b)[1..] == a[1..] + b;
    }
  }

  lemma FlattenNext(os: seq<Described>, i: nat)
    requires i < |os|
    ensures Flatten(Wires(os[..i + 1])) == Flatten(Wires(os[..i])) + os[i].Wire()
    ensures TotalLength(os[..i + 1]) == TotalLength(os[..i]) + os[i].length
  {
    assert os[..i + 1] == os[..i] + [os[i]];
    assert Wires(os[..i + 1]) == Wires(os[..i]) + [os[i].Wire()];
    FlattenAppend(Wires(os[..i]), [os[i].Wire()]);
    assert Flatten([os[i].Wire()]) == os[i].Wire() + Flatten([]);
    TotalAppend(os[..i], [os[i]]);
    assert TotalLength([os[i]]) == os[i].length;
  }

  lemma {:induction false} TotalGrows(os: seq<Described>, i: nat)
    requires i <= |os|
    ensures TotalLength(os[..i]) <= TotalLength(os)
  {
    TotalAppend(os[..i], os[i..]);
    assert os == os[..i] + os[i..];
  }

  // ----- Iterating over a packet

  datatype Place = Null | At(offset: nat)

  class Iterator {
    const packet: array<byte>
    const optionsEnd: nat
    var current: Place

    predicate Valid()
      reads this
    {
      optionsEnd <= packet.Length && (current.At? ==> current.offset < optionsEnd)
    }

    /** The part of the area that is still to be yielded. */
    function Rest(): seq<byte>
      reads this, packet
      requires Valid()
    {
      if current.Null? then [] else packet[current.offset..optionsEnd]
    }

    /** tcp_options_begin. */
    constructor (packet: array<byte>, start: nat, end: nat)
      requires start <= end <= packet.Length
      ensures Valid() && this.packet == packet && optionsEnd == end
      ensures Rest() == packet[start..end]
      ensures current == if start < end then At(start) else Null
    {
      this.packet, optionsEnd := packet, end;
      current := if start >= end then Null else At(start);
    }

    /** tcp_options_next: it advances past one option, or stops with an error and does not move. */
    method Next() returns (r: Result<Place>)
      requires Valid() && current.At?
      modifies this
      ensures Valid()
      ensures OptionLength(old(Rest())).Err? ==> r == Err(OptionLength(old(Rest())).error) && current == old(current)
      ensures OptionLength(old(Rest())).Ok? ==>
                r == Ok(current) && Rest() == old(Rest())[OptionLength(old(Rest())).value..]
      ensures OptionLength(old(Rest())).Ok? ==>
                var next := old(current.offset) + OptionLength(old(Rest())).value;
                next <= optionsEnd && current == if next == optionsEnd then Null else At(next)
    {
      var option, length := current.offset, 0;
      ghost var rest := Rest();
      assert rest[0] == packet[option] && (|rest| > 1 ==> rest[1] == packet[option + 1]);
      var expected := ExpectedLength(packet[option]);
      if expected.Err? {
        return Err(expected.error);
      }
      if expected.value == 1 {
        length := 1;
      } else {
        if option + 1 >= optionsEnd {
          return Err(LengthTooFar);
        }
        length := packet[option + 1];
        if length < 2 {
          return Err(LengthTooShort);
        }
        if option + length as int > optionsEnd {
          return Err(DataTooFar);
        }
        if expected.value != 0 && length != expected.value {
          return Err(BadLength);
        }
      }
      current := if option + length as int >= optionsEnd then Null else At(option + length as int);
      assert Rest() == rest[length..];
      r := Ok(current);
    }
  }

  // ----- Shifting SACK edges

  /**
    The first n 32-bit words of x moved by d. A word that is not all there is left alone: a store
    past the end of the packet's memory is not part of the model.
   */
  function ShiftWords(x: seq<byte>, n: nat, d: u32): (r: seq<byte>)
    ensures |r| == |x|
    decreases n
  {
    if n == 0 || |x| < 4 then x else Octets32((Be32(x, 0) + d) % 0x1_0000_0000) + ShiftWords(x[4..], n - 1, d)
  }

  /** The body of the loop of offset_sack_blocks for the option at the front of s. */
  function ShiftFront(s: seq<byte>, d: u32): (r: Result<seq<byte>>)
    requires s != []
    ensures r.Ok? ==> |r.value| == |s|
  {
    if s[0] != SACK then Ok(s)
    else
      var blocks := NumSackBlocks(Bytes.At(s, 1));
      if blocks.Err? then Err(blocks.error)
      else Ok(s[..2] + ShiftWords(s[2..], 2 * blocks.value, d))
  }

  datatype Outcome = Outcome(bytes: seq<byte>, error: Result<()>)

  /** offset_sack_blocks on a packet from the first of m octets of options on; it stops at the first error. */
  function ShiftArea(s: seq<byte>, m: nat, d: u32): (r: Outcome)
    requires m <= |s|
    ensures |r.bytes| == |s|
    decreases m
  {
    if m == 0 then Outcome(s, Ok(()))
    else
      var shifted := ShiftFront(s, d);
      if shifted.Err? then Outcome(s, Err(shifted.error))
      else
        var s1 := shifted.value;
        var length := OptionLength(s1[..m]);
        if length.Err? then Outcome(s1, Err(length.error))
        else
          var rest := ShiftArea(s1[length.value..], m - length.value, d);
          Outcome(s1[..length.value] + rest.bytes, rest.error)
  }

  /** offset_sack_blocks. */
  method OffsetSackBlocks(packet: array<byte>, start: nat, end: nat, ackOffset: u32) returns (r: Result<()>)
    requires start <= end <= packet.Length
    modifies packet
    ensures packet[..] == old(packet[..start]) + ShiftArea(old(packet[start..]), end - start, ackOffset).bytes
    ensures r == ShiftArea(old(packet[start..]), end - start, ackOffset).error
  {
    ghost var before, goal := packet[..start], ShiftArea(packet[start..], end - start, ackOffset);
    ghost var done, rest := before, packet[start..];
    assert packet[..] == done + rest;
    var iter := new Iterator(packet, start, end);
    var option := iter.current;
    while option.At?
      invariant iter.Valid() && iter.packet == packet && iter.optionsEnd == end && option == iter.current
      invariant Standing(iter, packet[..], done, rest, ackOffset, before, goal)
      decreases end - |done|
    {
      var next;
      next, done, rest := OffsetNext(iter, ackOffset, done, rest, before, goal);
      if next.Err? {
        return Err(next.error);
      }
      option := next.value;
    }
    r := Ok(());
  }

  /** The iterator stands between the octets in done, which are final, and the rest. */
  ghost predicate Standing(iter: Iterator, packet: seq<byte>, done: seq<byte>, rest: seq<byte>, d: u32,
                           before: seq<byte>, goal: Outcome)
    reads iter
  {
    && |done| <= iter.optionsEnd
    && |done| == (if iter.current.At? then iter.current.offset else iter.optionsEnd)
    && packet == done + rest
    && Remaining(done, rest, iter.optionsEnd - |done|, d, before, goal)
  }

  /** One round of its loop: the option's edges, then the step to the next option. */
  method OffsetNext(iter: Iterator, ackOffset: u32, ghost done: seq<byte>, ghost rest: seq<byte>,
                    ghost before: seq<byte>, ghost goal: Outcome)
    returns (r: Result<Place>, ghost done': seq<byte>, ghost rest': seq<byte>)
    requires iter.Valid() && iter.current.At? && Standing(iter, iter.packet[..], done, rest, ackOffset, before, goal)
    modifies iter, iter.packet
    ensures iter.Valid()
    ensures r.Err? ==> goal.error == Err(r.error) && iter.packet[..] == before + goal.bytes
    ensures r.Ok? ==> r.value == iter.current && |done'| > |done|
    ensures r.Ok? ==> Standing(iter, iter.packet[..], done', rest', ackOffset, before, goal)
  {
    done', rest' := done, rest;
    ghost var m := iter.optionsEnd - |done|;
    var shifted := OffsetOption(iter.packet, iter.current.offset, ackOffset, done, rest);
    if shifted.Err? {
      return Err(shifted.error), done', rest';
    }
    ghost var s1 := ShiftFront(rest, ackOffset).value;
    ghost var p := done + s1;
    SliceOfSum(p, done, s1, iter.optionsEnd);
    assert iter.packet[..] == p && iter.Rest() == s1[..m];
    ghost var length := OptionLength(s1[..m]);
    r := iter.Next();
    assert iter.packet[..] == p;
    if length.Ok? {
      PastOption(done, rest, m, ackOffset, before, goal, s1, length.value);
      SplitBehind(done, s1, length.value);
      done', rest' := done + s1[..length.value], s1[length.value..];
    } else {
      StopsAtOption(done, rest, m, ackOffset, before, goal, s1);
    }
  }

  lemma StopsAtOption(done: seq<byte>, rest: seq<byte>, m: nat, d: u32, before: seq<byte>, goal: Outcome, s1: seq<byte>)
    requires Remaining(done, rest, m, d, before, goal)
    requires 0 < m <= |rest| && ShiftFront(rest, d) == Ok(s1) && OptionLength(s1[..m]).Err?
    ensures goal.error == Err(OptionLength(s1[..m]).error) && done + s1 == before + goal.bytes
  {
  }

  lemma SliceOfSum(p: seq<byte>, done: seq<byte>, s1: seq<byte>, end: nat)
    requires p == done + s1 && |done| <= end <= |p|
    ensures p[|done|..end] == s1[..end - |done|]
  {
  }

  /** The octets in done are final; the goal is reached by shifting the rest, whose first m octets are options. */
  ghost predicate Remaining(done: seq<byte>, rest: seq<byte>, m: nat, d: u32, before: seq<byte>, goal: Outcome) {
    && m <= |rest|
    && done + ShiftArea(rest, m, d).bytes == before + goal.bytes
    && ShiftArea(rest, m, d).error == goal.error
  }

  lemma PastOption(done: seq<byte>, rest: seq<byte>, m: nat, d: u32, before: seq<byte>, goal: Outcome,
                   s1: seq<byte>, n: nat)
    requires Remaining(done, rest, m, d, before, goal)
    requires 0 < m <= |rest| && ShiftFront(rest, d) == Ok(s1) && OptionLength(s1[..m]) == Ok(n)
    ensures Remaining(done + s1[..n], s1[n..], m - n, d, before, goal)
  {
    var area, tail := ShiftArea(rest, m, d), ShiftArea(s1[n..], m - n, d);
    ShiftAreaPast(rest, m, d, s1, n, tail);
    RemainingPast(done, s1[..n], before, goal, area, tail);
  }

  lemma SplitBehind(done: seq<byte>, s1: seq<byte>, n: nat)
    requires n <= |s1|
    ensures done + s1 == (done + s1[..n]) + s1[n..]
  {
    assert s1 == s1[..n] + s1[n..];
    Regroup(done, s1[..n], s1[n..]);
  }

  lemma RemainingPast(done: seq<byte>, front: seq<byte>, before: seq<byte>, goal: Outcome, area: Outcome, tail: Outcome)
    requires area == Outcome(front + tail.bytes, tail.error)
    requires done + area.bytes == before + goal.bytes && area.error == goal.error
    ensures (done + front) + tail.bytes == before + goal.bytes && tail.error == goal.error
  {
    Regroup(done, front, tail.bytes);
  }

  lemma ShiftAreaPast(s: seq<byte>, m: nat, d: u32, s1: seq<byte>, n: nat, tail: Outcome)
    requires 0 < m <= |s| && ShiftFront(s, d) == Ok(s1) && OptionLength(s1[..m]) == Ok(n)
    requires tail == ShiftArea(s1[n..], m - n, d)
    ensures ShiftArea(s, m, d) == Outcome(s1[..n] + tail.bytes, tail.error)
  {
  }

  /** The loop body of offset_sack_blocks. */
  method OffsetOption(packet: array<byte>, option: nat, ackOffset: u32, ghost done: seq<byte>, ghost rest: seq<byte>)
    returns (r: Result<()>)
    requires packet[..] == done + rest && |done| == option && rest != []
    modifies packet
    ensures ShiftFront(rest, ackOffset).Err? ==>
              r == Err(ShiftFront(rest, ackOffset).error) && packet[..] == old(packet[..])
    ensures ShiftFront(rest, ackOffset).Ok? ==>
              r == Ok(()) && packet[..] == done + ShiftFront(rest, ackOffset).value
  {
    assert rest[0] == packet[..][option] && (|rest| > 1 ==> rest[1] == packet[..][option + 1]);
    if packet[option] == SACK {
      var optLen := if option + 1 < packet.Length then packet[option + 1] else 0;
      var blocks := NumSackBlocks(optLen);
      if blocks.Err? {
        return Err(blocks.error);
      }
      OffsetBlocks(packet, option + 2, blocks.value, ackOffset);
      AfterLength(done, rest, 2 * blocks.value, ackOffset);
    }
    r := Ok(());
  }

  lemma {:induction false} AfterLength(done: seq<byte>, rest: seq<byte>, n: nat, d: u32)
    requires |rest| >= 2
    ensures ShiftWordsAt(done + rest, |done| + 2, n, d) == done + (rest[..2] + ShiftWords(rest[2..], n, d))
  {
    assert (done + rest)[..|done| + 2] == done + rest[..2] && (done + rest)[|done| + 2..] == rest[2..];
    Regroup(done, rest[..2], ShiftWords(rest[2..], n, d));
  }

  /** The first n words from an offset of b on. */
  function ShiftWordsAt(b: seq<byte>, at: nat, n: nat, d: u32): (r: seq<byte>)
    ensures |r| == |b|
  {
    if at <= |b| then b[..at] + ShiftWords(b[at..], n, d) else b
  }

  function ShiftWordAt(b: seq<byte>, at: nat, d: u32): (r: seq<byte>)
    ensures |r| == |b|
  {
    if at + 4 <= |b| then Splice(b, at, Octets32((Be32(b, at) + d) % 0x1_0000_0000)) else b
  }

  lemma ShiftWordsNext(b: seq<byte>, at: nat, n: nat, d: u32)
    requires n > 0
    ensures ShiftWordsAt(b, at, n, d) == ShiftWordsAt(ShiftWordAt(b, at, d), at + 4, n - 1, d)
  {
    var c := ShiftWordAt(b, at, d);
    if at + 4 <= |b| {
      var w := Octets32((Be32(b, at) + d) % 0x1_0000_0000);
      assert Be32(b[at..], 0) == Be32(b, at);
      assert c[at + 4..] == b[at..][4..] && c[..at + 4] == b[..at] + w;
    } else if at <= |b| {
      assert b == b[..at] + b[at..];
    }
  }

  /** The loop over the blocks of one option. */
  method OffsetBlocks(packet: array<byte>, at: nat, numBlocks: nat, ackOffset: u32)
    modifies packet
    ensures packet[..] == ShiftWordsAt(old(packet[..]), at, 2 * numBlocks, ackOffset)
  {
    ghost var goal := ShiftWordsAt(packet[..], at, 2 * numBlocks, ackOffset);
    var i, block := 0, at;
    ghost var n := 2 * numBlocks;
    while i < numBlocks
      invariant 0 <= i <= numBlocks && block == at + 8 * i && n == 2 * (numBlocks - i)
      invariant ShiftWordsAt(packet[..], block, n, ackOffset) == goal
    {
      OffsetBlock(packet, block, n, ackOffset, goal);
      i, block, n := i + 1, block + 8, n - 2;
    }
    NoWords(packet[..], block, ackOffset);
  }

  lemma NoWords(b: seq<byte>, at: nat, d: u32)
    ensures ShiftWordsAt(b, at, 0, d) == b
  {
  }

  /** One block of the n words still to move: its two edges. */
  method OffsetBlock(packet: array<byte>, block: nat, ghost n: nat, ackOffset: u32, ghost goal: seq<byte>)
    requires n >= 2 && ShiftWordsAt(packet[..], block, n, ackOffset) == goal
    modifies packet
    ensures ShiftWordsAt(packet[..], block + 8, n - 2, ackOffset) == goal
  {
    OffsetEdge(packet, block, n, block + 4, n - 1, ackOffset, goal);
    OffsetEdge(packet, block + 4, n - 1, block + 8, n - 2, ackOffset, goal);
  }

  method OffsetEdge(packet: array<byte>, edge: nat, ghost n: nat, ghost next: nat, ghost k: nat,
                    ackOffset: u32, ghost goal: seq<byte>)
    requires next == edge + 4 && n == k + 1 && ShiftWordsAt(packet[..], edge, n, ackOffset) == goal
    modifies packet
    ensures ShiftWordsAt(packet[..], next, k, ackOffset) == goal
  {
    ShiftWordsNext(packet[..], edge, n, ackOffset);
    OffsetWord(packet, edge, ackOffset);
  }

  /** One edge: load, ntohl, add, htonl, store. */
  method OffsetWord(packet: array<byte>, at: nat, ackOffset: u32)
    modifies packet
    ensures packet[..] == ShiftWordAt(old(packet[..]), at, ackOffset)
  {
    if at + 4 <= packet.Length {
      var val: u32 := (Be32(packet[..], at) + ackOffset) % 0x1_0000_0000;
      StoreWord(packet, at, Octets32(val));
    }
  }

  method StoreWord(packet: array<byte>, at: nat, octets: seq<byte>)
    requires |octets| == 4 && at + 4 <= packet.Length
    modifies packet
    ensures packet[..] == Splice(old(packet[..]), at, octets)
  {
    packet[at], packet[at + 1], packet[at + 2], packet[at + 3] := octets[0], octets[1], octets[2], octets[3];
  }

  // ----- What shifting means

  /** An option with its SACK edges moved by d. */
  function ShiftOption(o: seq<byte>, d: u32): (r: seq<byte>)
    ensures |r| == |o|
  {
    if |o| >= 2 && o[0] == SACK then o[..2] + ShiftWords(o[2..], (|o| - 2) / 4, d) else o
  }

  function ShiftAll(os: seq<seq<byte>>, d: u32): (r: seq<seq<byte>>)
    ensures |r| == |os| && forall k :: 0 <= k < |os| ==> r[k] == ShiftOption(os[k], d)
  {
    if os == [] then [] else [ShiftOption(os[0], d)] + ShiftAll(os[1..], d)
  }

  predicate AllWholeBlocks(os: seq<seq<byte>>) {
    forall k :: 0 <= k < |os| ==> SackOfBlocks(os[k])
  }

  lemma {:induction false} ShiftWordsPrefix(x: seq<byte>, y: seq<byte>, n: nat, d: u32)
    requires |x| == 4 * n
    ensures ShiftWords(x + y, n, d) == ShiftWords(x, n, d) + y
  {
    if n > 0 {
      ShiftWordsPrefix(x[4..], y, n - 1, d);
      FirstWord(x, y);
      Regroup(Octets32((Be32(x, 0) + d) % 0x1_0000_0000), ShiftWords(x[4..], n - 1, d), y);
    }
  }

  lemma FirstWord(x: seq<byte>, y: seq<byte>)
    requires |x| >= 4
    ensures (x + y)[4..] == x[4..] + y && Be32(x + y, 0) == Be32(x, 0)
  {
  }

  lemma {:induction false} SackShift(s: seq<byte>, n: nat, d: u32)
    requires 2 < n <= |s| && s[0] == SACK && (n - 2) % 4 == 0
    ensures s[..2] + ShiftWords(s[2..], (n - 2) / 4, d) == ShiftOption(s[..n], d) + s[n..]
  {
    ShiftWordsPrefix(s[2..n], s[n..], (n - 2) / 4, d);
    assert s[2..] == s[2..n] + s[n..] && s[..n][..2] == s[..2] && s[..n][2..] == s[2..n];
  }

  /** The option at the front of an area is shifted by itself, and its length is read as before. */
  lemma FrontShift(s: seq<byte>, m: nat, d: u32, n: nat)
    requires 0 < m <= |s| && OptionLength(s[..m]) == Ok(n)
    ensures ShiftFront(s, d).Ok? <==> SackOfBlocks(s[..n])
    ensures SackOfBlocks(s[..n]) ==> ShiftFront(s, d) == Ok(ShiftOption(s[..n], d) + s[n..])
  {
    assert s[..m][0] == s[0];
    if s[0] == SACK {
      assert s[1] == n == s[..m][1];
      if n > 2 && (n - 2) % 8 == 0 {
        assert NumSackBlocks(n) == Ok((n - 2) / 8) && 2 * ((n - 2) / 8) == (n - 2) / 4;
        SackShift(s, n, d);
      }
    } else {
      assert s == s[..n] + s[n..];
    }
  }

  /** Shifting moves no kind and no length octet. */
  lemma FrontLengthKept(s: seq<byte>, m: nat, d: u32)
    requires 0 < m <= |s| && ShiftFront(s, d).Ok?
    ensures OptionLength(ShiftFront(s, d).value[..m]) == OptionLength(s[..m])
  {
    var s1 := ShiftFront(s, d).value;
    assert s1[..m][0] == s[..m][0] && (m > 1 ==> s1[..m][1] == s[..m][1]);
  }

  lemma FrontKept(o: seq<byte>, d: u32)
    requires WellFormed(o)
    ensures WellFormed(ShiftOption(o, d)) && ShiftOption(o, d)[0] == o[0]
  {
  }

  /** Past an option that may be shifted, shifting goes on with the rest. */
  lemma ShiftPast(s: seq<byte>, m: nat, d: u32, n: nat, tail: Outcome)
    requires 0 < m <= |s| && OptionLength(s[..m]) == Ok(n) && SackOfBlocks(s[..n])
    requires tail == ShiftArea(s[n..], m - n, d)
    ensures ShiftArea(s, m, d) == Outcome(ShiftOption(s[..n], d) + tail.bytes, tail.error)
  {
    FrontShift(s, m, d, n);
    FrontLengthKept(s, m, d);
    var o, t := ShiftOption(s[..n], d), s[n..];
    assert (o + t)[..n] == o && (o + t)[n..] == t;
    ShiftAreaPast(s, m, d, o + t, n, tail);
  }

  /** It stops, changing nothing, at a SACK option of no or no whole blocks. */
  lemma {:induction false} ShiftStops(s: seq<byte>, m: nat, d: u32, n: nat)
    requires 0 < m <= |s| && OptionLength(s[..m]) == Ok(n) && !SackOfBlocks(s[..n])
    ensures ShiftArea(s, m, d).error.Err? && ShiftArea(s, m, d).bytes == s
  {
    FrontShift(s, m, d, n);
  }

  lemma SplitPast(s: seq<byte>, m: nat, n: nat)
    requires 0 < m <= |s| && OptionLength(s[..m]) == Ok(n)
    ensures Split(s[n..][..m - n]).Ok? ==> Split(s[..m]) == Ok([s[..n]] + Split(s[n..][..m - n]).value)
    ensures Split(s[n..][..m - n]).Err? ==> Split(s[..m]).Err?
  {
    assert s[..m][n..] == s[n..][..m - n] && s[..m][..n] == s[..n];
  }

  lemma AllWholeBlocksPast(o: seq<byte>, os: seq<seq<byte>>)
    ensures AllWholeBlocks([o] + os) <==> SackOfBlocks(o) && AllWholeBlocks(os)
  {
    assert forall k :: 0 <= k < |os| ==> ([o] + os)[k + 1] == os[k];
    assert ([o] + os)[0] == o;
  }

  /**
    The areas on which offset_sack_blocks succeeds: they iterate without error, and their SACK options
    hold whole blocks.
   */
  predicate Shiftable(area: seq<byte>) {
    Split(area).Ok? && AllWholeBlocks(Split(area).value)
  }

  lemma {:induction false} ShiftOkIff(s: seq<byte>, m: nat, d: u32)
    requires m <= |s|
    ensures ShiftArea(s, m, d).error.Ok? <==> Shiftable(s[..m])
    decreases m
  {
    if m > 0 && OptionLength(s[..m]).Ok? {
      var n := OptionLength(s[..m]).value;
      ShiftOkIff(s[n..], m - n, d);
      SplitPast(s, m, n);
      if Split(s[n..][..m - n]).Ok? {
        AllWholeBlocksPast(s[..n], Split(s[n..][..m - n]).value);
      }
      if SackOfBlocks(s[..n]) {
        ShiftPast(s, m, d, n, ShiftArea(s[n..], m - n, d));
      } else {
        ShiftStops(s, m, d, n);
      }
    } else if m > 0 && ShiftFront(s, d).Ok? {
      FrontLengthKept(s, m, d);
    }
  }

  /** On those areas every option is shifted by itself and nothing outside the area changes. */
  lemma {:induction false} ShiftMoves(s: seq<byte>, m: nat, d: u32)
    requires m <= |s| && Shiftable(s[..m])
    ensures ShiftArea(s, m, d).bytes == Flatten(ShiftAll(Split(s[..m]).value, d)) + s[m..]
    decreases m
  {
    if m == 0 {
      assert s == [] + s[0..];
    } else {
      var n := OptionLength(s[..m]).value;
      SplitPast(s, m, n);
      var rest := Split(s[n..][..m - n]).value;
      AllWholeBlocksPast(s[..n], rest);
      ShiftMoves(s[n..], m - n, d);
      ShiftPast(s, m, d, n, ShiftArea(s[n..], m - n, d));
      assert ShiftAll([s[..n]] + rest, d) == [ShiftOption(s[..n], d)] + ShiftAll(rest, d);
      assert s[n..][m - n..] == s[m..];
      FlattenCons(ShiftOption(s[..n], d), ShiftAll(rest, d), s[m..]);
    }
  }

  lemma {:induction false} FlattenCons(o: seq<byte>, os: seq<seq<byte>>, t: seq<byte>)
    ensures Flatten([o] + os) + t == o + (Flatten(os) + t)
  {
    assert ([o] + os)[1..] == os;
    Regroup(o, Flatten(os), t);
  }

  /** The shifted area iterates into the shifted options: same kinds, same boundaries. */
  lemma {:induction false} ShiftKeepsBoundaries(s: seq<byte>, m: nat, d: u32)
    requires m <= |s| && Shiftable(s[..m])
    ensures Split(ShiftArea(s, m, d).bytes[..m]) == Ok(ShiftAll(Split(s[..m]).value, d))
    ensures ShiftArea(s, m, d).bytes[m..] == s[m..]
  {
    var os := Split(s[..m]).value;
    SplitFlattens(s[..m], os);
    ShiftMoves(s, m, d);
    forall k | 0 <= k < |os| ensures WellFormed(ShiftAll(os, d)[k]) {
      FrontKept(os[k], d);
    }
    FlattenSplits(ShiftAll(os, d));
    FlattenLength(os, d);
    var area := Flatten(ShiftAll(os, d));
    assert (area + s[m..])[..m] == area && (area + s[m..])[m..] == s[m..];
  }

  lemma {:induction false} FlattenLength(os: seq<seq<byte>>, d: u32)
    ensures |Flatten(ShiftAll(os, d))| == |Flatten(os)|
  {
    if os != [] {
      FlattenLength(os[1..], d);
    }
  }

  /** Edge j of a SACK option. */
  function Edge(o: seq<byte>, j: nat): u32 {
    Be32(o, 2 + 4 * j)
  }

  /** Each edge moves by d modulo 2^32. */
  lemma EdgeMoves(o: seq<byte>, d: u32, j: nat)
    requires |o| >= 2 && o[0] == SACK && 4 * j + 6 <= |o|
    ensures Edge(ShiftOption(o, d), j) == (Edge(o, j) + d) % 0x1_0000_0000
  {
    var n := (|o| - 2) / 4;
    WordMoves(o[2..], n, d, j);
    assert Be32(o, 2 + 4 * j) == Be32(o[2..], 4 * j);
    assert Be32(ShiftOption(o, d), 2 + 4 * j) == Be32(ShiftWords(o[2..], n, d), 4 * j);
  }

  /** So every block keeps its width, across a wrap too. */
  lemma WidthsKept(o: seq<byte>, d: u32, j: nat)
    requires |o| >= 2 && o[0] == SACK && 4 * j + 10 <= |o|
    ensures (Edge(ShiftOption(o, d), j + 1) - Edge(ShiftOption(o, d), j)) % 0x1_0000_0000 ==
            (Edge(o, j + 1) - Edge(o, j)) % 0x1_0000_0000
  {
    EdgeMoves(o, d, j);
    EdgeMoves(o, d, j + 1);
    MovedDifference(Edge(o, j), Edge(o, j + 1), d);
  }

  lemma MovedDifference(a: u32, b: u32, d: u32)
    ensures ((b + d) % 0x1_0000_0000 - (a + d) % 0x1_0000_0000) % 0x1_0000_0000 == (b as int - a as int) % 0x1_0000_0000
  {
    var x: int := (b + d) % 0x1_0000_0000;
    var y: int := (a + d) % 0x1_0000_0000;
    assert x == b + d || x == b + d - 0x1_0000_0000;
    assert y == a + d || y == a + d - 0x1_0000_0000;
  }

  lemma {:induction false} WordMoves(x: seq<byte>, n: nat, d: u32, j: nat)
    requires j < n && 4 * n <= |x|
    ensures Be32(ShiftWords(x, n, d), 4 * j) == (Be32(x, 4 * j) + d) % 0x1_0000_0000
    decreases n
  {
    var v: u32 := (Be32(x, 0) + d) % 0x1_0000_0000;
    var y := ShiftWords(x[4..], n - 1, d);
    if j > 0 {
      WordMoves(x[4..], n - 1, d, j - 1);
      WordBehind(x[..4], x[4..], j);
      assert x == x[..4] + x[4..];
      WordBehind(Octets32(v), y, j);
    } else {
      WordOfOctets(v, y);
    }
  }

  lemma WordBehind(w: seq<byte>, y: seq<byte>, j: nat)
    requires |w| == 4 && j > 0 && 4 * j <= |y|
    ensures Be32(w + y, 4 * j) == Be32(y, 4 * (j - 1))
  {
  }

  // ----- Shifting back

  function Back(d: u32): u32 {
    if d == 0 then 0 else 0x1_0000_0000 - d
  }

  lemma WordBack(v: u32, d: u32)
    ensures ((v + d) % 0x1_0000_0000 + Back(d)) % 0x1_0000_0000 == v
  {
  }

  /** Moving the words of an octet string whose first word is v. */
  lemma {:induction false} ShiftWordsCons(v: u32, y: seq<byte>, n: nat, d: u32)
    requires n > 0
    ensures ShiftWords(Octets32(v) + y, n, d) == Octets32((v + d) % 0x1_0000_0000) + ShiftWords(y, n - 1, d)
  {
    WordOfOctets(v, y);
    assert (Octets32(v) + y)[4..] == y;
  }

  lemma Cons(x: seq<byte>)
    requires |x| >= 4
    ensures x == Octets32(Be32(x, 0)) + x[4..]
  {
    OctetsOfWord(x);
    assert x == x[..4] + x[4..];
  }

  lemma {:induction false} WordsBack(x: seq<byte>, n: nat, d: u32)
    ensures ShiftWords(ShiftWords(x, n, d), n, Back(d)) == x
    decreases n
  {
    if n > 0 && |x| >= 4 {
      WordsBack(x[4..], n - 1, d);
      WordsBackNext(Be32(x, 0), x[4..], n, d, ShiftWords(x[4..], n - 1, d));
      Cons(x);
    }
  }

  lemma WordsBackNext(v: u32, t: seq<byte>, n: nat, d: u32, y: seq<byte>)
    requires n > 0 && ShiftWords(y, n - 1, Back(d)) == t
    ensures ShiftWords(Octets32((v + d) % 0x1_0000_0000) + y, n, Back(d)) == Octets32(v) + t
  {
    ShiftWordsCons((v + d) % 0x1_0000_0000, y, n, Back(d));
    WordBack(v, d);
  }

  lemma FrontBack(s: seq<byte>, d: u32)
    requires s != [] && ShiftFront(s, d).Ok?
    ensures ShiftFront(ShiftFront(s, d).value, Back(d)) == Ok(s)
  {
    if s[0] == SACK {
      var n := 2 * NumSackBlocks(Bytes.At(s, 1)).value;
      var y := ShiftWords(s[2..], n, d);
      WordsBack(s[2..], n, d);
      var t := s[..2] + y;
      assert t[..2] == s[..2] && t[2..] == y && t[0] == s[0] && Bytes.At(t, 1) == Bytes.At(s, 1);
      assert s == s[..2] + s[2..];
    }
  }

  lemma OptionBack(o: seq<byte>, d: u32)
    ensures ShiftOption(ShiftOption(o, d), Back(d)) == o
  {
    if |o| >= 2 && o[0] == SACK {
      var n := (|o| - 2) / 4;
      var y := ShiftWords(o[2..], n, d);
      WordsBack(o[2..], n, d);
      assert (o[..2] + y)[..2] == o[..2] && (o[..2] + y)[2..] == y;
    }
  }

  /** The second shift brings s back and reports what the first did. */
  predicate Restores(s: seq<byte>, m: nat, d: u32)
    requires m <= |s|
  {
    var first := ShiftArea(s, m, d);
    ShiftArea(first.bytes, m, Back(d)) == Outcome(s, first.error)
  }

  lemma {:induction false} AreaRestored(s: seq<byte>, m: nat, d: u32)
    requires m <= |s|
    ensures Restores(s, m, d)
    decreases m
  {
    if m > 0 {
      if OptionLength(s[..m]).Ok? {
        var n := OptionLength(s[..m]).value;
        if SackOfBlocks(s[..n]) {
          AreaRestored(s[n..], m - n, d);
          ShiftBackOne(s, m, d, n, ShiftArea(s[n..], m - n, d));
        } else {
          StopsAlike(s, m, d, n);
        }
      } else {
        BackStops(s, m, d);
      }
    }
  }

  /**
    For every packet, malformed ones included, shifting by d and then by -d restores it bit for bit,
    and reports the same both times.
   */
  lemma {:induction false} ShiftBack(s: seq<byte>, m: nat, d: u32)
    requires m <= |s|
    ensures ShiftArea(ShiftArea(s, m, d).bytes, m, Back(d)) == Outcome(s, ShiftArea(s, m, d).error)
  {
    AreaRestored(s, m, d);
  }

  lemma StopsAlike(s: seq<byte>, m: nat, d: u32, n: nat)
    requires 0 < m <= |s| && OptionLength(s[..m]) == Ok(n) && !SackOfBlocks(s[..n])
    ensures Restores(s, m, d)
  {
    FrontShift(s, m, d, n);
    FrontShift(s, m, Back(d), n);
  }

  lemma BackStops(s: seq<byte>, m: nat, d: u32)
    requires 0 < m <= |s| && OptionLength(s[..m]).Err?
    ensures Restores(s, m, d)
  {
    if ShiftFront(s, d).Ok? {
      FrontLengthKept(s, m, d);
      FrontBack(s, d);
    }
  }

  lemma {:induction false} ShiftBackOne(s: seq<byte>, m: nat, d: u32, n: nat, tail: Outcome)
    requires 0 < m <= |s| && OptionLength(s[..m]) == Ok(n) && SackOfBlocks(s[..n])
    requires tail == ShiftArea(s[n..], m - n, d) && Restores(s[n..], m - n, d)
    ensures Restores(s, m, d)
  {
    ShiftPast(s, m, d, n, tail);
    SplitRestores(s, s[..n], s[n..], m, d, n, tail);
  }

  lemma {:induction false} SplitRestores(s: seq<byte>, o: seq<byte>, t: seq<byte>, m: nat, d: u32, n: nat,
                                         tail: Outcome)
    requires s == o + t && |o| == n && 0 < n <= m <= |s| && OptionLength(s[..m]) == Ok(n) && SackOfBlocks(o)
    requires |tail.bytes| == |t| && ShiftArea(tail.bytes, m - n, Back(d)) == Outcome(t, tail.error)
    requires ShiftArea(s, m, d) == Outcome(ShiftOption(o, d) + tail.bytes, tail.error)
    ensures Restores(s, m, d)
  {
    BackPast(o, t, m, d, tail);
  }

  lemma {:induction false} BackPast(o: seq<byte>, t: seq<byte>, m: nat, d: u32, tail: Outcome)
    requires 0 < |o| <= m <= |o| + |t| && OptionLength((o + t)[..m]) == Ok(|o|) && SackOfBlocks(o)
    requires |tail.bytes| == |t| && ShiftArea(tail.bytes, m - |o|, Back(d)) == Outcome(t, tail.error)
    ensures ShiftArea(ShiftOption(o, d) + tail.bytes, m, Back(d)) == Outcome(o + t, tail.error)
  {
    FrontAgain(o, t, m, d, tail.bytes);
    ShiftedBack(ShiftOption(o, d), tail.bytes, m, Back(d), |o|, Outcome(t, tail.error));
    OptionBack(o, d);
  }

  lemma {:induction false} ShiftedBack(o: seq<byte>, t: seq<byte>, m: nat, d: u32, n: nat, tail: Outcome)
    requires |o| == n <= m <= n + |t| && 0 < m && OptionLength((o + t)[..m]) == Ok(n) && SackOfBlocks(o)
    requires tail == ShiftArea(t, m - n, d)
    ensures ShiftArea(o + t, m, d) == Outcome(ShiftOption(o, d) + tail.bytes, tail.error)
  {
    assert (o + t)[..n] == o && (o + t)[n..] == t;
    ShiftPast(o + t, m, d, n, tail);
  }

  lemma FrontAgain(o: seq<byte>, t: seq<byte>, m: nat, d: u32, u: seq<byte>)
    requires 0 < |o| <= m <= |o| + |t| && |u| == |t| && OptionLength((o + t)[..m]) == Ok(|o|) && SackOfBlocks(o)
    ensures OptionLength((ShiftOption(o, d) + u)[..m]) == Ok(|o|)
    ensures SackOfBlocks(ShiftOption(o, d))
  {
    var p := ShiftOption(o, d);
    assert (p + u)[..m][0] == (o + t)[..m][0] && (|o| > 1 ==> (p + u)[..m][1] == (o + t)[..m][1]);
  }

  // ----- When shifting stays inside the option area

  /** The end of the first whole word of a SACK option that reaches past an area with m octets left. */
  function FirstWordPast(m: nat): nat
    requires m > 0
  {
    if m == 1 then 6 else 6 + 4 * ((m - 2) / 4)
  }

  /**
    The iterator reaches a SACK option of whole blocks whose length octet claims more than the area
    holds, and the packet goes on far enough past the area for the first word outside.
   */
  predicate Overruns(s: seq<byte>, m: nat)
    requires m <= |s|
    decreases m
  {
    m > 0 &&
    match OptionLength(s[..m])
    case Ok(n) => SackOfBlocks(s[..n]) && Overruns(s[n..], m - n)
    case Err(_) =>
      && s[0] == SACK
      && NumSackBlocks(Bytes.At(s, 1)).Ok?
      && FirstWordPast(m) <= |s|
  }

  /** Words that end inside the first p octets, or do not fit in x at all, leave the rest as it is. */
  lemma {:induction false} WordsBefore(x: seq<byte>, n: nat, d: u32, p: nat)
    requires p <= |x| && (4 * n <= p || |x| < 4 * (p / 4) + 4)
    ensures ShiftWords(x, n, d)[p..] == x[p..]
    decreases n
  {
    if n > 0 && |x| >= 4 {
      if p < 4 {
        assert false;
      } else {
        WordsBefore(x[4..], n - 1, d, p - 4);
        PastTail(Octets32((Be32(x, 0) + d) % 0x1_0000_0000), ShiftWords(x[4..], n - 1, d), p);
        assert x[p..] == x[4..][p - 4..];
      }
    }
  }

  /** The last octet of a moved word changes when the word moves by one. */
  lemma {:induction false} WordChanges(x: seq<byte>, n: nat, j: nat)
    requires j < n && 4 * j + 4 <= |x|
    ensures ShiftWords(x, n, 1)[4 * j + 3] != x[4 * j + 3]
    decreases n
  {
    if j > 0 {
      WordChanges(x[4..], n - 1, j - 1);
      assert x[4..][4 * (j - 1) + 3] == x[4 * j + 3];
      IndexPast(Octets32((Be32(x, 0) + 1) % 0x1_0000_0000), ShiftWords(x[4..], n - 1, 1), 4 * j + 3);
    } else {
      LastOctetChanges(Be32(x, 0));
      LastOctet(x);
    }
  }

  lemma IndexPast(w: seq<byte>, y: seq<byte>, k: nat)
    requires |w| <= k < |w| + |y|
    ensures (w + y)[k] == y[k - |w|]
  {
  }

  lemma LastOctet(x: seq<byte>)
    requires |x| >= 4
    ensures Be32(x, 0) % 0x100 == x[3]
  {
  }

  lemma LastOctetChanges(v: u32)
    ensures Octets32((v + 1) % 0x1_0000_0000)[3] != v % 0x100
  {
  }

  lemma {:induction false} FrontStaysInside(s: seq<byte>, m: nat, d: u32)
    requires 0 < m <= |s| && OptionLength(s[..m]).Err? && !Overruns(s, m)
    ensures ShiftArea(s, m, d).bytes[m..] == s[m..]
  {
    if s[0] == SACK && NumSackBlocks(Bytes.At(s, 1)).Ok? {
      FrontLengthKept(s, m, d);
      var n := 2 * NumSackBlocks(Bytes.At(s, 1)).value;
      var p := if m == 1 then 0 else m - 2;
      WordsBefore(s[2..], n, d, p);
      var y := ShiftWords(s[2..], n, d);
      assert y[p..] == s[2..][p..];
      assert m > 1 ==> (s[..2] + y)[m..] == y[p..] && s[m..] == s[2..][p..];
      assert m == 1 ==> y == s[2..] && s[..2] + y == s;
    }
  }

  lemma {:induction false} StaysInside(s: seq<byte>, m: nat, d: u32)
    requires m <= |s| && !Overruns(s, m)
    ensures ShiftArea(s, m, d).bytes[m..] == s[m..]
    decreases m
  {
    if m > 0 {
      if OptionLength(s[..m]).Err? {
        FrontStaysInside(s, m, d);
      } else {
        var n := OptionLength(s[..m]).value;
        if SackOfBlocks(s[..n]) {
          StaysInside(s[n..], m - n, d);
          var tail := ShiftArea(s[n..], m - n, d);
          ShiftPast(s, m, d, n, tail);
          PastTail(ShiftOption(s[..n], d), tail.bytes, m);
          assert s[n..][m - n..] == s[m..];
        } else {
          ShiftStops(s, m, d, n);
        }
      }
    }
  }

  lemma PastTail(o: seq<byte>, t: seq<byte>, m: nat)
    requires |o| <= m <= |o| + |t|
    ensures (o + t)[m..] == t[m - |o|..]
  {
  }

  /** The first word that reaches past an area of m octets, counted from the first edge. */
  function WordPast(m: nat): nat
    requires m > 0
    ensures FirstWordPast(m) == 4 * WordPast(m) + 6 && 4 * WordPast(m) + 5 >= m
  {
    if m == 1 then 0 else (m - 2) / 4
  }

  lemma OverrunningBlocks(s: seq<byte>, m: nat) returns (n: nat)
    requires 0 < m <= |s| && OptionLength(s[..m]).Err? && Overruns(s, m)
    ensures |s| >= 2 && s[0] == SACK && NumSackBlocks(s[1]) == Ok(n) && WordPast(m) < 2 * n
  {
    n := NumSackBlocks(Bytes.At(s, 1)).value;
    assert s[..m][0] == s[0] && (m > 1 ==> s[..m][1] == s[1]);
  }

  lemma {:induction false} FrontOverrunChanges(s: seq<byte>, m: nat)
    requires 0 < m <= |s| && OptionLength(s[..m]).Err? && Overruns(s, m)
    ensures ShiftArea(s, m, 1).bytes[m..] != s[m..]
  {
    FrontLengthKept(s, m, 1);
    var n := OverrunningBlocks(s, m);
    var j := WordPast(m);
    WordChanges(s[2..], 2 * n, j);
    ChangedBehind(s[..2], ShiftWords(s[2..], 2 * n, 1), s[2..], 4 * j + 3, m);
    assert s == s[..2] + s[2..];
  }

  lemma ChangedBehind(w: seq<byte>, x: seq<byte>, y: seq<byte>, k: nat, m: nat)
    requires |x| == |y| && k < |x| && x[k] != y[k] && m <= |w| + k
    ensures (w + x)[m..] != (w + y)[m..]
  {
    assert (w + x)[m..][|w| + k - m] == x[k] && (w + y)[m..][|w| + k - m] == y[k];
  }

  lemma {:induction false} OverrunChanges(s: seq<byte>, m: nat)
    requires m <= |s| && Overruns(s, m)
    ensures ShiftArea(s, m, 1).bytes[m..] != s[m..]
    decreases m
  {
    if OptionLength(s[..m]).Err? {
      FrontOverrunChanges(s, m);
    } else {
      var n := OptionLength(s[..m]).value;
      OverrunChanges(s[n..], m - n);
      var tail := ShiftArea(s[n..], m - n, 1);
      ShiftPast(s, m, 1, n, tail);
      PastTail(ShiftOption(s[..n], 1), tail.bytes, m);
      assert s[n..][m - n..] == s[m..];
    }
  }

  /**
    The loop body runs before the iterator checks the option's length, so a SACK option that claims
    more than the area holds has octets behind the area moved before the error is reported. The octets
    behind the area keep their values, whatever the offset, exactly when no such option is reached.
   */
  lemma {:induction false} OutsideKeptIff(s: seq<byte>, m: nat)
    requires m <= |s|
    ensures (forall d: u32 :: ShiftArea(s, m, d).bytes[m..] == s[m..]) <==> !Overruns(s, m)
  {
    if Overruns(s, m) {
      OverrunChanges(s, m);
    } else {
      forall d: u32 ensures ShiftArea(s, m, d).bytes[m..] == s[m..] {
        StaysInside(s, m, d);
      }
    }
  }

  function Nops(k: nat): (r: seq<byte>)
    ensures |r| == k
  {
    if k == 0 then [] else [NOP] + Nops(k - 1)
  }

  /**
    Such areas, of every size from two octets on and so of every size that a TCP header can have: NOPs,
    and in the last two octets a SACK option that announces one whole block. The eight octets of payload
    behind the area are moved before the error is reported.
   */
  lemma {:induction false} OverrunExample(k: nat)
    ensures ShiftArea(Nops(k) + [SACK, 10, 0, 0, 0, 1, 0, 0, 0, 2], k + 2, 1)
            == Outcome(Nops(k) + [SACK, 10, 0, 0, 0, 2, 0, 0, 0, 3], Err(DataTooFar))
  {
    var x: seq<byte>, y: seq<byte> := [SACK, 10, 0, 0, 0, 1, 0, 0, 0, 2], [SACK, 10, 0, 0, 0, 2, 0, 0, 0, 3];
    if k == 0 {
      OverrunFirst(x, y);
      assert Nops(0) + x == x && Nops(0) + y == y;
    } else {
      OverrunExample(k - 1);
      PastNop(k, x, y, k + 2, 1, Err(DataTooFar));
    }
  }

  lemma PastOneNop(s: seq<byte>, m: nat, d: u32, tail: Outcome)
    requires 0 < m <= |s| && s[0] == NOP && tail == ShiftArea(s[1..], m - 1, d)
    ensures ShiftArea(s, m, d) == Outcome([NOP] + tail.bytes, tail.error)
  {
    assert s[..m][0] == NOP && s[..1] == [NOP];
    ShiftPast(s, m, d, 1, tail);
  }

  lemma PastNop(k: nat, x: seq<byte>, y: seq<byte>, m: nat, d: u32, error: Result<()>)
    requires k > 0 && |x| == |y| && 0 < m <= k + |x|
    requires ShiftArea(Nops(k - 1) + x, m - 1, d) == Outcome(Nops(k - 1) + y, error)
    ensures ShiftArea(Nops(k) + x, m, d) == Outcome(Nops(k) + y, error)
  {
    Regroup([NOP], Nops(k - 1), x);
    Regroup([NOP], Nops(k - 1), y);
    var s := [NOP] + (Nops(k - 1) + x);
    assert s[1..] == Nops(k - 1) + x;
    PastOneNop(s, m, d, Outcome(Nops(k - 1) + y, error));
  }

  lemma {:induction false} TwoWords(x: seq<byte>)
    requires x == [0, 0, 0, 1, 0, 0, 0, 2]
    ensures ShiftWords(x, 2, 1) == [0, 0, 0, 2, 0, 0, 0, 3]
  {
    assert x[4..] == [0, 0, 0, 2];
    assert Be32(x, 0) == 1 && Be32(x[4..], 0) == 2;
    assert Octets32(2) == [0, 0, 0, 2] && Octets32(3) == [0, 0, 0, 3];
    assert ShiftWords(x[4..], 1, 1) == [0, 0, 0, 3];
  }

  /** An area that ends with the length octet of its first option. */
  lemma {:induction false} OverrunAlone(s: seq<byte>, w: seq<byte>)
    requires |s| > 2 && s[0] == SACK && s[1] == 10 && w == ShiftWords(s[2..], 2, 1)
    ensures ShiftArea(s, 2, 1) == Outcome(s[..2] + w, Err(DataTooFar))
  {
    var s1 := s[..2] + w;
    assert NumSackBlocks(10) == Ok(1) && ShiftFront(s, 1) == Ok(s1);
    TooFar(s1[..2]);
  }

  lemma TooFar(area: seq<byte>)
    requires |area| == 2 && area[0] == SACK && area[1] == 10
    ensures OptionLength(area) == Err(DataTooFar)
  {
  }

  lemma {:induction false} OverrunFirst(x: seq<byte>, y: seq<byte>)
    requires x == [SACK, 10, 0, 0, 0, 1, 0, 0, 0, 2] && y == [SACK, 10, 0, 0, 0, 2, 0, 0, 0, 3]
    ensures ShiftArea(x, 2, 1) == Outcome(y, Err(DataTooFar))
  {
    assert x[2..] == [0, 0, 0, 1, 0, 0, 0, 2];
    TwoWords(x[2..]);
    OverrunAlone(x, [0, 0, 0, 2, 0, 0, 0, 3]);
    assert x[..2] + [0, 0, 0, 2, 0, 0, 0, 3] == y;
  }
}
