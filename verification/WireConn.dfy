/** Length-prefixed messages over partial reads and writes of a TCP connection (wire_conn.c). */
module WireConn {
  import opened Wrappers
  import opened Bytes

  const HEADER_BYTES := 8
  const MAX_MESSAGE_BYTES := 10_000_000

  /**
    What the kernel makes of one read or write call: it moves up to n octets, or the call is
    interrupted (EINTR, EAGAIN), or it fails for good, or the remote side has closed.
   */
  datatype Answer = Moves(n: nat) | Interrupted | Broken | Closed

  /** STATUS_OK, STATUS_ERR, or still blocked in the kernel. */
  datatype Status = Ok | Err | Blocked

  function Min(a: nat, b: nat): nat {
    if a < b then a else b
  }

  // ----- Messages

  datatype Message = Message(op: u32, payload: seq<byte>)

  /** The octets that wire_conn_write hands to the kernel. */
  function Frame(m: Message): (r: seq<byte>)
    requires |m.payload| < 0x8000_0000
    ensures |r| == HEADER_BYTES + |m.payload|
  {
    Octets32(HEADER_BYTES + |m.payload|) + Octets32(m.op) + m.payload
  }

  /** Payload lengths are C ints. */
  type Sendable = m: Message | |m.payload| < 0x8000_0000 witness Message(0, [])

  function Frames(ms: seq<Sendable>): seq<byte> {
    if ms == [] then [] else Frame(ms[0]) + Frames(ms[1..])
  }

  /** The conversion of an unsigned difference to int. */
  function ToInt32(v: int): int {
    var u := v % 0x1_0000_0000;
    if u < 0x8000_0000 then u else u - 0x1_0000_0000
  }

  /** The payload length that a header announces, or nothing if wire_conn_read refuses it. */
  function AnnouncedLength(header: seq<byte>): (r: Option<nat>)
    ensures r.Some? ==> r.value <= MAX_MESSAGE_BYTES
  {
    var length := ToInt32(Be32(header, 0) as int - HEADER_BYTES);
    if length < 0 || length > MAX_MESSAGE_BYTES then None else Some(length)
  }

  // ----- What the kernel's answers make of the loops

  /** How a call ends: its status, the octets it moved, and the answers left for the calls after it. */
  datatype Run = Run(status: Status, moved: nat, answers: seq<Answer>)

  /** write_bytes succeeds once the kernel has taken all octets, and fails if it breaks before. */
  function WriteRun(length: nat, answers: seq<Answer>): (r: Run)
    ensures r.moved <= length && (r.status == Ok <==> r.moved == length)
    decreases |answers|
  {
    if length == 0 then Run(Ok, 0, answers)
    else if answers == [] then Run(Blocked, 0, [])
    else
      match answers[0]
      case Moves(n) => Further(Min(n, length), WriteRun(length - Min(n, length), answers[1..]))
      case Interrupted => WriteRun(length, answers[1..])
      case _ => Run(Err, 0, answers[1..])
  }

  /** The octets that a read returning up to n moves, of those wanted and on the way; it returns at least one. */
  function Returned(n: nat, length: nat, available: nat): (r: nat)
    ensures r <= length && r <= available
    ensures length > 0 && available > 0 ==> r > 0
  {
    Min(if n == 0 then 1 else n, Min(length, available))
  }

  /** read_bytes with this many octets on the way: a read waits until there are any. */
  function ReadRun(length: nat, available: nat, answers: seq<Answer>): (r: Run)
    ensures r.moved <= length && r.moved <= available && (r.status == Ok <==> r.moved == length)
    decreases |answers|
  {
    if length == 0 then Run(Ok, 0, answers)
    else if answers == [] || (answers[0].Moves? && available == 0) then Run(Blocked, 0, answers)
    else
      match answers[0]
      case Moves(n) =>
        var k := Returned(n, length, available);
        Further(k, ReadRun(length - k, available - k, answers[1..]))
      case Interrupted => ReadRun(length, available, answers[1..])
      case _ => Run(Err, 0, answers[1..])
  }

  /** A run that moves n octets first. */
  function Further(n: nat, run: Run): Run {
    run.(moved := n + run.moved)
  }

  lemma FurtherTwice(m: nat, n: nat, run: Run)
    ensures Further(m, Further(n, run)) == Further(m + n, run)
  {
  }

  /** wire_conn_write: the header, and then the payload of this length. */
  function WriteMessageRun(length: nat, answers: seq<Answer>): (r: Run)
    ensures r.moved <= HEADER_BYTES + length && (r.status == Ok <==> r.moved == HEADER_BYTES + length)
  {
    var header := WriteRun(HEADER_BYTES, answers);
    if header.status != Ok then header
    else Further(HEADER_BYTES, WriteRun(length, header.answers))
  }

  /** wire_conn_read: the header, and then a payload of the length that it announces, unless that is refused. */
  function ReadMessageRun(stream: seq<byte>, answers: seq<Answer>): (r: Run)
    ensures r.moved <= |stream|
  {
    var header := ReadRun(HEADER_BYTES, |stream|, answers);
    if header.status != Ok then header
    else
      match AnnouncedLength(stream)
      case None => header.(status := Err)
      case Some(length) =>
        Further(HEADER_BYTES, ReadRun(length, |stream| - HEADER_BYTES, header.answers))
  }

  // ----- The connection

  class Conn {
    /** The octets that have been handed to the kernel, and those that it has yet to deliver. */
    var sent: seq<byte>
    var incoming: seq<byte>
    /** The kernel's answers to the calls to come. */
    var answers: seq<Answer>
    /** in.buf, of in.buf_space octets. */
    var buf: array<byte>
    var bufSpace: nat

    predicate Valid()
      reads this
    {
      buf.Length == bufSpace
    }

    /** wire_conn_new, on a connection over which the remote side sends these octets. */
    constructor (incoming: seq<byte>, answers: seq<Answer>)
      ensures Valid() && fresh(buf) && sent == [] && bufSpace == 0
      ensures this.incoming == incoming && this.answers == answers
    {
      this.sent, this.incoming, this.answers := [], incoming, answers;
      this.buf, this.bufSpace := new byte[0], 0;
    }

    /** write_bytes: whatever the kernel does, the octets go out in order, and all of them on success. */
    method WriteBytes(data: seq<byte>) returns (status: Status)
      modifies this`sent, this`answers
      ensures var run := WriteRun(|data|, old(answers));
              status == run.status && answers == run.answers && sent == old(sent) + data[..run.moved]
    {
      var rest := data;
      ghost var written: nat := 0;
      while |rest| > 0
        invariant written <= |data| && rest == data[written..] && sent == old(sent) + data[..written]
        invariant WriteRun(|data|, old(answers)) == Further(written, WriteRun(|rest|, answers))
        decreases |answers|
      {
        if answers == [] {
          return Blocked;
        }
        var answer := answers[0];
        answers := answers[1..];
        match answer
        case Moves(n) =>
          var bytesWritten := Min(n, |rest|);
          FurtherTwice(written, bytesWritten, WriteRun(|rest| - bytesWritten, answers));
          sent := sent + rest[..bytesWritten];
          assert data[..written] + rest[..bytesWritten] == data[..written + bytesWritten];
          rest := rest[bytesWritten..];
          written := written + bytesWritten;
        case Interrupted =>
        case _ => return Err;
      }
      status := Ok;
    }

    /** wire_conn_write. */
    method Write(m: Sendable) returns (status: Status)
      modifies this`sent, this`answers
      ensures var run := WriteMessageRun(|m.payload|, old(answers));
              status == run.status && answers == run.answers && sent == old(sent) + Frame(m)[..run.moved]
    {
      ghost var before := sent;
      var header := Octets32(HEADER_BYTES + |m.payload|) + Octets32(m.op);
      ghost var n := WriteRun(HEADER_BYTES, answers).moved;
      status := WriteBytes(header);
      assert header[..n] == Frame(m)[..n];
      if status != Ok {
        return;
      }
      ghost var k := WriteRun(|m.payload|, answers).moved;
      status := WriteBytes(m.payload);
      assert header + m.payload[..k] == Frame(m)[..HEADER_BYTES + k];
      assert before + header + m.payload[..k] == before + (header + m.payload[..k]);
    }

    /** read_bytes: the first octets still to be delivered, whatever the sizes they come in. */
    method ReadBytes(into: array<byte>, length: nat) returns (status: Status)
      requires length <= into.Length
      modifies this`incoming, this`answers, into
      ensures var run := ReadRun(length, |old(incoming)|, old(answers));
              && status == run.status && answers == run.answers && incoming == old(incoming)[run.moved..]
              && into[..] == old(incoming)[..run.moved] + old(into[..])[run.moved..]
    {
      ghost var stream, was := incoming, into[..];
      var at: nat := 0;
      while length - at > 0
        invariant at <= length && at <= |stream| && incoming == stream[at..]
        invariant into[..] == stream[..at] + was[at..]
        invariant ReadRun(length, |stream|, old(answers)) == Further(at, ReadRun(length - at, |incoming|, answers))
        decreases |answers|
      {
        if answers == [] || (answers[0].Moves? && incoming == []) {
          return Blocked;
        }
        var answer := answers[0];
        answers := answers[1..];
        match answer
        case Moves(n) =>
          var bytesRead := Returned(n, length - at, |incoming|);
          FurtherTwice(at, bytesRead, ReadRun(length - at - bytesRead, |incoming| - bytesRead, answers));
          Deliver(into, at, bytesRead);
          SliceGrows(stream, was, at, bytesRead);
          at := at + bytesRead;
        case Interrupted =>
        case _ => return Err;
      }
      status := Ok;
    }

    /** wire_conn_read. */
    method Read() returns (status: Status, m: Message)
      requires Valid()
      modifies this, buf
      ensures Valid() && (buf == old(buf) || fresh(buf)) && sent == old(sent)
      ensures var run := ReadMessageRun(old(incoming), old(answers));
              status == run.status && answers == run.answers && incoming == old(incoming)[run.moved..]
      ensures status == Ok ==> |m.payload| <= MAX_MESSAGE_BYTES && old(incoming) == Frame(m) + incoming
      ensures status == Ok ==> |m.payload| <= bufSpace && m.payload == buf[..|m.payload|]
      ensures bufSpace == old(bufSpace) || old(bufSpace) < bufSpace <= 2 * MAX_MESSAGE_BYTES
    {
      m := Message(0, []);
      ghost var stream := incoming;
      var header := new byte[HEADER_BYTES];
      status := ReadBytes(header, HEADER_BYTES);
      if status != Ok {
        return;
      }
      assert header[..] == stream[..HEADER_BYTES];
      var length := AnnouncedLength(header[..]);
      HeaderOnly(stream);
      if length.None? {
        return Err, m;
      }
      Reserve(length.value);
      ghost var n := ReadRun(length.value, |incoming|, answers).moved;
      status := ReadBytes(buf, length.value);
      assert stream[HEADER_BYTES..][n..] == stream[HEADER_BYTES + n..];
      if status == Ok {
        assert buf[..length.value] == stream[HEADER_BYTES..HEADER_BYTES + n];
        m := Message(Be32(header[..], 4), buf[..length.value]);
        FrameRead(stream, length.value, m);
      }
    }

    /** Makes the buffer large enough, and then twice as large as needed. */
    method Reserve(length: nat)
      requires Valid()
      modifies this`buf, this`bufSpace
      ensures Valid() && (buf == old(buf) || fresh(buf))
      ensures bufSpace == if old(bufSpace) < length then 2 * length else old(bufSpace)
    {
      if bufSpace < length {
        bufSpace := 2 * length;
        buf := new byte[bufSpace];
      }
    }

    /** The kernel's copy of n delivered octets into memory. */
    method Deliver(into: array<byte>, at: nat, n: nat)
      requires at + n <= into.Length && n <= |incoming|
      modifies this`incoming, into
      ensures incoming == old(incoming)[n..]
      ensures into[..] == old(into[..])[..at] + old(incoming)[..n] + old(into[..])[at + n..]
    {
      ghost var was := into[..];
      var i := 0;
      while i < n
        invariant 0 <= i <= n && incoming == old(incoming)
        invariant into[..] == was[..at] + incoming[..i] + was[at + i..]
      {
        into[at + i] := incoming[i];
        i := i + 1;
      }
      incoming := incoming[n..];
    }
  }

  lemma SliceGrows(stream: seq<byte>, was: seq<byte>, at: nat, n: nat)
    requires at + n <= |stream| && at + n <= |was|
    ensures stream[at..][n..] == stream[at + n..]
    ensures var now := stream[..at] + was[at..];
            now[..at] + stream[at..][..n] + now[at + n..] == stream[..at + n] + was[at + n..]
  {
    var now := stream[..at] + was[at..];
    assert now[..at] == stream[..at];
    assert now[at + n..] == was[at + n..];
    assert stream[..at] + stream[at..][..n] == stream[..at + n];
  }

  /** The kernel neither fails nor reports the remote side gone. */
  predicate Reliable(answers: seq<Answer>) {
    forall k :: 0 <= k < |answers| ==> answers[k].Moves? || answers[k].Interrupted?
  }

  /** A whole header has come in, and it announces a length that wire_conn_read refuses. */
  predicate Refused(stream: seq<byte>) {
    |stream| >= HEADER_BYTES && AnnouncedLength(stream).None?
  }

  lemma HeaderOnly(stream: seq<byte>)
    requires |stream| >= HEADER_BYTES
    ensures AnnouncedLength(stream[..HEADER_BYTES]) == AnnouncedLength(stream)
    ensures Be32(stream[..HEADER_BYTES], 4) == Be32(stream, 4)
  {
  }

  lemma FrameRead(stream: seq<byte>, length: nat, m: Message)
    requires |stream| >= HEADER_BYTES + length && AnnouncedLength(stream[..HEADER_BYTES]) == Some(length)
    requires m == Message(Be32(stream, 4), stream[HEADER_BYTES..HEADER_BYTES + length])
    ensures stream == Frame(m) + stream[HEADER_BYTES + length..]
  {
    assert Be32(stream, 0) == HEADER_BYTES + length;
    OctetsOfWord(stream);
    OctetsOfWord(stream[4..]);
    assert stream[4..][..4] == stream[4..8] && Be32(stream[4..], 0) == Be32(stream, 4);
    assert stream == stream[..4] + stream[4..8] + stream[8..8 + length] + stream[8 + length..];
  }

  /**
    The reader accepts exactly the messages of at most MAX_MESSAGE_BYTES octets, although the writer
    sends longer ones.
   */
  lemma RefusedIff(m: Sendable, t: seq<byte>)
    ensures Refused(Frame(m) + t) <==> |m.payload| > MAX_MESSAGE_BYTES
  {
    var v: u32 := HEADER_BYTES + |m.payload|;
    var tail := Octets32(m.op) + m.payload + t;
    assert Frame(m) + t == Octets32(v) + tail;
    WordOfOctets(v, tail);
  }

  /** Streams of accepted messages can be read in one way only. */
  lemma FrameUnique(m: Sendable, t: seq<byte>, n: Sendable, u: seq<byte>)
    requires Frame(m) + t == Frame(n) + u
    ensures m == n && t == u
  {
    FrameFields(m, t);
    FrameFields(n, u);
    assert t == (Frame(m) + t)[|Frame(m)|..] && u == (Frame(n) + u)[|Frame(n)|..];
  }

  lemma FrameFields(m: Sendable, t: seq<byte>)
    ensures var s := Frame(m) + t;
            && Be32(s, 0) == HEADER_BYTES + |m.payload|
            && Be32(s, 4) == m.op
            && s[HEADER_BYTES..HEADER_BYTES + |m.payload|] == m.payload
  {
    var v: u32 := HEADER_BYTES + |m.payload|;
    var s := Frame(m) + t;
    WordOfOctets(v, Octets32(m.op) + m.payload + t);
    WordOfOctets(m.op, m.payload + t);
    assert s == Octets32(v) + (Octets32(m.op) + m.payload + t);
    assert s[4..] == Octets32(m.op) + (m.payload + t);
    assert Be32(s, 4) == Be32(s[4..], 0);
  }

  /** A frame as its octets: its whole length, the operation, both most significant octet first, and the payload. */
  lemma FrameOctets(m: Sendable)
    ensures var f := Frame(m);
            && |f| == 8 + |m.payload|
            && f[0] as int * 16777216 + f[1] as int * 65536 + f[2] as int * 256 + f[3] as int == |f|
            && f[4] as int * 16777216 + f[5] as int * 65536 + f[6] as int * 256 + f[7] as int == m.op
            && f[8..] == m.payload
            && forall t: seq<byte> :: Refused(f + t) <==> |m.payload| > 10_000_000
  {
    FrameFields(m, []);
    assert Frame(m) + [] == Frame(m);
    forall t: seq<byte> ensures Refused(Frame(m) + t) <==> |m.payload| > 10_000_000 {
      RefusedIff(m, t);
    }
  }

  lemma {:induction false} FramesUnique(ms: seq<Sendable>, t: seq<byte>, ns: seq<Sendable>, u: seq<byte>)
    requires |ms| == |ns| && Frames(ms) + t == Frames(ns) + u
    ensures ms == ns && t == u
  {
    if ms != [] {
      var x, y := Frames(ms[1..]) + t, Frames(ns[1..]) + u;
      Regroup(Frame(ms[0]), Frames(ms[1..]), t);
      Regroup(Frame(ns[0]), Frames(ns[1..]), u);
      FrameUnique(ms[0], x, ns[0], y);
      FramesUnique(ms[1..], t, ns[1..], u);
      assert ms == [ms[0]] + ms[1..] && ns == [ns[0]] + ns[1..];
    } else {
      assert t == [] + t && u == [] + u;
    }
  }

  lemma FramesNext(ms: seq<Sendable>, i: nat)
    requires i < |ms|
    ensures Frames(ms[..i + 1]) == Frames(ms[..i]) + Frame(ms[i])
  {
    assert ms[..i + 1] == ms[..i] + [ms[i]];
    FramesAppend(ms[..i], ms[i]);
  }

  lemma {:induction false} FramesAppend(ms: seq<Sendable>, m: Sendable)
    ensures Frames(ms + [m]) == Frames(ms) + Frame(m)
  {
    if ms == [] {
      assert ms + [m] == [m] && [m][1..] == [];
    } else {
      FramesAppend(ms[1..], m);
      assert (ms + [m])[1..] == ms[1..] + [m];
      Regroup(Frame(ms[0]), Frames(ms[1..]), Frame(m));
    }
  }

  // ----- Progress

  /** The octets that these answers take. */
  function Capacity(answers: seq<Answer>): nat {
    if answers == [] then 0
    else (if answers[0].Moves? then answers[0].n else 0) + Capacity(answers[1..])
  }

  /** How many of these answers move an octet or more. */
  function Movers(answers: seq<Answer>): nat {
    if answers == [] then 0
    else (if answers[0].Moves? && answers[0].n > 0 then 1 else 0) + Movers(answers[1..])
  }

  /** A reliable kernel that moves octets often enough for this many of them. */
  predicate Delivers(answers: seq<Answer>, length: nat) {
    Reliable(answers) && length <= Movers(answers)
  }

  lemma ReliableTail(answers: seq<Answer>)
    requires Reliable(answers) && answers != []
    ensures Reliable(answers[1..]) && (answers[0].Moves? || answers[0].Interrupted?)
  {
  }

  /** A write ends well exactly when the answers take all its octets. */
  lemma {:induction false} WriteEndsIff(length: nat, answers: seq<Answer>)
    requires Reliable(answers)
    ensures WriteRun(length, answers).status == Ok <==> length <= Capacity(answers)
    decreases |answers|
  {
    if length > 0 && answers != [] {
      ReliableTail(answers);
      if answers[0].Moves? {
        WriteEndsIff(length - Min(answers[0].n, length), answers[1..]);
      } else {
        WriteEndsIff(length, answers[1..]);
      }
    }
  }

  /** How many of these answers let a read return. */
  function Returns(answers: seq<Answer>): nat {
    if answers == [] then 0
    else (if answers[0].Moves? then 1 else 0) + Returns(answers[1..])
  }

  /** A read of octets that are on the way ends well once as many calls have returned, and at most that many do. */
  lemma {:induction false} ReadEnds(length: nat, available: nat, answers: seq<Answer>)
    requires Reliable(answers) && length <= available && length <= Returns(answers)
    ensures ReadRun(length, available, answers).status == Ok
    decreases |answers|
  {
    if length > 0 && answers != [] {
      ReliableTail(answers);
      if answers[0].Moves? {
        var k := Returned(answers[0].n, length, available);
        ReadEnds(length - k, available - k, answers[1..]);
      } else {
        ReadEnds(length, available, answers[1..]);
      }
    }
  }

  /** Without a failure there is no error, and the calls to come see none either. */
  lemma {:induction false} WriteReliable(length: nat, answers: seq<Answer>)
    requires Reliable(answers)
    ensures var run := WriteRun(length, answers); run.status != Err && Reliable(run.answers)
    decreases |answers|
  {
    if length > 0 && answers != [] {
      ReliableTail(answers);
      if answers[0].Moves? {
        WriteReliable(length - Min(answers[0].n, length), answers[1..]);
      } else {
        WriteReliable(length, answers[1..]);
      }
    }
  }

  lemma {:induction false} ReadReliable(length: nat, available: nat, answers: seq<Answer>)
    requires Reliable(answers)
    ensures var run := ReadRun(length, available, answers); run.status != Err && Reliable(run.answers)
    decreases |answers|
  {
    if length > 0 && answers != [] {
      ReliableTail(answers);
      if answers[0].Interrupted? {
        ReadReliable(length, available, answers[1..]);
      } else if available > 0 {
        var k := Returned(answers[0].n, length, available);
        ReadReliable(length - k, available - k, answers[1..]);
      }
    }
  }

  /** A write of that many octets ends well, and uses up no more answers that move octets than it has octets. */
  lemma {:induction false} WriteProgress(length: nat, answers: seq<Answer>, more: nat)
    requires Delivers(answers, length + more)
    ensures var run := WriteRun(length, answers); run.status == Ok && Delivers(run.answers, more)
    decreases |answers|
  {
    if length > 0 {
      ReliableTail(answers);
      if answers[0].Moves? {
        WriteProgress(length - Min(answers[0].n, length), answers[1..], more);
      } else {
        WriteProgress(length, answers[1..], more);
      }
    }
  }

  /** So does a read of octets that are on the way. */
  lemma {:induction false} ReadProgress(length: nat, available: nat, answers: seq<Answer>, more: nat)
    requires length <= available && Delivers(answers, length + more)
    ensures var run := ReadRun(length, available, answers); run.status == Ok && Delivers(run.answers, more)
    decreases |answers|
  {
    if length > 0 {
      ReliableTail(answers);
      if answers[0].Moves? {
        var k := Returned(answers[0].n, length, available);
        ReadProgress(length - k, available - k, answers[1..], more);
      } else {
        ReadProgress(length, available, answers[1..], more);
      }
    }
  }

  lemma MessageWritten(m: Sendable, answers: seq<Answer>, more: nat)
    requires Delivers(answers, |Frame(m)| + more)
    ensures var run := WriteMessageRun(|m.payload|, answers);
            run.status == Ok && run.moved == |Frame(m)| && Delivers(run.answers, more)
  {
    var length := |m.payload|;
    WriteProgress(HEADER_BYTES, answers, length + more);
    WriteProgress(length, WriteRun(HEADER_BYTES, answers).answers, more);
  }

  /** A message at the head of the stream is read, or refused for its length. */
  lemma MessageRead(m: Sendable, stream: seq<byte>, answers: seq<Answer>, more: nat)
    requires Frame(m) <= stream && Delivers(answers, |Frame(m)| + more)
    ensures var run := ReadMessageRun(stream, answers);
            if |m.payload| > MAX_MESSAGE_BYTES then run.status == Err
            else run.status == Ok && run.moved == |Frame(m)| && Delivers(run.answers, more)
  {
    var length := |m.payload|;
    ReadProgress(HEADER_BYTES, |stream|, answers, length + more);
    Announced(m, stream);
    ReadProgress(length, |stream| - HEADER_BYTES, ReadRun(HEADER_BYTES, |stream|, answers).answers, more);
  }

  lemma Announced(m: Sendable, stream: seq<byte>)
    requires Frame(m) <= stream
    ensures AnnouncedLength(stream) == if |m.payload| > MAX_MESSAGE_BYTES then None else Some(|m.payload|)
  {
    assert stream == Frame(m) + stream[|Frame(m)|..];
    FrameFields(m, stream[|Frame(m)|..]);
  }

  // ----- Whole conversations

  /** Any number of wire_conn_write calls, until one fails. */
  method WriteAll(conn: Conn, ms: seq<Sendable>) returns (status: Status)
    modifies conn`sent, conn`answers
    ensures status == Ok ==> conn.sent == old(conn.sent) + Frames(ms)
    ensures Reliable(old(conn.answers)) ==> status != Err
    ensures Delivers(old(conn.answers), |Frames(ms)|) ==> status == Ok
  {
    var i := 0;
    ghost var prompt := Delivers(conn.answers, |Frames(ms)|);
    assert ms[..0] == [] && ms[0..] == ms;
    while i < |ms|
      invariant 0 <= i <= |ms| && conn.sent == old(conn.sent) + Frames(ms[..i])
      invariant Reliable(old(conn.answers)) ==> Reliable(conn.answers)
      invariant prompt ==> Delivers(conn.answers, |Frames(ms[i..])|)
    {
      NextWritten(ms, i, conn.answers);
      FrameSent(old(conn.sent), conn.sent, ms, i);
      status := conn.Write(ms[i]);
      if status != Ok {
        return;
      }
      i := i + 1;
    }
    assert ms[..i] == ms;
    status := Ok;
  }

  /** With the next message they are the messages before it and this one. */
  lemma FrameSent(before: seq<byte>, sent: seq<byte>, ms: seq<Sendable>, i: nat)
    requires i < |ms| && sent == before + Frames(ms[..i])
    ensures sent + Frame(ms[i])[..HEADER_BYTES + |ms[i].payload|] == before + Frames(ms[..i + 1])
  {
    FramesNext(ms, i);
  }

  /** What the next call makes of the messages from the i-th on. */
  lemma NextWritten(ms: seq<Sendable>, i: nat, answers: seq<Answer>)
    requires i < |ms|
    ensures var run := WriteMessageRun(|ms[i].payload|, answers);
            && (Reliable(answers) ==> run.status != Err && Reliable(run.answers))
            && (Delivers(answers, |Frames(ms[i..])|) ==>
                  run.status == Ok && Delivers(run.answers, |Frames(ms[i + 1..])|))
  {
    assert ms[i..][1..] == ms[i + 1..];
    if Reliable(answers) {
      WriteReliable(HEADER_BYTES, answers);
      WriteReliable(|ms[i].payload|, WriteRun(HEADER_BYTES, answers).answers);
    }
    if Delivers(answers, |Frames(ms[i..])|) {
      MessageWritten(ms[i], answers, |Frames(ms[i + 1..])|);
    }
  }

  /**
    Any number of wire_conn_read calls, until one fails: what was read is the front of the stream. If
    the stream holds n messages, then those read are the first of them, and on a connection that
    delivers it is exactly a message over the limit that keeps the reader from getting them all.
   */
  method ReadAll(conn: Conn, n: nat, ghost sent: seq<Sendable>)
    returns (status: Status, ms: seq<Sendable>, ghost unread: seq<byte>)
    requires conn.Valid()
    modifies conn, conn.buf
    ensures conn.Valid() && Deliverable(ms) && |ms| <= n
    ensures old(conn.incoming) == Frames(ms) + unread
    ensures status == Ok ==> |ms| == n && unread == conn.incoming
    ensures AreFrames(old(conn.incoming), n, sent) ==> ms <= sent
    ensures AreFrames(old(conn.incoming), n, sent) && Reliable(old(conn.answers)) && Deliverable(sent) ==> status != Err
    ensures AreFrames(old(conn.incoming), n, sent) && Delivers(old(conn.answers), |Frames(sent)|)
            ==> status == if Deliverable(sent) then Ok else Err
  {
    ms, unread := [], conn.incoming;
    ghost var known := AreFrames(unread, n, sent);
    ghost var prompt := Delivers(conn.answers, |Frames(sent)|);
    assert sent[0..] == sent;
    while |ms| < n
      invariant conn.Valid() && (conn.buf == old(conn.buf) || fresh(conn.buf))
      invariant |ms| <= n && Deliverable(ms)
      invariant old(conn.incoming) == Frames(ms) + unread && unread == conn.incoming
      invariant known ==> ms <= sent && unread == Frames(sent[|ms|..])
      invariant Reliable(old(conn.answers)) ==> Reliable(conn.answers)
      invariant known && prompt ==> Delivers(conn.answers, |unread|)
    {
      ghost var answers := conn.answers;
      ReadKeepsReliable(unread, answers);
      if known {
        NextRead(sent, |ms|, unread, answers);
      }
      var m;
      status, m := conn.Read();
      if status != Ok {
        return;
      }
      if known {
        FrameUnique(sent[|ms|], Frames(sent[|ms| + 1..]), m, conn.incoming);
      }
      FramesAppend(ms, m);
      Regroup(Frames(ms), Frame(m), conn.incoming);
      ms, unread := ms + [m], conn.incoming;
    }
    status := Ok;
  }

  ghost predicate AreFrames(stream: seq<byte>, n: nat, sent: seq<Sendable>) {
    n == |sent| && stream == Frames(sent)
  }

  lemma ReadKeepsReliable(stream: seq<byte>, answers: seq<Answer>)
    ensures Reliable(answers) ==> Reliable(ReadMessageRun(stream, answers).answers)
  {
    if !Reliable(answers) {
      return;
    }
    var header := ReadRun(HEADER_BYTES, |stream|, answers);
    ReadReliable(HEADER_BYTES, |stream|, answers);
    if header.status == Ok && AnnouncedLength(stream).Some? {
      ReadReliable(AnnouncedLength(stream).value, |stream| - HEADER_BYTES, header.answers);
    }
  }

  /** With the next message they are the messages before it and this one. */
  lemma SentNext(before: seq<byte>, sent: seq<byte>, ms: seq<Sendable>, i: nat)
    requires i < |ms| && sent == before + Frames(ms[..i])
    ensures sent + Frame(ms[i])[..HEADER_BYTES + |ms[i].payload|] == before + Frames(ms[..i + 1])
  {
    FramesNext(ms, i);
  }

  /** What the next call makes of the messages from the i-th on. */
  lemma NextRead(sent: seq<Sendable>, i: nat, stream: seq<byte>, answers: seq<Answer>)
    requires i < |sent| && stream == Frames(sent[i..])
    ensures stream == Frame(sent[i]) + Frames(sent[i + 1..])
    ensures var run := ReadMessageRun(stream, answers);
            && (Reliable(answers) && run.status == Err ==> !Deliverable(sent))
            && (Delivers(answers, |stream|) ==>
                  if |sent[i].payload| > MAX_MESSAGE_BYTES then run.status == Err && !Deliverable(sent)
                  else run.status == Ok && Delivers(run.answers, |Frames(sent[i + 1..])|))
  {
    assert sent[i..][1..] == sent[i + 1..];
    if Reliable(answers) {
      ReadErr(sent[i], stream, answers);
    }
    if Delivers(answers, |stream|) {
      MessageRead(sent[i], stream, answers, |Frames(sent[i + 1..])|);
    }
  }

  /** On a reliable connection the reader reports an error only for a message over the limit. */
  lemma ReadErr(m: Sendable, stream: seq<byte>, answers: seq<Answer>)
    requires Frame(m) <= stream && Reliable(answers)
    ensures var run := ReadMessageRun(stream, answers);
            run.status == Err ==> |m.payload| > MAX_MESSAGE_BYTES
  {
    var header := ReadRun(HEADER_BYTES, |stream|, answers);
    ReadReliable(HEADER_BYTES, |stream|, answers);
    Announced(m, stream);
    if header.status == Ok {
      ReadReliable(|m.payload|, |stream| - HEADER_BYTES, header.answers);
    }
  }

  predicate Deliverable(ms: seq<Message>) {
    forall k :: 0 <= k < |ms| ==> |ms[k].payload| <= MAX_MESSAGE_BYTES
  }

  /**
    A conversation in one direction. However the kernel cuts up, interrupts and delays the calls of
    either side, the messages that the reader gets are the first of the messages written, and all of
    them on success. If both kernels move octets often enough, then the conversation ends, and it ends
    well exactly when no message is over the limit of the reader.
   */
  method Converse(ms: seq<Sendable>, writing: seq<Answer>, reading: seq<Answer>)
    returns (status: Status, received: seq<Sendable>)
    ensures received <= ms && Deliverable(received)
    ensures status == Ok ==> received == ms
    ensures Reliable(writing) && Reliable(reading) && Deliverable(ms) ==> status != Err
    ensures Delivers(writing, |Frames(ms)|) && Delivers(reading, |Frames(ms)|)
            ==> status == if Deliverable(ms) then Ok else Err
  {
    var writer := new Conn([], writing);
    status := WriteAll(writer, ms);
    received := [];
    if status != Ok {
      return;
    }
    assert writer.sent == Frames(ms);
    var reader := new Conn(writer.sent, reading);
    ghost var unread;
    status, received, unread := ReadAll(reader, |ms|, ms);
  }
}
