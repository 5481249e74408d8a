/** The wire client and the wire server stepping through one script over two FIFO channels. */
module WireProtocol {
  // wire_client_next_event, wire_server_next_event, wire_server_run_packet_event, and the event loops
  // around them. Each side is a process of its own; they share nothing but the channels.

  import opened Wrappers

  datatype EventType = PacketEvent | ClientEvent   // system call, command and code events run on the client

  /** WIRE_PACKETS_START, with the client's event count. */
  datatype ToServer = PacketsStart(numEvents: nat)

  /** WIRE_PACKETS_WARN; WIRE_PACKETS_DONE with the server's event count and its result. */
  datatype ToClient = PacketsWarn | PacketsDone(ok: bool, numEvents: nat)

  datatype ClientPc =
    | CNextEvent      // about to call wire_client_next_event with the next event, or with none
    | CDispatch       // running the event, if it is not a packet event
    | CFinished
    | CDied           // the server reported a failed packet
    | CProtocolError  // a count or a message is not what the client expects

  datatype ServerPc =
    | SNextEvent
    | SRun            // running the event, if it is a packet event
    | SFinished
    | SFailed         // a packet failed; the client has been told
    | SProtocolError

  datatype State = State(client: ClientPc, clientEvents: nat, clientLastIsPacket: bool,
                         server: ServerPc, serverEvents: nat, serverLastIsPacket: bool,
                         toServer: seq<ToServer>, toClient: seq<ToClient>)

  datatype PacketResult = STATUS_OK | STATUS_WARN | STATUS_ERR

  datatype Action = Client | Server(result: PacketResult)

  function Init(): State {
    State(CNextEvent, 0, false, SNextEvent, 0, false, [], [])
  }

  /** The k-th event exists and is a packet event. */
  predicate IsPacket(events: seq<EventType>, k: int) {
    0 <= k < |events| && events[k].PacketEvent?
  }

  // ----- The client

  /** The end of wire_client_next_event, and of the event loop if there is no event left. */
  function ClientAdvances(events: seq<EventType>, s: State): State {
    if s.clientEvents < |events| then
      s.(client := CDispatch, clientEvents := s.clientEvents + 1,
           clientLastIsPacket := IsPacket(events, s.clientEvents))
    else
      s.(client := CFinished)
  }

  /** One round of wire_client_receive_packets_done, which blocks while there is no message. */
  function ClientReceives(events: seq<EventType>, s: State): Option<State> {
    if s.toClient == [] then None
    else
      var rest := s.(toClient := s.toClient[1..]);
      match s.toClient[0]
      case PacketsWarn => Some(rest)
      case PacketsDone(ok, n) =>
        if !ok then Some(rest.(client := CDied))
        else if n != s.clientEvents then Some(rest.(client := CProtocolError))
        else Some(ClientAdvances(events, rest))
  }

  function ClientStep(events: seq<EventType>, s: State): Option<State> {
    match s.client
    case CNextEvent =>
      if IsPacket(events, s.clientEvents) && !s.clientLastIsPacket then
        Some(ClientAdvances(events, s.(toServer := s.toServer + [PacketsStart(s.clientEvents)])))
      else if !IsPacket(events, s.clientEvents) && s.clientLastIsPacket then ClientReceives(events, s)
      else Some(ClientAdvances(events, s))
    case CDispatch => Some(s.(client := CNextEvent))
    case _ => None
  }

  // ----- The server

  function ServerAdvances(events: seq<EventType>, s: State): State {
    if s.serverEvents < |events| then
      s.(server := SRun, serverEvents := s.serverEvents + 1, serverLastIsPacket := IsPacket(events, s.serverEvents))
    else
      s.(server := SFinished)
  }

  function ServerStep(events: seq<EventType>, s: State, result: PacketResult): Option<State> {
    match s.server
    case SNextEvent =>
      if IsPacket(events, s.serverEvents) && !s.serverLastIsPacket then
        if s.toServer == [] then None
        else if s.toServer[0].numEvents != s.serverEvents then
          Some(s.(toServer := s.toServer[1..], server := SProtocolError))
        else Some(ServerAdvances(events, s.(toServer := s.toServer[1..])))
      else if !IsPacket(events, s.serverEvents) && s.serverLastIsPacket then
        Some(ServerAdvances(events, s.(toClient := s.toClient + [PacketsDone(true, s.serverEvents)])))
      else Some(ServerAdvances(events, s))
    case SRun =>
      if !s.serverLastIsPacket then Some(s.(server := SNextEvent))
      else (match result
            case STATUS_OK => Some(s.(server := SNextEvent))
            case STATUS_WARN => Some(s.(server := SNextEvent, toClient := s.toClient + [PacketsWarn]))
            case STATUS_ERR =>
              Some(s.(server := SFailed, toClient := s.toClient + [PacketsDone(false, s.serverEvents)])))
    case _ => None
  }

  function Step(events: seq<EventType>, s: State, a: Action): Option<State> {
    match a
    case Client => ClientStep(events, s)
    case Server(result) => ServerStep(events, s, result)
  }

  function Run(events: seq<EventType>, actions: seq<Action>): Option<State> {
    if actions == [] then Some(Init())
    else
      var before := Run(events, actions[..|actions| - 1]);
      if before.None? then None else Step(events, before.value, actions[|actions| - 1])
  }

  // ----- Phases

  /**
    The number of boundaries between stretches of packet events and stretches of other events among
    the first k events, counting one that starts a script and one that ends it. It is odd inside a
    stretch of packet events.
   */
  function Phase(events: seq<EventType>, k: nat): nat {
    if k == 0 then 0
    else Phase(events, k - 1) + if IsPacket(events, k - 1) != IsPacket(events, k - 2) then 1 else 0
  }

  lemma {:induction false} PhaseParity(events: seq<EventType>, k: nat)
    ensures Phase(events, k) % 2 == if IsPacket(events, k - 1) then 1 else 0
  {
    if k > 0 {
      PhaseParity(events, k - 1);
    }
  }

  lemma {:induction false} PhaseMonotone(events: seq<EventType>, j: nat, k: nat)
    requires j <= k
    ensures Phase(events, j) <= Phase(events, k)
    decreases k - j
  {
    if j < k {
      PhaseMonotone(events, j, k - 1);
    }
  }

  /** k is the boundary at which the phase turns from p to p + 1. */
  predicate Boundary(events: seq<EventType>, k: nat, p: nat) {
    Phase(events, k) == p && Phase(events, k + 1) == p + 1
  }

  lemma BoundaryUnique(events: seq<EventType>, j: nat, k: nat, p: nat)
    requires Boundary(events, j, p) && Boundary(events, k, p)
    ensures j == k
  {
    if j < k {
      PhaseMonotone(events, j + 1, k);
    } else if k < j {
      PhaseMonotone(events, k + 1, j);
    }
  }

  /** How many calls of next_event a side has completed: one more than its event count once it has finished. */
  function ClientPassed(s: State): nat {
    if s.client.CFinished? then s.clientEvents + 1 else s.clientEvents
  }

  function ServerPassed(s: State): nat {
    if s.server.SFinished? then s.serverEvents + 1 else s.serverEvents
  }

  function ClientPhase(events: seq<EventType>, s: State): nat { Phase(events, ClientPassed(s)) }

  function ServerPhase(events: seq<EventType>, s: State): nat { Phase(events, ServerPassed(s)) }

  // ----- The invariant

  predicate LocalInv(events: seq<EventType>, s: State) {
    && s.clientEvents <= |events| && s.serverEvents <= |events|
    && (s.client.CFinished? ==> s.clientEvents == |events|)
    && (s.server.SFinished? ==> s.serverEvents == |events|)
    && (s.clientLastIsPacket <==> IsPacket(events, s.clientEvents - 1))
    && (s.serverLastIsPacket <==> IsPacket(events, s.serverEvents - 1))
    && (s.server.SRun? ==> s.serverEvents > 0)
    && !s.client.CProtocolError? && !s.server.SProtocolError?
    && (s.client.CDied? ==> s.server.SFailed?)
  }

  predicate AllWarn(ms: seq<ToClient>) {
    forall i :: 0 <= i < |ms| ==> ms[i].PacketsWarn?
  }

  /** Warnings, then the report that ends the stretch. */
  predicate Report(ms: seq<ToClient>, ok: bool) {
    && ms != [] && AllWarn(ms[..|ms| - 1])
    && ms[|ms| - 1].PacketsDone? && ms[|ms| - 1].ok == ok
  }

  /** What is in the channels depends only on which side is a phase ahead, and on whether a packet has failed. */
  predicate ChannelInv(events: seq<EventType>, s: State) {
    var c, v := ClientPhase(events, s), ServerPhase(events, s);
    if s.client.CDied? then true
    else if s.server.SFailed? then
      c == v && c % 2 == 1 && s.toServer == [] && Report(s.toClient, false)
    else if c == v then
      s.toServer == [] && AllWarn(s.toClient) && (c % 2 == 0 ==> s.toClient == [])
    else if c == v + 1 then
      && v % 2 == 0 && s.toClient == []
      && |s.toServer| == 1 && Boundary(events, s.toServer[0].numEvents, v)
    else
      && v == c + 1 && c % 2 == 1 && s.toServer == []
      && Report(s.toClient, true) && Boundary(events, s.toClient[|s.toClient| - 1].numEvents, c)
  }

  predicate Inv(events: seq<EventType>, s: State) {
    LocalInv(events, s) && ChannelInv(events, s)
  }

  lemma ClientReceiveKeepsInv(events: seq<EventType>, s: State)
    requires Inv(events, s) && ClientReceives(events, s).Some?
    requires s.client.CNextEvent? && !IsPacket(events, s.clientEvents) && s.clientLastIsPacket
    ensures Inv(events, ClientReceives(events, s).value)
  {
    var n, p := s.clientEvents, Phase(events, s.clientEvents);
    PhaseParity(events, n);
    assert Boundary(events, n, p);
    var m := s.toClient[0];
    FirstMessage(s.toClient, true);
    FirstMessage(s.toClient, false);
    if m.PacketsDone? && m.ok {
      assert |s.toClient| == 1 && Boundary(events, m.numEvents, p);
      BoundaryUnique(events, n, m.numEvents, p);
    }
  }

  /** Behind a warning there is still what was promised; a report in front is the last message. */
  lemma FirstMessage(ms: seq<ToClient>, ok: bool)
    requires ms != []
    ensures AllWarn(ms) ==> ms[0].PacketsWarn? && AllWarn(ms[1..])
    ensures Report(ms, ok) && ms[0].PacketsWarn? ==> Report(ms[1..], ok) && ms[1..][|ms| - 2] == ms[|ms| - 1]
    ensures Report(ms, ok) && ms[0].PacketsDone? ==> |ms| == 1 && ms[0].ok == ok
  {
    if Report(ms, ok) && |ms| > 1 {
      assert ms[0] == ms[..|ms| - 1][0];
      assert ms[1..][..|ms| - 2] == ms[..|ms| - 1][1..];
    }
  }

  lemma ClientKeepsInv(events: seq<EventType>, s: State)
    requires Inv(events, s) && ClientStep(events, s).Some?
    ensures Inv(events, ClientStep(events, s).value)
  {
    if s.client.CNextEvent? && !IsPacket(events, s.clientEvents) && s.clientLastIsPacket {
      ClientReceiveKeepsInv(events, s);
    } else if s.client.CNextEvent? {
      ClientAdvanceKeepsInv(events, s);
    }
  }

  lemma ClientAdvanceKeepsInv(events: seq<EventType>, s: State)
    requires Inv(events, s) && s.client.CNextEvent?
    requires IsPacket(events, s.clientEvents) || !s.clientLastIsPacket
    ensures ClientStep(events, s).Some? && Inv(events, ClientStep(events, s).value)
  {
    PhaseParity(events, s.clientEvents);
  }

  lemma ServerReceiveKeepsInv(events: seq<EventType>, s: State, result: PacketResult)
    requires Inv(events, s) && ServerStep(events, s, result).Some?
    requires s.server.SNextEvent? && IsPacket(events, s.serverEvents) && !s.serverLastIsPacket
    ensures Inv(events, ServerStep(events, s, result).value)
  {
    var n, p := s.serverEvents, Phase(events, s.serverEvents);
    PhaseParity(events, n);
    assert Boundary(events, n, p) && Boundary(events, s.toServer[0].numEvents, p);
    BoundaryUnique(events, n, s.toServer[0].numEvents, p);
  }

  lemma ServerReportKeepsInv(events: seq<EventType>, s: State, result: PacketResult)
    requires Inv(events, s) && ServerStep(events, s, result).Some?
    requires s.server.SNextEvent? && !IsPacket(events, s.serverEvents) && s.serverLastIsPacket
    ensures Inv(events, ServerStep(events, s, result).value)
  {
    PhaseParity(events, s.serverEvents);
    ReportOf(s.toClient, PacketsDone(true, s.serverEvents));
  }

  lemma ServerRunKeepsInv(events: seq<EventType>, s: State, result: PacketResult)
    requires Inv(events, s) && ServerStep(events, s, result).Some? && s.server.SRun?
    ensures Inv(events, ServerStep(events, s, result).value)
  {
    if s.serverLastIsPacket && result.STATUS_ERR? {
      ServerFailureKeepsInv(events, s);
    } else {
      PhaseParity(events, s.serverEvents);
      WarnedOnceMore(s.toClient);
    }
  }

  lemma ServerFailureKeepsInv(events: seq<EventType>, s: State)
    requires Inv(events, s) && s.server.SRun? && s.serverLastIsPacket
    ensures ServerStep(events, s, STATUS_ERR).Some? && Inv(events, ServerStep(events, s, STATUS_ERR).value)
  {
    PhaseParity(events, s.serverEvents);
    ReportOf(s.toClient, PacketsDone(false, s.serverEvents));
  }

  lemma WarnedOnceMore(ms: seq<ToClient>)
    ensures AllWarn(ms) ==> AllWarn(ms + [PacketsWarn])
  {
  }

  lemma ReportOf(ms: seq<ToClient>, m: ToClient)
    requires m.PacketsDone?
    ensures AllWarn(ms) ==> Report(ms + [m], m.ok)
  {
    assert (ms + [m])[..|ms|] == ms;
  }

  lemma ServerKeepsInv(events: seq<EventType>, s: State, result: PacketResult)
    requires Inv(events, s) && ServerStep(events, s, result).Some?
    ensures Inv(events, ServerStep(events, s, result).value)
  {
    if s.server.SNextEvent? && IsPacket(events, s.serverEvents) && !s.serverLastIsPacket {
      ServerReceiveKeepsInv(events, s, result);
    } else if s.server.SNextEvent? && !IsPacket(events, s.serverEvents) && s.serverLastIsPacket {
      ServerReportKeepsInv(events, s, result);
    } else if s.server.SRun? {
      ServerRunKeepsInv(events, s, result);
    }
  }

  lemma {:induction false} RunInv(events: seq<EventType>, actions: seq<Action>)
    requires Run(events, actions).Some?
    ensures Inv(events, Run(events, actions).value)
    decreases |actions|
  {
    if actions != [] {
      var before, a := actions[..|actions| - 1], actions[|actions| - 1];
      RunInv(events, before);
      match a {
        case Client => ClientKeepsInv(events, Run(events, before).value);
        case Server(result) => ServerKeepsInv(events, Run(events, before).value, result);
      }
    }
  }

  // ----- What the invariant gives, for every script and every interleaving

  /** Neither side ever sees a wrong event count or an unexpected message; the client dies only of a failed packet. */
  lemma {:induction false} CountsAgree(events: seq<EventType>, actions: seq<Action>)
    requires Run(events, actions).Some?
    ensures var s := Run(events, actions).value;
            !s.client.CProtocolError? && !s.server.SProtocolError? && (s.client.CDied? ==> s.server.SFailed?)
  {
    RunInv(events, actions);
  }

  /** The client has dispatched event k. */
  predicate ClientDone(s: State, k: nat) {
    k + 1 < s.clientEvents || (k + 1 == s.clientEvents && !s.client.CDispatch?)
  }

  /** The server has finished event k. */
  predicate ServerDone(s: State, k: nat) {
    k + 1 < s.serverEvents || (k + 1 == s.serverEvents && !s.server.SRun?)
  }

  lemma {:induction false} Later(events: seq<EventType>, j: nat, k: nat)
    requires Phase(events, j) < Phase(events, k)
    ensures j < k
  {
    if k <= j {
      PhaseMonotone(events, k, j);
    }
  }

  /** A server inside a stretch of packet events is at the phase that the client has reached, or behind it. */
  lemma {:induction false} ServerPhaseReached(events: seq<EventType>, s: State)
    requires Inv(events, s) && s.server.SRun? && s.serverLastIsPacket
    ensures ServerPassed(s) == s.serverEvents && Phase(events, s.serverEvents) % 2 == 1
    ensures s.client.CDied? || ClientPhase(events, s) >= Phase(events, s.serverEvents)
  {
    PhaseParity(events, s.serverEvents);
  }

  /** When the server runs a packet event, the client has dispatched every earlier event of its own. */
  lemma {:induction false} ServerWaitsForClient(events: seq<EventType>, actions: seq<Action>, k: nat)
    requires Run(events, actions).Some?
    requires var s := Run(events, actions).value;
             s.server.SRun? && s.serverLastIsPacket && k + 1 < s.serverEvents && !IsPacket(events, k)
    ensures ClientDone(Run(events, actions).value, k)
  {
    RunInv(events, actions);
    ServerRunsBehind(events, Run(events, actions).value, k);
  }

  lemma ServerRunsBehind(events: seq<EventType>, s: State, k: nat)
    requires Inv(events, s) && s.server.SRun? && s.serverLastIsPacket
    requires k + 1 < s.serverEvents && !IsPacket(events, k)
    ensures ClientDone(s, k)
  {
    ServerPhaseReached(events, s);
    BeforePacket(events, k + 1, s.serverEvents);
    if !s.client.CDied? {
      Later(events, k + 1, ClientPassed(s));
    }
  }

  /** The phase of an event of the client's own ends before any later packet event. */
  lemma {:induction false} BeforePacket(events: seq<EventType>, j: nat, k: nat)
    requires 0 < j <= k && !IsPacket(events, j - 1) && IsPacket(events, k - 1)
    ensures Phase(events, j) < Phase(events, k)
  {
    PhaseParity(events, j);
    PhaseParity(events, k);
    PhaseMonotone(events, j, k);
  }

  /** While the client is at an event of its own, both sides are in the same phase. */
  lemma {:induction false} SamePhase(events: seq<EventType>, s: State)
    requires Inv(events, s) && s.client.CDispatch? && !s.clientLastIsPacket
    ensures ClientPassed(s) == s.clientEvents && ServerPhase(events, s) == Phase(events, s.clientEvents)
    ensures Phase(events, s.clientEvents) % 2 == 0
  {
    PhaseParity(events, s.clientEvents);
  }

  /** When the client dispatches an event of its own, the server has finished every earlier packet event. */
  lemma {:induction false} ClientWaitsForServer(events: seq<EventType>, actions: seq<Action>, k: nat)
    requires Run(events, actions).Some?
    requires var s := Run(events, actions).value;
             s.client.CDispatch? && !s.clientLastIsPacket && k + 1 < s.clientEvents && IsPacket(events, k)
    ensures ServerDone(Run(events, actions).value, k)
  {
    RunInv(events, actions);
    ClientRunsBehind(events, Run(events, actions).value, k);
  }

  lemma ClientRunsBehind(events: seq<EventType>, s: State, k: nat)
    requires Inv(events, s) && s.client.CDispatch? && !s.clientLastIsPacket
    requires k + 1 < s.clientEvents && IsPacket(events, k)
    ensures ServerDone(s, k)
  {
    SamePhase(events, s);
    PhaseParity(events, k + 1);
    PhaseMonotone(events, k + 1, s.clientEvents);
    Later(events, k + 1, ServerPassed(s));
  }

  /** Both sides have stopped: together at the end of the script, or because a packet failed. */
  predicate Stopped(s: State) {
    (s.client.CFinished? && s.server.SFinished?) || (s.client.CDied? && s.server.SFailed?)
  }

  /** Neither side gets stuck: one of them can step until both have stopped. */
  lemma {:induction false} NeverStuck(events: seq<EventType>, actions: seq<Action>)
    requires Run(events, actions).Some?
    ensures var s := Run(events, actions).value;
            Stopped(s) || Step(events, s, Client).Some? || Step(events, s, Server(STATUS_OK)).Some?
  {
    RunInv(events, actions);
    CanStep(events, Run(events, actions).value);
  }

  lemma CanStep(events: seq<EventType>, s: State)
    requires Inv(events, s)
    ensures Stopped(s) || Step(events, s, Client).Some? || Step(events, s, Server(STATUS_OK)).Some?
  {
    var end := |events| + 1;
    PhaseParity(events, end);
    PhaseParity(events, s.clientEvents);
    PhaseParity(events, s.serverEvents);
    if s.clientEvents < end {
      PhaseMonotone(events, s.clientEvents + 1, end);
    }
    if s.serverEvents < end {
      PhaseMonotone(events, s.serverEvents + 1, end);
    }
  }

  /** A script that ends leaves both channels empty. */
  lemma {:induction false} EmptyAtEnd(events: seq<EventType>, actions: seq<Action>)
    requires Run(events, actions).Some?
    requires Run(events, actions).value.client.CFinished? && Run(events, actions).value.server.SFinished?
    ensures Run(events, actions).value.toServer == [] && Run(events, actions).value.toClient == []
  {
    RunInv(events, actions);
    PhaseParity(events, |events| + 1);
  }

  /** What is left to do: every step of either side makes it less. */
  function Remaining(events: seq<EventType>, s: State): int {
    2 * (|events| + 1 - ClientPassed(s)) + (if s.client.CDispatch? then 1 else 0)
    + 4 * (|events| + 1 - ServerPassed(s)) + (if s.server.SRun? then 2 else 0)
    + |s.toClient|
  }

  lemma ClientShrinks(events: seq<EventType>, s: State)
    requires LocalInv(events, s) && ClientStep(events, s).Some? && LocalInv(events, ClientStep(events, s).value)
    ensures Remaining(events, ClientStep(events, s).value) < Remaining(events, s)
  {
  }

  lemma ServerShrinks(events: seq<EventType>, s: State, result: PacketResult)
    requires LocalInv(events, s) && ServerStep(events, s, result).Some?
    requires LocalInv(events, ServerStep(events, s, result).value)
    ensures Remaining(events, ServerStep(events, s, result).value) < Remaining(events, s)
  {
  }

  lemma StepShrinks(events: seq<EventType>, s: State, a: Action)
    requires LocalInv(events, s) && Step(events, s, a).Some? && LocalInv(events, Step(events, s, a).value)
    ensures Remaining(events, Step(events, s, a).value) < Remaining(events, s)
  {
    match a {
      case Client => ClientShrinks(events, s);
      case Server(result) => ServerShrinks(events, s, result);
    }
  }

  /** Every run is finite, so with NeverStuck every run that is carried on ends with both sides stopped. */
  lemma {:induction false} RunsAreBounded(events: seq<EventType>, actions: seq<Action>)
    requires Run(events, actions).Some?
    ensures |actions| + Remaining(events, Run(events, actions).value) <= 6 * (|events| + 1)
    ensures Remaining(events, Run(events, actions).value) >= 0
    decreases |actions|
  {
    RunInv(events, actions);
    if actions != [] {
      var before, a := actions[..|actions| - 1], actions[|actions| - 1];
      RunInv(events, before);
      RunsAreBounded(events, before);
      StepShrinks(events, Run(events, before).value, a);
    }
  }

  // ----- Warnings and failures

  function Warnings(ms: seq<ToClient>): nat {
    if ms == [] then 0 else Warnings(ms[..|ms| - 1]) + if ms[|ms| - 1].PacketsWarn? then 1 else 0
  }

  /** The action makes the server run a packet event that ends with a warning. */
  predicate Warns(s: State, a: Action) {
    a.Server? && a.result.STATUS_WARN? && s.server.SRun? && s.serverLastIsPacket
  }

  /** The action makes the client read and print a warning. */
  predicate Prints(events: seq<EventType>, s: State, a: Action) {
    && a.Client? && s.client.CNextEvent? && !IsPacket(events, s.clientEvents) && s.clientLastIsPacket
    && s.toClient != [] && s.toClient[0].PacketsWarn?
  }

  /** How many warnings there have been, and how many of them have been printed. */
  function Warned(events: seq<EventType>, actions: seq<Action>): nat
    requires Run(events, actions).Some?
  {
    if actions == [] then 0
    else
      var before, a := actions[..|actions| - 1], actions[|actions| - 1];
      Warned(events, before) + if Warns(Run(events, before).value, a) then 1 else 0
  }

  function Printed(events: seq<EventType>, actions: seq<Action>): nat
    requires Run(events, actions).Some?
  {
    if actions == [] then 0
    else
      var before, a := actions[..|actions| - 1], actions[|actions| - 1];
      Printed(events, before) + if Prints(events, Run(events, before).value, a) then 1 else 0
  }

  lemma {:induction false} WarningsTail(ms: seq<ToClient>)
    requires ms != []
    ensures Warnings(ms) == (if ms[0].PacketsWarn? then 1 else 0) + Warnings(ms[1..])
  {
    if |ms| > 1 {
      WarningsTail(ms[..|ms| - 1]);
      assert ms[..|ms| - 1][1..] == ms[1..][..|ms| - 2];
    }
  }

  lemma {:induction false} WarningsAppend(ms: seq<ToClient>, m: ToClient)
    ensures Warnings(ms + [m]) == Warnings(ms) + if m.PacketsWarn? then 1 else 0
  {
    assert (ms + [m])[..|ms|] == ms;
  }

  lemma ClientMovesWarning(events: seq<EventType>, s: State)
    requires ClientStep(events, s).Some?
    ensures Warnings(ClientStep(events, s).value.toClient) + (if Prints(events, s, Client) then 1 else 0)
            == Warnings(s.toClient)
  {
    if s.toClient != [] {
      WarningsTail(s.toClient);
    }
  }

  lemma ServerMovesWarning(events: seq<EventType>, s: State, result: PacketResult)
    requires ServerStep(events, s, result).Some?
    ensures Warnings(ServerStep(events, s, result).value.toClient)
            == Warnings(s.toClient) + if Warns(s, Server(result)) then 1 else 0
  {
    WarningsAppend(s.toClient, PacketsWarn);
    WarningsAppend(s.toClient, PacketsDone(true, s.serverEvents));
    WarningsAppend(s.toClient, PacketsDone(false, s.serverEvents));
  }

  lemma StepMovesWarning(events: seq<EventType>, s: State, a: Action)
    requires Step(events, s, a).Some?
    ensures Warnings(Step(events, s, a).value.toClient) + (if Prints(events, s, a) then 1 else 0)
            == Warnings(s.toClient) + if Warns(s, a) then 1 else 0
  {
    match a {
      case Client => ClientMovesWarning(events, s);
      case Server(result) => ServerMovesWarning(events, s, result);
    }
  }

  /** No warning is lost or made up: those that the client has not printed yet are on their way to it. */
  lemma {:induction false} WarningsConserved(events: seq<EventType>, actions: seq<Action>)
    requires Run(events, actions).Some?
    ensures Warned(events, actions) == Printed(events, actions) + Warnings(Run(events, actions).value.toClient)
    decreases |actions|
  {
    if actions != [] {
      var before, a := actions[..|actions| - 1], actions[|actions| - 1];
      WarningsConserved(events, before);
      StepMovesWarning(events, Run(events, before).value, a);
    }
  }

  /** At the end of the script all of them have been printed. */
  lemma {:induction false} AllPrinted(events: seq<EventType>, actions: seq<Action>)
    requires Run(events, actions).Some?
    requires Run(events, actions).value.client.CFinished? && Run(events, actions).value.server.SFinished?
    ensures Warned(events, actions) == Printed(events, actions)
  {
    WarningsConserved(events, actions);
    EmptyAtEnd(events, actions);
  }

  /**
    A failed packet always reaches the client: it cannot finish then, and once it cannot step it has died.
    It dies of nothing else.
   */
  lemma {:induction false} FailureIsReported(events: seq<EventType>, actions: seq<Action>)
    requires Run(events, actions).Some? && Step(events, Run(events, actions).value, Client).None?
    ensures var s := Run(events, actions).value;
            && (s.server.SFailed? ==> s.client.CDied?)
            && (s.client.CDied? ==> s.server.SFailed?)
            && (s.client.CFinished? ==> !s.server.SFailed?)
  {
    RunInv(events, actions);
    CanStep(events, Run(events, actions).value);
  }

  // ----- When the server waits for all earlier events

  /** The server is running event k. */
  predicate ServerAt(s: State, k: nat) {
    s.server.SRun? && s.serverEvents == k + 1
  }

  /** Whenever the server runs event k, the client has dispatched every earlier event. */
  ghost predicate ServerWaits(events: seq<EventType>, k: nat) {
    forall actions: seq<Action>, j: nat ::
      j < k && Run(events, actions).Some? && ServerAt(Run(events, actions).value, k)
      ==> ClientDone(Run(events, actions).value, j)
  }

  /**
    The server runs a packet event only after the client has dispatched all earlier events, in every
    run, if and only if the event before it is not a packet event. Inside a stretch of packet events
    the server does not wait; earlier events of the client's own are always dispatched.
   */
  lemma WaitsIff(events: seq<EventType>, k: nat)
    requires IsPacket(events, k)
    ensures ServerWaits(events, k) <==> !IsPacket(events, k - 1)
  {
    if IsPacket(events, k - 1) {
      var f := StretchStart(events, k);
      var actions := RunAhead(events, f, k, []);
      assert !ClientDone(Run(events, actions).value, f);
    } else {
      forall actions: seq<Action>, j: nat
        | j < k && Run(events, actions).Some? && ServerAt(Run(events, actions).value, k)
        ensures ClientDone(Run(events, actions).value, j)
      {
        AllDispatched(events, actions, j, k);
      }
    }
  }

  lemma {:induction false} AllDispatched(events: seq<EventType>, actions: seq<Action>, j: nat, k: nat)
    requires j < k && IsPacket(events, k) && !IsPacket(events, k - 1)
    requires Run(events, actions).Some? && ServerAt(Run(events, actions).value, k)
    ensures ClientDone(Run(events, actions).value, j)
  {
    RunInv(events, actions);
    ServerWaitsForClient(events, actions, k - 1);
  }

  /** The first event of the stretch of packet events around k. */
  lemma {:induction false} StretchStart(events: seq<EventType>, k: nat) returns (f: nat)
    requires IsPacket(events, k) && IsPacket(events, k - 1)
    ensures SameStretch(events, f, k) && !IsPacket(events, f - 1)
  {
    if IsPacket(events, k - 2) {
      f := StretchStart(events, k - 1);
    } else {
      f := k - 1;
    }
  }

  /** On its way there: the client has at most begun to dispatch event f, and nothing has failed. */
  predicate Holding(s: State, f: nat, k: nat) {
    && (s.clientEvents <= f || (s.clientEvents == f + 1 && s.client.CDispatch?))
    && (ServerAt(s, k) || (s.serverEvents <= k && (s.server.SNextEvent? || s.server.SRun?)))
  }

  /** The schedule that shows it: the client moves up to event f and no further; otherwise the server moves. */
  function Ahead(events: seq<EventType>, s: State, f: nat): Action {
    if s.clientEvents <= f && ClientStep(events, s).Some? then Client else Server(STATUS_OK)
  }

  /** f and k are packet events of one stretch. */
  predicate SameStretch(events: seq<EventType>, f: nat, k: nat) {
    f < k && IsPacket(events, f) && IsPacket(events, k) && Phase(events, f + 1) == Phase(events, k + 1)
  }

  lemma ClientGoesAhead(events: seq<EventType>, s: State, f: nat, k: nat)
    requires Inv(events, s) && Holding(s, f, k) && SameStretch(events, f, k)
    requires s.clientEvents <= f && ClientStep(events, s).Some?
    ensures Holding(ClientStep(events, s).value, f, k)
  {
    ClientKeepsInv(events, s);
  }

  /** A client that is held at event f does not keep the server from event k. */
  lemma ServerNotHeldUp(events: seq<EventType>, s: State, f: nat, k: nat)
    requires Inv(events, s) && Holding(s, f, k) && SameStretch(events, f, k) && !ServerAt(s, k)
    requires s.clientEvents == f + 1
    ensures ServerStep(events, s, STATUS_OK).Some?
  {
    PhaseParity(events, f + 1);
    PhaseParity(events, s.serverEvents);
    PhaseMonotone(events, s.serverEvents, k + 1);
  }

  lemma ServerGoesAhead(events: seq<EventType>, s: State, f: nat, k: nat)
    requires Inv(events, s) && Holding(s, f, k) && SameStretch(events, f, k) && !ServerAt(s, k)
    requires s.clientEvents <= f ==> ClientStep(events, s).None?
    ensures ServerStep(events, s, STATUS_OK).Some? && Holding(ServerStep(events, s, STATUS_OK).value, f, k)
  {
    if s.clientEvents <= f {
      CanStep(events, s);
    } else {
      ServerNotHeldUp(events, s, f, k);
    }
    ServerKeepsInv(events, s, STATUS_OK);
  }

  lemma {:induction false} RunAhead(events: seq<EventType>, f: nat, k: nat, actions: seq<Action>)
    returns (all: seq<Action>)
    requires SameStretch(events, f, k)
    requires Run(events, actions).Some? && Holding(Run(events, actions).value, f, k)
    ensures Run(events, all).Some? && ServerAt(Run(events, all).value, k)
    ensures !ClientDone(Run(events, all).value, f)
    decreases 6 * (|events| + 1) - |actions|
  {
    RunInv(events, actions);
    RunsAreBounded(events, actions);
    var s := Run(events, actions).value;
    all := actions;
    if !ServerAt(s, k) {
      var a := Ahead(events, s, f);
      if a.Client? {
        ClientGoesAhead(events, s, f, k);
      } else {
        ServerGoesAhead(events, s, f, k);
      }
      assert (actions + [a])[..|actions|] == actions;
      RunsAreBounded(events, actions + [a]);
      all := RunAhead(events, f, k, actions + [a]);
    }
  }
}
