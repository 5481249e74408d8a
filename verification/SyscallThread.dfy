/** The main thread and the system call thread (run_system_call.c) under every interleaving. */
module SyscallThread {
  // One mutex, three condition variables, one shared state word. Every statement that touches shared
  // state is one step; between any two steps the other thread may run. Condition waits may wake
  // spuriously, signals without a waiter are lost, and timed waits may time out at any moment.

  import opened Wrappers

  /** What an event of the script makes the main thread do. */
  datatype EventKind = BlockingSyscall | NonBlockingSyscall | OtherEvent

  datatype Mutex = Free | ByMain | ByThread

  /** enum syscall_state_t. */
  datatype SyscallState = IDLE | ENQUEUED | RUNNING | DONE | EXITING

  /** What await_idle_thread was called for. */
  datatype Purpose = ToInvoke | ToEnqueue | ToExit

  datatype MainPc =
    | MNextEvent                                  // run_script: about to call get_next_event
    | MBusy                                       // running an event itself, wait_for_event included
    | MBusyUnlocked                               // asleep in wait_for_event
    | MAwait(why: Purpose)                        // await_idle_thread: about to test the state
    | MWaitIdle(why: Purpose)                     // in pthread_cond_timedwait on idle
    | MWokenIdle(why: Purpose, timedOut: bool)    // ... woken, about to reacquire the mutex
    | MSignalEnqueued                             // state is ENQUEUED, about to signal enqueued
    | MAwaitDequeued                              // about to test the state
    | MWaitDequeued                               // in pthread_cond_wait on dequeued
    | MWokenDequeued
    | MSpin                                       // about to unlock and yield
    | MSpinUnlocked                               // yielding, then asking whether the thread sleeps
    | MSpinRelock(sleeping: bool)
    | MSignalExit                                 // state is EXITING, about to signal enqueued
    | MExitUnlock
    | MJoin
    | MRelock
    | MEnd

  datatype ThreadPc =
    | TStart                                      // about to lock for the first time
    | TTop                                        // about to switch on the state
    | TWaitEnqueued                               // in pthread_cond_wait on enqueued
    | TWokenEnqueued
    | TInvoke                                     // in invoke_system_call, before begin_syscall
    | TInvokeUnlocked                             // asleep in wait_for_event
    | TBegun                                      // begin_syscall: state is RUNNING, about to unlock
    | TSignalDequeued                             // unlocked, about to signal dequeued
    | TCall                                       // in the system call itself
    | TReturned                                   // end_syscall: about to lock
    | TFinish                                     // state is DONE, back in system_call_thread
    | TSignalIdle                                 // state is IDLE, about to signal idle
    | TUnlock                                     // state was EXITING
    | TExited
    | TAssertFailed                               // one of the thread's assertions does not hold

  /**
    cur is the index of state->event, -1 before the first; event is the thread's own copy of it.
    enqueued and ran record the history: the events that main enqueued and those the thread started.
   */
  datatype State = State(mutex: Mutex, sys: SyscallState, cur: int, main: MainPc, thread: ThreadPc, event: int,
                         dead: bool, enqueued: seq<int>, ran: seq<int>)

  datatype Action =
    | Main(choice: bool)
    | Thread(choice: bool)
    | MainDies
    | ThreadDies
    | SpuriousMain
    | SpuriousThread
    | TimeoutMain

  function Init(): State {
    State(ByMain, IDLE, -1, MNextEvent, TStart, -1, false, [], [])
  }

  // ----- The main thread

  /** pthread_cond_signal(&enqueued): wakes the system call thread if it is waiting. */
  function SignalEnqueued(s: State): State {
    if s.thread.TWaitEnqueued? then s.(thread := TWokenEnqueued) else s
  }

  function MainStep(script: seq<EventKind>, s: State, choice: bool): Option<State> {
    match s.main
    case MNextEvent =>
      var n := if s.cur < |script| then s.cur + 1 else s.cur;
      Some(s.(cur := n,
              main := if n < 0 || n >= |script| then MAwait(ToExit)
                      else match script[n]
                           case BlockingSyscall => MAwait(ToEnqueue)
                           case NonBlockingSyscall => MAwait(ToInvoke)
                           case OtherEvent => MBusy))
    case MBusy =>
      if choice then Some(s.(mutex := Free, main := MBusyUnlocked)) else Some(s.(main := MNextEvent))
    case MBusyUnlocked =>
      if s.mutex.Free? then Some(s.(mutex := ByMain, main := MBusy)) else None
    case MAwait(why) =>
      if s.sys != IDLE then Some(s.(mutex := Free, main := MWaitIdle(why)))
      else (match why
            case ToInvoke => Some(s.(main := MBusy))
            case ToEnqueue => Some(s.(sys := ENQUEUED, main := MSignalEnqueued, enqueued := s.enqueued + [s.cur]))
            case ToExit => Some(s.(sys := EXITING, main := MSignalExit)))
    case MWaitIdle(_) => None
    case MWokenIdle(why, timedOut) =>
      if !s.mutex.Free? then None
      else if !timedOut then Some(s.(mutex := ByMain, main := MAwait(why)))
      else if why.ToInvoke? then Some(s.(mutex := ByMain, main := MBusy))
      else Some(s.(mutex := ByMain, dead := true))
    case MSignalEnqueued => Some(SignalEnqueued(s).(main := MAwaitDequeued))
    case MAwaitDequeued =>
      if s.sys == ENQUEUED then Some(s.(mutex := Free, main := MWaitDequeued)) else Some(s.(main := MSpin))
    case MWaitDequeued => None
    case MWokenDequeued =>
      if s.mutex.Free? then Some(s.(mutex := ByMain, main := MAwaitDequeued)) else None
    case MSpin => Some(s.(mutex := Free, main := MSpinUnlocked))
    case MSpinUnlocked => Some(s.(main := MSpinRelock(choice)))
    case MSpinRelock(sleeping) =>
      if !s.mutex.Free? then None
      else Some(s.(mutex := ByMain, main := if sleeping || s.sys == IDLE then MNextEvent else MSpin))
    case MSignalExit => Some(SignalEnqueued(s).(main := MExitUnlock))
    case MExitUnlock => Some(s.(mutex := Free, main := MJoin))
    case MJoin => if s.thread.TExited? then Some(s.(main := MRelock)) else None
    case MRelock => if s.mutex.Free? then Some(s.(mutex := ByMain, main := MEnd)) else None
    case MEnd => None
  }

  // ----- The system call thread

  function ThreadStep(s: State, choice: bool): Option<State> {
    match s.thread
    case TStart => if s.mutex.Free? then Some(s.(mutex := ByThread, thread := TTop)) else None
    case TTop =>
      (match s.sys
       case IDLE => Some(s.(mutex := Free, thread := TWaitEnqueued))
       case RUNNING => Some(s.(thread := TAssertFailed))
       case DONE => Some(s.(thread := TAssertFailed))
       case ENQUEUED => Some(s.(thread := TInvoke, event := s.cur))
       case EXITING => Some(s.(thread := TUnlock)))
    case TWaitEnqueued => None
    case TWokenEnqueued => if s.mutex.Free? then Some(s.(mutex := ByThread, thread := TTop)) else None
    case TInvoke =>
      if choice then Some(s.(mutex := Free, thread := TInvokeUnlocked))
      else if s.sys != ENQUEUED then Some(s.(thread := TAssertFailed))
      else Some(s.(sys := RUNNING, thread := TBegun, ran := s.ran + [s.event]))
    case TInvokeUnlocked => if s.mutex.Free? then Some(s.(mutex := ByThread, thread := TInvoke)) else None
    case TBegun => Some(s.(mutex := Free, thread := TSignalDequeued))
    case TSignalDequeued =>
      Some(s.(thread := TCall, main := if s.main.MWaitDequeued? then MWokenDequeued else s.main))
    case TCall => Some(s.(thread := TReturned))
    case TReturned =>
      if !s.mutex.Free? then None
      else if s.sys != RUNNING then Some(s.(mutex := ByThread, thread := TAssertFailed))
      else Some(s.(mutex := ByThread, sys := DONE, thread := TFinish))
    case TFinish =>
      if s.sys != DONE then Some(s.(thread := TAssertFailed)) else Some(s.(sys := IDLE, thread := TSignalIdle))
    case TSignalIdle =>
      Some(s.(thread := TTop, main := if s.main.MWaitIdle? then MWokenIdle(s.main.why, false) else s.main))
    case TUnlock => Some(s.(mutex := Free, thread := TExited))
    case TExited => None
    case TAssertFailed => None
  }

  /** One step of the program: of either thread, or of the environment. */
  function Step(script: seq<EventKind>, s: State, a: Action): Option<State> {
    if s.dead then None
    else match a
      case Main(choice) => MainStep(script, s, choice)
      case Thread(choice) => ThreadStep(s, choice)
      case MainDies => if s.main.MBusy? then Some(s.(dead := true)) else None
      case ThreadDies => if s.thread.TInvoke? || s.thread.TFinish? then Some(s.(dead := true)) else None
      case SpuriousMain =>
        if s.main.MWaitIdle? then Some(s.(main := MWokenIdle(s.main.why, false)))
        else if s.main.MWaitDequeued? then Some(s.(main := MWokenDequeued))
        else None
      case SpuriousThread => if s.thread.TWaitEnqueued? then Some(s.(thread := TWokenEnqueued)) else None
      case TimeoutMain => if s.main.MWaitIdle? then Some(s.(main := MWokenIdle(s.main.why, true))) else None
  }

  /** The state after a run, if every action of it was enabled. */
  function Run(script: seq<EventKind>, actions: seq<Action>): Option<State> {
    if actions == [] then Some(Init())
    else
      var before := Run(script, actions[..|actions| - 1]);
      if before.None? then None else Step(script, before.value, actions[|actions| - 1])
  }

  // ----- The invariant

  predicate MainHolds(pc: MainPc) {
    !(pc.MBusyUnlocked? || pc.MWaitIdle? || pc.MWokenIdle? || pc.MWaitDequeued? || pc.MWokenDequeued?
      || pc.MSpinUnlocked? || pc.MSpinRelock? || pc.MJoin? || pc.MRelock?)
  }

  predicate ThreadHolds(pc: ThreadPc) {
    pc.TTop? || pc.TInvoke? || pc.TBegun? || pc.TFinish? || pc.TSignalIdle? || pc.TUnlock?
  }

  /** Mutual exclusion. */
  predicate MutexInv(s: State) {
    && (s.mutex.ByMain? <==> MainHolds(s.main))
    && (s.mutex.ByThread? <==> ThreadHolds(s.thread))
  }

  /** Where the thread is determines which values the state word can have; no assertion has failed. */
  predicate ThreadInv(s: State) {
    match s.thread
    case TInvoke => s.sys == ENQUEUED && s.event == s.cur
    case TInvokeUnlocked => s.sys == ENQUEUED && s.event == s.cur
    case TBegun => s.sys == RUNNING
    case TSignalDequeued => s.sys == RUNNING
    case TCall => s.sys == RUNNING
    case TReturned => s.sys == RUNNING
    case TFinish => s.sys == DONE
    case TSignalIdle => s.sys == IDLE
    case TUnlock => s.sys == EXITING
    case TExited => s.sys == EXITING
    case TAssertFailed => false
    case _ => s.sys == IDLE || s.sys == ENQUEUED || s.sys == EXITING
  }

  predicate Handing(pc: MainPc) {
    pc.MSignalEnqueued? || pc.MAwaitDequeued? || pc.MWaitDequeued? || pc.MWokenDequeued?
  }

  predicate Exiting(pc: MainPc) {
    pc.MSignalExit? || pc.MExitUnlock? || pc.MJoin? || pc.MRelock? || pc.MEnd?
  }

  /** Where main is while a call is being handed over, and while the thread is being told to exit. */
  predicate MainInv(s: State) {
    && (s.sys == ENQUEUED ==> Handing(s.main))
    && (s.main.MSignalEnqueued? ==> s.sys == ENQUEUED)
    && (s.sys == EXITING <==> Exiting(s.main))
    && (s.main.MRelock? || s.main.MEnd? ==> s.thread.TExited?)
  }

  /** No wakeup is lost: whoever waits still has to wait, or is about to be signalled. */
  predicate WakeupInv(s: State) {
    && (s.thread.TWaitEnqueued? ==> s.sys == IDLE || s.main.MSignalEnqueued? || s.main.MSignalExit?)
    && (s.main.MWaitDequeued? ==> s.sys == ENQUEUED || s.thread.TBegun? || s.thread.TSignalDequeued?)
    && (s.main.MWaitIdle? ==> s.sys != IDLE || s.thread.TSignalIdle?)
  }

  /** The indices below n of the script's blocking system calls, in order. */
  function Blocking(script: seq<EventKind>, n: int): seq<int>
    requires n <= |script|
    decreases if n > 0 then n else 0
  {
    if n <= 0 then [] else Blocking(script, n - 1) + if script[n - 1].BlockingSyscall? then [n - 1] else []
  }

  predicate AwaitsToEnqueue(pc: MainPc) {
    (pc.MAwait? || pc.MWaitIdle? || pc.MWokenIdle?) && pc.why.ToEnqueue?
  }

  predicate AwaitsToExit(pc: MainPc) {
    (pc.MAwait? || pc.MWaitIdle? || pc.MWokenIdle?) && pc.why.ToExit?
  }

  /**
    Each blocking call met so far has been enqueued once, in order; all of them have been started but
    the one being handed over.
   */
  predicate HistoryInv(script: seq<EventKind>, s: State) {
    && -1 <= s.cur <= |script|
    && (AwaitsToEnqueue(s.main) || Handing(s.main) ==> 0 <= s.cur < |script| && script[s.cur].BlockingSyscall?)
    && (Exiting(s.main) || AwaitsToExit(s.main) <==> s.cur == |script|)
    && s.enqueued == Blocking(script, if AwaitsToEnqueue(s.main) || s.cur == |script| then s.cur else s.cur + 1)
    && (if s.sys == ENQUEUED then s.enqueued == s.ran + [s.cur] else s.ran == s.enqueued)
  }

  predicate Inv(script: seq<EventKind>, s: State) {
    s.dead || (MutexInv(s) && ThreadInv(s) && MainInv(s) && WakeupInv(s) && HistoryInv(script, s))
  }

  /** The steps of main that read the next event or pass await_idle_thread. */
  predicate MovesOn(pc: MainPc) {
    pc.MNextEvent? || pc.MAwait?
  }

  lemma MainMovesOn(script: seq<EventKind>, s: State, choice: bool)
    requires !s.dead && Inv(script, s) && MovesOn(s.main)
    ensures MainStep(script, s, choice).Some? && HistoryInv(script, MainStep(script, s, choice).value)
  {
  }

  lemma MainKeepsHistory(script: seq<EventKind>, s: State, choice: bool)
    requires !s.dead && Inv(script, s) && MainStep(script, s, choice).Some? && !MovesOn(s.main)
    ensures var s' := MainStep(script, s, choice).value; s'.dead || HistoryInv(script, s')
  {
  }

  lemma MainKeepsLocks(script: seq<EventKind>, s: State, choice: bool)
    requires !s.dead && Inv(script, s) && MainStep(script, s, choice).Some?
    ensures var s' := MainStep(script, s, choice).value; s'.dead || (MutexInv(s') && ThreadInv(s'))
  {
  }

  lemma MainKeepsWakeups(script: seq<EventKind>, s: State, choice: bool)
    requires !s.dead && Inv(script, s) && MainStep(script, s, choice).Some?
    ensures var s' := MainStep(script, s, choice).value; s'.dead || (MainInv(s') && WakeupInv(s'))
  {
  }

  lemma MainKeepsInv(script: seq<EventKind>, s: State, choice: bool)
    requires !s.dead && Inv(script, s) && MainStep(script, s, choice).Some?
    ensures Inv(script, MainStep(script, s, choice).value)
  {
    if MovesOn(s.main) {
      MainMovesOn(script, s, choice);
    } else {
      MainKeepsHistory(script, s, choice);
    }
    MainKeepsLocks(script, s, choice);
    MainKeepsWakeups(script, s, choice);
  }

  lemma ThreadKeepsInv(script: seq<EventKind>, s: State, choice: bool)
    requires !s.dead && Inv(script, s) && ThreadStep(s, choice).Some?
    ensures Inv(script, ThreadStep(s, choice).value)
  {
  }

  lemma StepKeepsInv(script: seq<EventKind>, s: State, a: Action)
    requires Inv(script, s) && Step(script, s, a).Some?
    ensures Inv(script, Step(script, s, a).value)
  {
    match a {
      case Main(choice) => MainKeepsInv(script, s, choice);
      case Thread(choice) => ThreadKeepsInv(script, s, choice);
      case _ =>
    }
  }

  /** The invariant holds after every run, under every interleaving. */
  lemma {:induction false} RunInv(script: seq<EventKind>, actions: seq<Action>)
    requires Run(script, actions).Some?
    ensures Inv(script, Run(script, actions).value)
    decreases |actions|
  {
    if actions == [] {
      assert Blocking(script, 0) == [];
    } else {
      RunInv(script, actions[..|actions| - 1]);
      StepKeepsInv(script, Run(script, actions[..|actions| - 1]).value, actions[|actions| - 1]);
    }
  }

  // ----- What the invariant gives, for every script and every interleaving

  /**
    No assertion of the thread fails, no two threads hold the mutex, and main never finds the state
    DONE while it holds it.
   */
  lemma {:induction false} Safety(script: seq<EventKind>, actions: seq<Action>)
    requires Run(script, actions).Some? && !Run(script, actions).value.dead
    ensures var s := Run(script, actions).value;
            && !s.thread.TAssertFailed?
            && !(MainHolds(s.main) && ThreadHolds(s.thread))
            && (MainHolds(s.main) ==> s.sys != DONE)
  {
    RunInv(script, actions);
  }

  /** A call that the thread is about to make is the very one that main has enqueued and is still at. */
  lemma {:induction false} RunsWhatWasEnqueued(script: seq<EventKind>, actions: seq<Action>)
    requires Run(script, actions).Some? && !Run(script, actions).value.dead
    ensures var s := Run(script, actions).value;
            s.thread.TInvoke? ==> s.event == s.cur && s.enqueued == s.ran + [s.event]
  {
    RunInv(script, actions);
  }

  /** Blocking lists exactly the blocking system calls, each once, in script order. */
  lemma {:induction false} BlockingExact(script: seq<EventKind>, n: nat)
    requires n <= |script|
    ensures forall i :: i in Blocking(script, n) <==> 0 <= i < n && script[i].BlockingSyscall?
    ensures forall j, k :: 0 <= j < k < |Blocking(script, n)| ==> Blocking(script, n)[j] < Blocking(script, n)[k]
    decreases n
  {
    if n > 0 {
      BlockingExact(script, n - 1);
      var b, last := Blocking(script, n - 1), if script[n - 1].BlockingSyscall? then [n - 1] else [];
      assert forall j :: 0 <= j < |b| ==> b[j] in b;
      assert forall i :: i in b + last <==> i in b || i in last;
    }
  }

  /** At any moment the calls started are the script's first blocking calls, each once and in order. */
  lemma {:induction false} ExactlyOnceInOrder(script: seq<EventKind>, actions: seq<Action>)
    requires Run(script, actions).Some? && !Run(script, actions).value.dead
    ensures var s := Run(script, actions).value;
            s.cur <= |script| && RanFirst(script, s.cur, s.ran)
    ensures var s := Run(script, actions).value;
            s.main.MEnd? ==> s.thread.TExited? && s.ran == Blocking(script, |script|)
  {
    RunInv(script, actions);
    RanFirstOf(script, Run(script, actions).value);
  }

  /** The calls started are those before event cur, or those up to and including it. */
  predicate RanFirst(script: seq<EventKind>, cur: int, ran: seq<int>)
    requires cur <= |script|
  {
    ran == Blocking(script, cur) || (cur < |script| && ran == Blocking(script, cur + 1))
  }

  lemma RanFirstOf(script: seq<EventKind>, s: State)
    requires HistoryInv(script, s) && MainInv(s)
    ensures RanFirst(script, s.cur, s.ran)
  {
    if s.sys == ENQUEUED {
      assert Blocking(script, s.cur + 1) == Blocking(script, s.cur) + [s.cur];
      assert s.ran == (s.ran + [s.cur])[..|s.ran|] == Blocking(script, s.cur);
    }
  }

  /**
    No lost wakeup and no deadlock: until main has finished, one of the two threads can take a step
    of its own, without a spurious wakeup or a timeout coming to its aid.
   */
  lemma {:induction false} NeverStuck(script: seq<EventKind>, actions: seq<Action>)
    requires Run(script, actions).Some? && !Run(script, actions).value.dead
    ensures var s := Run(script, actions).value;
            s.main.MEnd? || Step(script, s, Main(false)).Some? || Step(script, s, Thread(false)).Some?
  {
    RunInv(script, actions);
  }

  // ----- Calls that do not block

  /** Main is making the call that it is at, which does not block. */
  predicate Calling(script: seq<EventKind>, s: State) {
    (s.main.MBusy? || s.main.MBusyUnlocked?) && 0 <= s.cur < |script| && script[s.cur].NonBlockingSyscall?
  }

  /** Main has not run into a timeout, and calls only while the system call thread is idle. */
  predicate Timely(script: seq<EventKind>, s: State) {
    && (s.main.MWokenIdle? ==> !s.main.timedOut)
    && (Calling(script, s) ==> s.sys == IDLE)
  }

  lemma StepKeepsTimely(script: seq<EventKind>, s: State, a: Action)
    requires Inv(script, s) && Timely(script, s) && Step(script, s, a).Some? && !a.TimeoutMain?
    ensures Timely(script, Step(script, s, a).value)
  {
  }

  lemma {:induction false} TimelyFrom(script: seq<EventKind>, actions: seq<Action>, j: nat)
    requires j <= |actions| && Run(script, actions).Some?
    requires Run(script, actions[..j]).Some? && Timely(script, Run(script, actions[..j]).value)
    requires forall i :: j <= i < |actions| ==> !actions[i].TimeoutMain?
    ensures Timely(script, Run(script, actions).value)
    decreases |actions|
  {
    if j == |actions| {
      assert actions[..j] == actions;
    } else {
      var before, a := actions[..|actions| - 1], actions[|actions| - 1];
      assert before[..j] == actions[..j] && Run(script, actions) == Step(script, Run(script, before).value, a);
      TimelyFrom(script, before, j);
      RunInv(script, before);
      StepKeepsTimely(script, Run(script, before).value, a);
    }
  }

  /**
    A call that does not block is made alone: unless main has timed out since it was last about to read an
    event, the thread is idle, and all blocking calls before this one have been started and have returned.
   */
  lemma {:induction false} CallsAlone(script: seq<EventKind>, actions: seq<Action>, j: nat)
    requires j <= |actions| && Run(script, actions).Some? && !Run(script, actions).value.dead
    requires Run(script, actions[..j]).Some? && Run(script, actions[..j]).value.main == MNextEvent
    requires forall i :: j <= i < |actions| ==> !actions[i].TimeoutMain?
    ensures var s := Run(script, actions).value;
            Calling(script, s) ==> s.sys == IDLE && s.ran == Blocking(script, s.cur)
  {
    TimelyFrom(script, actions, j);
    RunInv(script, actions);
  }

  /** Before main reads the next event, every blocking call up to the one that it is at has been started. */
  lemma {:induction false} StartedBeforeNext(script: seq<EventKind>, actions: seq<Action>)
    requires Run(script, actions).Some? && !Run(script, actions).value.dead
    requires Run(script, actions).value.main == MNextEvent
    ensures var s := Run(script, actions).value;
            s.cur < |script| && s.sys != ENQUEUED && s.ran == Blocking(script, s.cur + 1)
  {
    RunInv(script, actions);
  }

  /** It yields to the thread until that sleeps in the call, or the call has returned. */
  lemma {:induction false} YieldsUntilBlocked(script: seq<EventKind>, actions: seq<Action>, choice: bool)
    requires Run(script, actions).Some? && Run(script, actions).value.main == MSpinRelock(false)
    requires Run(script, actions + [Main(choice)]).Some?
    ensures var s, s' := Run(script, actions).value, Run(script, actions + [Main(choice)]).value;
            && (s'.main == MNextEvent || s'.main == MSpin)
            && (s'.main == MNextEvent <==> s.sys == IDLE)
            && s.cur < |script| && (s.sys == IDLE ==> s.ran == Blocking(script, s.cur + 1))
  {
    RunInv(script, actions);
    assert (actions + [Main(choice)])[..|actions|] == actions;
  }

  lemma RunOn(script: seq<EventKind>, actions: seq<Action>, s: State, a: Action, t: State) returns (more: seq<Action>)
    requires Run(script, actions) == Some(s) && Step(script, s, a) == Some(t)
    ensures more == actions + [a] && Run(script, more) == Some(t)
  {
    more := actions + [a];
    assert more[..|actions|] == actions;
  }

  /** After a timeout, which the caller of await_idle_thread ignores here, it may overlap a blocking call. */
  lemma TimeoutOverlaps() returns (script: seq<EventKind>, actions: seq<Action>)
    ensures Run(script, actions).Some? && !Run(script, actions).value.dead
    ensures var s := Run(script, actions).value; Calling(script, s) && s.sys == RUNNING && s.thread == TCall
  {
    script := [BlockingSyscall, NonBlockingSyscall];
    actions := HandedOver(script);
    var s := State(ByMain, RUNNING, 0, MSpin, TCall, 0, false, [0], [0]);
    var s1 := s.(mutex := Free, main := MSpinUnlocked);
    actions := RunOn(script, actions, s, Main(true), s1);
    actions := RunOn(script, actions, s1, Main(true), s1.(main := MSpinRelock(true)));
    actions := RunOn(script, actions, s1.(main := MSpinRelock(true)), Main(true), s.(main := MNextEvent));
    actions := RunOn(script, actions, s.(main := MNextEvent), Main(true), s.(cur := 1, main := MAwait(ToInvoke)));
    var s2 := s.(cur := 1, mutex := Free, main := MWaitIdle(ToInvoke));
    actions := RunOn(script, actions, s.(cur := 1, main := MAwait(ToInvoke)), Main(true), s2);
    var s3 := s2.(main := MWokenIdle(ToInvoke, true));
    actions := RunOn(script, actions, s2, TimeoutMain, s3);
    actions := RunOn(script, actions, s3, Main(true), s3.(mutex := ByMain, main := MBusy));
  }

  /** Main has handed over the first call, which the thread is in. */
  lemma HandedOver(script: seq<EventKind>) returns (actions: seq<Action>)
    requires script != [] && script[0] == BlockingSyscall
    ensures Run(script, actions) == Some(State(ByMain, RUNNING, 0, MSpin, TCall, 0, false, [0], [0]))
  {
    actions := Enqueued(script);
    var s := State(ByThread, ENQUEUED, 0, MWaitDequeued, TTop, -1, false, [0], []);
    actions := RunOn(script, actions, s, Thread(false), s.(thread := TInvoke, event := 0));
    var s1 := State(ByThread, RUNNING, 0, MWaitDequeued, TBegun, 0, false, [0], [0]);
    assert [] + [0] == [0];
    actions := RunOn(script, actions, s.(thread := TInvoke, event := 0), Thread(false), s1);
    var s2 := s1.(mutex := Free, thread := TSignalDequeued);
    actions := RunOn(script, actions, s1, Thread(false), s2);
    var s3 := s2.(thread := TCall, main := MWokenDequeued);
    actions := RunOn(script, actions, s2, Thread(false), s3);
    var s4 := s3.(mutex := ByMain, main := MAwaitDequeued);
    actions := RunOn(script, actions, s3, Main(true), s4);
    actions := RunOn(script, actions, s4, Main(true), s4.(main := MSpin));
  }

  /** Main waits for the thread, which has just found the call. */
  lemma Enqueued(script: seq<EventKind>) returns (actions: seq<Action>)
    requires script != [] && script[0] == BlockingSyscall
    ensures Run(script, actions) == Some(State(ByThread, ENQUEUED, 0, MWaitDequeued, TTop, -1, false, [0], []))
  {
    var s := State(ByMain, ENQUEUED, 0, MSignalEnqueued, TStart, -1, false, [0], []);
    actions := RunOn(script, [], Init(), Main(true), Init().(cur := 0, main := MAwait(ToEnqueue)));
    assert [] + [0] == [0];
    actions := RunOn(script, actions, Init().(cur := 0, main := MAwait(ToEnqueue)), Main(true), s);
    actions := RunOn(script, actions, s, Main(true), s.(main := MAwaitDequeued));
    var s1 := s.(mutex := Free, main := MWaitDequeued);
    actions := RunOn(script, actions, s.(main := MAwaitDequeued), Main(true), s1);
    actions := RunOn(script, actions, s1, Thread(false), s1.(mutex := ByThread, thread := TTop));
  }

  // ----- A scheduler that always finishes

  /** How far main is within its current event. */
  function Stage(pc: MainPc): nat {
    match pc
    case MNextEvent => 0
    case MBusy => 1
    case MBusyUnlocked => 1
    case MAwait(_) => 3
    case MWaitIdle(_) => 3
    case MWokenIdle(_, _) => 3
    case _ => 2
  }

  /** How many steps the thread has before it, at most, until it waits again or has exited. */
  function ThreadWork(s: State): nat {
    match s.thread
    case TWaitEnqueued => if s.sys == IDLE then 1 else 16
    case TStart => if s.sys == IDLE then 3 else 15
    case TWokenEnqueued => if s.sys == IDLE then 3 else 15
    case TTop => if s.sys == IDLE then 2 else 14
    case TInvokeUnlocked => 13
    case TInvoke => 12
    case TBegun => 11
    case TSignalDequeued => 10
    case TCall => 9
    case TReturned => 8
    case TFinish => 7
    case TSignalIdle => 6
    case TUnlock => 5
    case TExited => 0
    case TAssertFailed => 0
  }

  /** How many steps main has before it, at most, while the thread stands still. */
  function MainWork(pc: MainPc): nat {
    match pc
    case MNextEvent => 0
    case MBusyUnlocked => 1
    case MBusy => 0
    case MWokenIdle(_, _) => 2
    case MAwait(_) => 1
    case MWaitIdle(_) => 0
    case MSignalEnqueued => 9
    case MWokenDequeued => 8
    case MAwaitDequeued => 7
    case MWaitDequeued => 6
    case MSpin => 5
    case MSpinUnlocked => 4
    case MSpinRelock(_) => 3
    case MSignalExit => 9
    case MExitUnlock => 8
    case MJoin => 7
    case MRelock => 6
    case MEnd => 0
  }

  /** Let the thread go first whenever it can. */
  function Schedule(s: State): Action {
    if ThreadStep(s, false).Some? then Thread(false) else Main(false)
  }

  /** The measure that every scheduled step decreases, lexicographically. */
  predicate Closer(script: seq<EventKind>, s': State, s: State) {
    var e', e := |script| - s'.cur, |script| - s.cur;
    || e' < e
    || (e' == e && Stage(s'.main) < Stage(s.main))
    || (e' == e && Stage(s'.main) == Stage(s.main) && ThreadWork(s') < ThreadWork(s))
    || (&& e' == e && Stage(s'.main) == Stage(s.main) && ThreadWork(s') == ThreadWork(s)
        && MainWork(s'.main) < MainWork(s.main))
  }

  /** Main has just timed out waiting for the thread, which will end the program. */
  predicate TimedOut(s: State) {
    s.main.MWokenIdle? && s.main.timedOut && !s.main.why.ToInvoke?
  }

  lemma ScheduledThreadCloser(script: seq<EventKind>, s: State)
    requires !s.dead && Inv(script, s) && ThreadStep(s, false).Some?
    ensures var s' := ThreadStep(s, false).value; !s'.dead && Closer(script, s', s)
  {
  }

  lemma ScheduledMainCloser(script: seq<EventKind>, s: State)
    requires !s.dead && Inv(script, s) && !s.main.MEnd? && ThreadStep(s, false).None?
    requires !TimedOut(s)
    ensures MainStep(script, s, false).Some?
    ensures var s' := MainStep(script, s, false).value; !s'.dead && Closer(script, s', s)
  {
  }

  lemma ScheduledStep(script: seq<EventKind>, s: State)
    requires !s.dead && Inv(script, s) && !s.main.MEnd? && !TimedOut(s)
    ensures Step(script, s, Schedule(s)).Some?
    ensures var s' := Step(script, s, Schedule(s)).value;
            !s'.dead && !TimedOut(s') && Inv(script, s') && Closer(script, s', s)
  {
    if ThreadStep(s, false).Some? {
      ScheduledThreadCloser(script, s);
    } else {
      ScheduledMainCloser(script, s);
    }
    StepKeepsInv(script, s, Schedule(s));
  }

  lemma ScheduledRun(script: seq<EventKind>, actions: seq<Action>) returns (a: Action)
    requires Run(script, actions).Some?
    requires var s := Run(script, actions).value; !s.dead && !TimedOut(s) && !s.main.MEnd?
    ensures (a.Main? || a.Thread?) && Run(script, actions + [a]).Some?
    ensures var s' := Run(script, actions + [a]).value;
            !s'.dead && !TimedOut(s') && Closer(script, s', Run(script, actions).value)
  {
    var s := Run(script, actions).value;
    RunInv(script, actions);
    ScheduledStep(script, s);
    a := Schedule(s);
    assert (actions + [a])[..|actions|] == actions;
  }

  /** After the run, these steps of the two threads alone lead main to its end, every blocking call made. */
  predicate Finishes(script: seq<EventKind>, actions: seq<Action>, more: seq<Action>) {
    && (forall a :: a in more ==> a.Main? || a.Thread?)
    && Run(script, actions + more).Some?
    && var s := Run(script, actions + more).value;
       !s.dead && s.main.MEnd? && s.ran == Blocking(script, |script|)
  }

  lemma {:induction false} AtEnd(script: seq<EventKind>, actions: seq<Action>)
    requires Run(script, actions).Some?
    requires !Run(script, actions).value.dead && Run(script, actions).value.main.MEnd?
    ensures Finishes(script, actions, [])
  {
    RunInv(script, actions);
    assert actions + [] == actions;
  }

  lemma FinishesStep(script: seq<EventKind>, actions: seq<Action>, a: Action, rest: seq<Action>)
    requires (a.Main? || a.Thread?) && Finishes(script, actions + [a], rest)
    ensures Finishes(script, actions, [a] + rest)
  {
    assert actions + ([a] + rest) == actions + [a] + rest;
  }

  /**
    The program can always be finished: from every state that any run reaches, short of a timeout,
    steps of the two threads alone lead main to its end with every blocking call of the script made.
   */
  lemma {:induction false} CanFinish(script: seq<EventKind>, actions: seq<Action>) returns (more: seq<Action>)
    requires Run(script, actions).Some?
    requires !Run(script, actions).value.dead && !TimedOut(Run(script, actions).value)
    ensures Finishes(script, actions, more)
    decreases |script| - Run(script, actions).value.cur, Stage(Run(script, actions).value.main),
              ThreadWork(Run(script, actions).value), MainWork(Run(script, actions).value.main)
  {
    if Run(script, actions).value.main.MEnd? {
      AtEnd(script, actions);
      more := [];
    } else {
      var a := ScheduledRun(script, actions);
      RunInv(script, actions);
      var rest := CanFinish(script, actions + [a]);
      FinishesStep(script, actions, a, rest);
      more := [a] + rest;
    }
  }
}
