/**
  The command line on its way from the wire client to the wire server (wire_client.c, wire_server.c):
  the arguments are joined, each with its terminator, sent as one message, and taken apart again. The
  client's own flag is left out on the way, and the server's is added.
 */
module Argv {

  const NUL := '\0'

  /** A C string without its terminator. */
  type CString = s: string | forall k :: 0 <= k < |s| ==> s[k] != '\0'

  const SKIPPED := "-wire_client"
  const SERVER_ARG: CString := "--wire_server"

  // ----- What is sent

  /** strstr finds the needle. */
  ghost predicate Contains(s: string, needle: string) {
    exists k: nat :: IsAt(s, needle, k)
  }

  predicate IsAt(s: string, needle: string, k: nat) {
    k + |needle| <= |s| && s[k..k + |needle|] == needle
  }

  /** The arguments that are sent on. */
  ghost function Kept(argv: seq<CString>): (r: seq<CString>)
    ensures forall k :: 0 <= k < |r| ==> r[k] in argv && !Contains(r[k], SKIPPED)
  {
    if argv == [] then []
    else if Contains(argv[0], SKIPPED) then Kept(argv[1..])
    else [argv[0]] + Kept(argv[1..])
  }

  /** Every string with its terminator. */
  function Terminated(ss: seq<CString>): string {
    if ss == [] then [] else ss[0] + [NUL] + Terminated(ss[1..])
  }

  /** The strings that end in a terminator, in order; octets behind the last terminator are no string. */
  function Strings(args: string): seq<CString>
    decreases |args|
  {
    var n := StrLen(args);
    if n == |args| then [] else [args[..n]] + Strings(args[n + 1..])
  }

  /** strlen, in a buffer: the distance to the first terminator, or to the end of the buffer. */
  function StrLen(s: string): (n: nat)
    ensures n <= |s| && (n < |s| ==> s[n] == NUL) && forall k :: 0 <= k < n ==> s[k] != NUL
  {
    if s == [] || s[0] == NUL then 0 else 1 + StrLen(s[1..])
  }

  // ----- Sending

  method StrStr(s: string, needle: string) returns (found: bool)
    ensures found <==> Contains(s, needle)
  {
    var k: nat := 0;
    while k + |needle| <= |s|
      invariant forall j: nat :: j < k ==> !IsAt(s, needle, j)
    {
      if IsAt(s, needle, k) {
        return true;
      }
      k := k + 1;
    }
    found := false;
  }

  /** wire_client_serialize_argv: the second pass fills exactly the length that the first pass counted. */
  method Serialize(argv: seq<CString>) returns (args: array<char>)
    ensures fresh(args) && args[..] == Terminated(Kept(argv))
  {
    var argsLen := 0;
    var i := 0;
    while i < |argv|
      invariant 0 <= i <= |argv| && argsLen == |Terminated(Kept(argv[..i]))|
    {
      KeptNext(argv, i);
      var skip := StrStr(argv[i], SKIPPED);
      if !skip {
        argsLen := argsLen + |argv[i]| + 1;
      }
      i := i + 1;
    }
    assert argv[..i] == argv;
    args := new char[argsLen](_ => NUL);
    var end := 0;
    i := 0;
    while i < |argv|
      invariant 0 <= i <= |argv| && 0 <= end <= argsLen
      invariant args[..end] == Terminated(Kept(argv[..i]))
    {
      KeptNext(argv, i);
      KeptPrefix(argv, i + 1);
      var skip := StrStr(argv[i], SKIPPED);
      if !skip {
        CopyString(args, end, argv[i]);
        end := end + |argv[i]| + 1;
      }
      i := i + 1;
    }
    assert argv[..i] == argv;
    assert end == argsLen;
  }

  /** memcpy of a string and its terminator. */
  method CopyString(args: array<char>, end: nat, s: CString)
    requires end + |s| + 1 <= args.Length
    modifies args
    ensures args[..end + |s| + 1] == old(args[..end]) + (s + [NUL])
  {
    var j := 0;
    while j < |s|
      invariant 0 <= j <= |s|
      invariant args[..end] == old(args[..end]) && args[end..end + j] == s[..j]
    {
      args[end + j] := s[j];
      j := j + 1;
    }
    args[end + |s|] := NUL;
    assert args[end..end + |s| + 1] == s + [NUL];
  }

  lemma {:induction false} KeptAppend(a: seq<CString>, b: seq<CString>)
    ensures Kept(a + b) == Kept(a) + Kept(b)
  {
    if a == [] {
      assert a + b == b;
    } else {
      KeptAppend(a[1..], b);
      assert (a + b)[1..] == a[1..] + b;
    }
  }

  lemma {:induction false} TerminatedAppend(a: seq<CString>, b: seq<CString>)
    ensures Terminated(a + b) == Terminated(a) + Terminated(b)
  {
    if a == [] {
      assert a + b == b;
    } else {
      TerminatedAppend(a[1..], b);
      assert (a + b)[1..] == a[1..] + b;
    }
  }

  lemma KeptNext(argv: seq<CString>, i: nat)
    requires i < |argv|
    ensures Terminated(Kept(argv[..i + 1])) ==
            Terminated(Kept(argv[..i])) + if Contains(argv[i], SKIPPED) then [] else argv[i] + [NUL]
  {
    assert argv[..i + 1] == argv[..i] + [argv[i]];
    KeptAppend(argv[..i], [argv[i]]);
    TerminatedAppend(Kept(argv[..i]), Kept([argv[i]]));
    assert [argv[i]][1..] == [];
  }

  lemma {:induction false} KeptPrefix(argv: seq<CString>, i: nat)
    requires i <= |argv|
    ensures |Terminated(Kept(argv[..i]))| <= |Terminated(Kept(argv))|
  {
    KeptAppend(argv[..i], argv[i..]);
    TerminatedAppend(Kept(argv[..i]), Kept(argv[i..]));
    assert argv == argv[..i] + argv[i..];
  }

  // ----- Receiving

  function CountNuls(args: string): nat {
    if args == [] then 0 else CountNuls(args[..|args| - 1]) + if args[|args| - 1] == NUL then 1 else 0
  }

  /** The first loop: one argument for each terminator, and --wire_server. */
  method CountArgs(args: array<char>) returns (argc: nat)
    ensures argc == |Strings(args[..])| + 1
  {
    argc := 0;
    var i := 0;
    while i < args.Length
      invariant 0 <= i <= args.Length && argc == CountNuls(args[..i])
    {
      assert args[..i + 1][..i] == args[..i];
      if args[i] == NUL {
        argc := argc + 1;
      }
      i := i + 1;
    }
    assert args[..i] == args[..];
    StringsCount(args[..]);
    argc := argc + 1;
  }

  /** The strings still to be read from an offset of the buffer on. */
  ghost predicate Pending(args: string, end: nat, todo: seq<CString>) {
    end <= |args| && todo == Strings(args[end..])
  }

  /** strdup of the string at an offset of the buffer, and the step over it. */
  method StrDup(args: array<char>, end: nat, ghost done: seq<CString>, ghost todo: seq<CString>)
    returns (s: CString, next: nat)
    requires Pending(args[..], end, todo) && todo != []
    ensures Pending(args[..], next, todo[1..]) && (done + [s]) + todo[1..] == done + todo
  {
    var rest := args[..][end..];
    assert rest == args[end..];
    s := rest[..StrLen(rest)];
    next := end + |s| + 1;
    assert rest[|s| + 1..] == args[..][next..];
  }

  /**
    wire_server_unserialize_argv, for any received octets. The last pass of the source's loop reads a
    string behind the input and is overwritten at once; here it is left out.
   */
  method Unserialize(args: array<char>) returns (argv: seq<CString>)
    ensures argv == Strings(args[..]) + [SERVER_ARG]
  {
    var argc := CountArgs(args);
    argv := [];
    var end: nat := 0;
    ghost var todo := Strings(args[..]);
    ghost var all := todo;
    assert args[..][0..] == args[..];
    for i := 0 to argc - 1
      invariant Pending(args[..], end, todo)
      invariant argv + todo == all && |todo| == argc - 1 - i
    {
      var s, next := StrDup(args, end, argv, todo);
      argv, end, todo := argv + [s], next, todo[1..];
    }
    argv := argv + [SERVER_ARG];
  }

  lemma {:induction false} CountAppend(a: string, b: string)
    ensures CountNuls(a + b) == CountNuls(a) + CountNuls(b)
    decreases |b|
  {
    if b == [] {
      assert a + b == a;
    } else {
      CountAppend(a, b[..|b| - 1]);
      assert (a + b)[..|a + b| - 1] == a + b[..|b| - 1];
    }
  }

  lemma {:induction false} NoNuls(a: string)
    requires forall k :: 0 <= k < |a| ==> a[k] != NUL
    ensures CountNuls(a) == 0
    decreases |a|
  {
    if a != [] {
      NoNuls(a[..|a| - 1]);
    }
  }

  lemma {:induction false} CountPast(args: string, n: nat)
    requires n < |args| && args[n] == NUL && forall k :: 0 <= k < n ==> args[k] != NUL
    ensures CountNuls(args) == 1 + CountNuls(args[n + 1..])
  {
    NoNuls(args[..n]);
    assert args[..n + 1][..n] == args[..n];
    assert CountNuls(args[..n + 1]) == 1;
    assert args == args[..n + 1] + args[n + 1..];
    CountAppend(args[..n + 1], args[n + 1..]);
  }

  /** There are as many strings as terminators. */
  lemma {:induction false} StringsCount(args: string)
    ensures |Strings(args)| == CountNuls(args)
    decreases |args|
  {
    var n := StrLen(args);
    if n == |args| {
      NoNuls(args);
    } else {
      StringsCount(args[n + 1..]);
      CountPast(args, n);
    }
  }

  // ----- The round trip

  lemma {:induction false} StringsTerminated(ss: seq<CString>)
    ensures Strings(Terminated(ss)) == ss
  {
    if ss != [] {
      var s, rest := ss[0], Terminated(ss[1..]);
      StringsTerminated(ss[1..]);
      var args := s + [NUL] + rest;
      assert args[|s|] == NUL && forall k :: 0 <= k < |s| ==> args[k] == s[k];
      assert StrLen(args) == |s|;
      assert args[..|s|] == s && args[|s| + 1..] == rest;
    }
  }

  /**
    The server gets the client's arguments, in order, without those that mention -wire_client, and
    then --wire_server.
   */
  lemma {:induction false} ServerArgs(argv: seq<CString>)
    ensures Strings(Terminated(Kept(argv))) + [SERVER_ARG] == Kept(argv) + [SERVER_ARG]
    ensures forall k :: 0 <= k < |Kept(argv)| ==> !Contains(Kept(argv)[k], SKIPPED)
  {
    StringsTerminated(Kept(argv));
  }

  method Transfer(argv: seq<CString>) returns (received: seq<CString>)
    ensures received == Kept(argv) + [SERVER_ARG]
  {
    var args := Serialize(argv);
    received := Unserialize(args);
    ServerArgs(argv);
  }

  /** Kept keeps exactly the arguments without the needle: none is lost, repeated or moved. */
  lemma {:induction false} KeptIsFilter(argv: seq<CString>, s: CString)
    ensures multiset(Kept(argv))[s] == if Contains(s, SKIPPED) then 0 else multiset(argv)[s]
  {
    if argv != [] {
      KeptIsFilter(argv[1..], s);
      assert argv == [argv[0]] + argv[1..];
    }
  }
}
