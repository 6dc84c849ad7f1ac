/** Command parsing in sys_execute, the argument buffer in the PCB, and sys_getargs. */
module Command {
  import opened Bytes
  import Memory
  import Strings

  const MAX_CMD_LEN := 32
  const MAX_ARG_LEN := 128

  predicate EndsName(c: Byte) {
    c == SPACE || c == NEWLINE
  }

  predicate EndsArgument(c: Byte) {
    c == NEWLINE || c == NUL || c == SPACE
  }

  /** First position from i on that ends the program name, at most 32. */
  function NameEnd(cmd: seq<Byte>, i: nat): (e: nat)
    requires i <= MAX_CMD_LEN <= |cmd|
    ensures i <= e <= MAX_CMD_LEN && (forall j :: i <= j < e ==> !EndsName(cmd[j]))
    ensures e < MAX_CMD_LEN ==> EndsName(cmd[e])
    decreases MAX_CMD_LEN - i
  {
    if i == MAX_CMD_LEN || EndsName(cmd[i]) then i else NameEnd(cmd, i + 1)
  }

  /** First position from i on that ends the argument, at most 128. */
  function ArgumentEnd(cmd: seq<Byte>, i: nat): (e: nat)
    requires i <= MAX_ARG_LEN <= |cmd|
    ensures i <= e <= MAX_ARG_LEN && (forall j :: i <= j < e ==> !EndsArgument(cmd[j]))
    ensures e < MAX_ARG_LEN ==> EndsArgument(cmd[e])
    decreases MAX_ARG_LEN - i
  {
    if i == MAX_ARG_LEN || EndsArgument(cmd[i]) then i else ArgumentEnd(cmd, i + 1)
  }

  /** The program name as read_dentry_by_name sees it. The name loop does not stop at a NUL. A command
      that begins with a separator leaves the name buffer as it was: `stack` is the memory from that
      buffer on. */
  function ProgramName(cmd: seq<Byte>, stack: seq<Byte>): seq<Byte>
    requires |cmd| >= MAX_ARG_LEN
  {
    if NameEnd(cmd, 0) == 0 then CStr(stack) else CStr(cmd[..NameEnd(cmd, 0)])
  }

  /** The argument, when a space ends the name. */
  function Argument(cmd: seq<Byte>): Option<seq<Byte>>
    requires |cmd| >= MAX_ARG_LEN
  {
    var e := NameEnd(cmd, 0);
    if e < MAX_CMD_LEN && cmd[e] == SPACE then Some(cmd[e + 1..ArgumentEnd(cmd, e + 1)]) else None
  }

  /** The two parsing loops. `cmd` is the memory the command pointer leads to, `stack` what the name
      buffer and the memory after it hold at the start. */
  method Parse(cmd: seq<Byte>, stack: seq<Byte>) returns (name: seq<Byte>, argument: Option<seq<Byte>>)
    requires |cmd| >= MAX_ARG_LEN && |stack| > MAX_CMD_LEN && NUL in stack
    ensures NUL in name && CStr(name) == ProgramName(cmd, stack)
    ensures argument == Argument(cmd)
  {
    var end;
    name, end := ParseName(cmd, stack);
    argument := None;
    if end < MAX_CMD_LEN && cmd[end] == SPACE {
      var a := ParseArgument(cmd, end + 1);
      argument := Some(a);
    }
  }

  method ParseArgument(cmd: seq<Byte>, start: nat) returns (argument: seq<Byte>)
    requires |cmd| >= MAX_ARG_LEN && 1 <= start <= MAX_CMD_LEN
    ensures argument == cmd[start..ArgumentEnd(cmd, start)]
  {
    var arguments := new Byte[MAX_ARG_LEN](_ => NUL);
    arguments[0] := NUL;
    var i := start;
    while i < MAX_ARG_LEN && !EndsArgument(cmd[i])
      invariant start <= i <= MAX_ARG_LEN && ArgumentEnd(cmd, start) == ArgumentEnd(cmd, i)
      invariant arguments[i - start] == NUL
      invariant forall j :: 0 <= j < i - start ==> arguments[j] == cmd[start + j] && arguments[j] != NUL
    {
      arguments[i - start] := cmd[i];
      arguments[i - start + 1] := NUL;
      i := i + 1;
    }
    ghost var n := i - start;
    CStrUnique(arguments[..], n);
    var len := Strings.Strlen(arguments[..]);
    argument := arguments[..len];
  }

  method ParseName(cmd: seq<Byte>, stack: seq<Byte>) returns (name: seq<Byte>, end: nat)
    requires |cmd| >= MAX_ARG_LEN && |stack| > MAX_CMD_LEN && NUL in stack
    ensures end == NameEnd(cmd, 0) && NUL in name && CStr(name) == ProgramName(cmd, stack)
  {
    var buffer := new Byte[|stack|](i requires 0 <= i < |stack| => stack[i]);
    assert buffer[..] == stack;
    var i := 0;
    while i < MAX_CMD_LEN && !EndsName(cmd[i])
      invariant 0 <= i <= MAX_CMD_LEN && NameEnd(cmd, 0) == NameEnd(cmd, i)
      invariant if i == 0 then buffer[..] == stack else buffer[..i] == cmd[..i] && buffer[i] == NUL
    {
      buffer[i] := cmd[i];
      buffer[i + 1] := NUL;
      i := i + 1;
    }
    name, end := buffer[..], i;
    if i > 0 {
      NulAfter(name, i);
      assert name[i] == NUL && name[..i] == cmd[..i];
    }
  }

  /** A buffer with a NUL at i holds the string of its first i bytes. */
  lemma NulAfter(s: seq<Byte>, i: nat)
    requires i < |s| && s[i] == NUL
    ensures CStr(s) == CStr(s[..i])
  {
    var n := |CStr(s[..i])|;
    assert s[..i][..n] == s[..n];
    CStrUnique(s, n);
  }

  /** A parsed argument fits the buffer in the PCB and is a string. */
  lemma ArgumentFits(cmd: seq<Byte>)
    requires |cmd| >= MAX_ARG_LEN && Argument(cmd).Some?
    ensures |Argument(cmd).value| < MAX_ARG_LEN && NUL !in Argument(cmd).value
  {
    var e := NameEnd(cmd, 0);
    var arg := Argument(cmd).value;
    assert forall j :: 0 <= j < |arg| ==> arg[j] == cmd[e + 1 + j];
  }

  /** A buffer with the argument and a NUL at its start, and the rest as it was. */
  function WithArgument(was: seq<Byte>, arg: seq<Byte>): seq<Byte>
    requires |arg| < |was|
  {
    seq(|was|, i requires 0 <= i < |was| => ArgumentByte(was, arg, i))
  }

  function ArgumentByte(was: seq<Byte>, arg: seq<Byte>, i: nat): Byte
    requires i < |was|
  {
    if i < |arg| then arg[i] else if i == |arg| then NUL else was[i]
  }

  lemma ArgumentCopied(was: seq<Byte>, arg: seq<Byte>)
    requires |arg| < |was|
    ensures arg + was[|arg| := NUL][|arg|..] == WithArgument(was, arg)
    ensures WithArgument(was, arg)[..|arg| + 1] == arg + [NUL]
  {
  }

  /** The argument fields of a PCB. */
  class ArgumentBuffer {
    const args: array<Byte>
    var argLen: int

    ghost predicate Valid()
      reads this, args
    {
      args.Length == MAX_ARG_LEN && -1 <= argLen < MAX_ARG_LEN
    }

    /** What the program was started with. */
    ghost function View(): Option<seq<Byte>>
      requires Valid()
      reads this, args
    {
      if argLen == -1 then None else Some(args[..argLen])
    }

    constructor ()
      ensures Valid() && fresh(args)
    {
      args := new Byte[MAX_ARG_LEN](_ => NUL);
      argLen := -1;
    }

    /** The store in sys_execute. */
    method Store(argument: Option<seq<Byte>>)
      requires Valid() && (argument.Some? ==> |argument.value| < MAX_ARG_LEN && NUL !in argument.value)
      modifies this, args
      ensures Valid() && View() == argument
    {
      if argument.Some? {
        var src := argument.value + [NUL];
        CStrUnique(src, |argument.value|);
        argLen := |argument.value|;
        Strings.Strncpy(args, 0, src, argLen);
        assert args[..argLen] == argument.value;
      } else {
        argLen := -1;
        args[0] := NUL;
      }
    }

    /** sys_getargs: a caller with room for the argument and its terminator gets both, and nothing else
        changes. With room for the argument alone, the terminator goes past the nbytes of the caller. */
    method GetArgs(buf: array?<Byte>, nbytes: int) returns (r: int)
      requires Valid() && buf != args
      requires buf != null ==> nbytes <= buf.Length && (nbytes == argLen > 0 ==> nbytes < buf.Length)
      modifies buf
      ensures r == 0 <==> buf != null && View().Some? && nbytes >= |View().value|
      ensures r == 0 || r == ERROR
      ensures r == 0 && nbytes > 0 ==>
                |View().value| < buf.Length && buf[..] == WithArgument(old(buf[..]), View().value)
      ensures (r == ERROR || nbytes == 0) && buf != null ==> buf[..] == old(buf[..])
    {
      if buf == null || argLen == -1 || nbytes < argLen {
        return ERROR;
      }
      ghost var was := buf[..];
      Terminate(buf, argLen, nbytes);
      ghost var ended := buf[..];
      Memory.MemcpyTo(buf, args[..argLen]);
      assert buf[..] == args[..argLen] + ended[argLen..];
      if nbytes > 0 {
        ArgumentCopied(was, args[..argLen]);
      } else {
        assert buf[..] == ended;
      }
      r := 0;
    }

    /** The loop that is to clear the buffer stores the same byte each time. */
    method Terminate(buf: array<Byte>, at: nat, n: nat)
      requires n > 0 ==> at < buf.Length
      modifies buf
      ensures buf[..] == if n == 0 then old(buf[..]) else old(buf[..])[at := NUL]
    {
      var i := 0;
      while i < n
        invariant 0 <= i <= n
        invariant buf[..] == if i == 0 then old(buf[..]) else old(buf[..])[at := NUL]
      {
        buf[at] := NUL;
        i := i + 1;
      }
    }

    /** A program started as "name arg" reads back exactly arg and a NUL. */
    method RoundTrip(name: seq<Byte>, arg: seq<Byte>, rest: seq<Byte>, stack: seq<Byte>, buf: array<Byte>, nbytes: int)
      requires Valid() && buf != args && |arg| < nbytes <= buf.Length && |stack| > MAX_CMD_LEN && NUL in stack
      requires Spoken(name, arg, rest)
      modifies this, args, buf
      ensures buf[..|arg| + 1] == arg + [NUL]
    {
      var cmd := name + [SPACE] + arg + rest;
      ParsesBack(name, arg, rest, stack);
      var _, argument := Parse(cmd, stack);
      Store(argument);
      ghost var was := buf[..];
      var r := GetArgs(buf, nbytes);
      ArgumentCopied(was, arg);
      assert buf[..|arg| + 1] == buf[..][..|arg| + 1];
    }
  }

  /** A command line of a name, a space and an argument, as the shell passes it on; rest is the
      terminator and whatever memory follows it. */
  ghost predicate Spoken(name: seq<Byte>, arg: seq<Byte>, rest: seq<Byte>) {
    && 0 < |name| < MAX_CMD_LEN && (forall j :: 0 <= j < |name| ==> !EndsName(name[j]) && name[j] != NUL)
    && (forall j :: 0 <= j < |arg| ==> !EndsArgument(arg[j]))
    && rest != [] && EndsArgument(rest[0])
    && |name| + 1 + |arg| <= MAX_ARG_LEN <= |name| + 1 + |arg| + |rest|
  }

  lemma ParsesBack(name: seq<Byte>, arg: seq<Byte>, rest: seq<Byte>, stack: seq<Byte>)
    requires Spoken(name, arg, rest)
    ensures var cmd := name + [SPACE] + arg + rest;
            ProgramName(cmd, stack) == name && Argument(cmd) == Some(arg)
  {
    var cmd := name + [SPACE] + arg + rest;
    var n := |name|;
    assert cmd[..n] == name && cmd[n] == SPACE;
    EndOfName(cmd, name, 0);
    CStrUnique(name, n);
    assert cmd[n + 1..] == arg + rest;
    EndOfArgument(cmd, n + 1, arg, rest);
  }

  /** A newline ends a name as well, and then there is no argument. */
  lemma NameAlone(name: seq<Byte>, rest: seq<Byte>, stack: seq<Byte>)
    requires 0 < |name| < MAX_CMD_LEN && (forall j :: 0 <= j < |name| ==> name[j] !in {0, 10, 32})
    requires |name| + 1 + |rest| >= MAX_ARG_LEN
    ensures ProgramName(name + [10] + rest, stack) == name && Argument(name + [10] + rest) == None
  {
    var cmd := name + [10] + rest;
    assert cmd[..|name|] == name && cmd[|name|] == 10;
    EndOfName(cmd, name, 0);
    CStrUnique(name, |name|);
  }

  /** A name of 32 or more characters is cut there, and then there is no argument either. */
  lemma LongName(cmd: seq<Byte>, stack: seq<Byte>)
    requires |cmd| >= MAX_ARG_LEN && forall j :: 0 <= j < 32 ==> cmd[j] !in {0, 10, 32}
    ensures ProgramName(cmd, stack) == cmd[..32] && Argument(cmd) == None
  {
    CStrUnique(cmd[..32], 32);
    assert NameEnd(cmd, 0) < 32 ==> EndsName(cmd[NameEnd(cmd, 0)]);
  }

  lemma {:induction false} EndOfName(cmd: seq<Byte>, name: seq<Byte>, i: nat)
    requires i <= |name| < MAX_CMD_LEN <= |cmd| && cmd[..|name|] == name && EndsName(cmd[|name|])
    requires forall j :: 0 <= j < |name| ==> !EndsName(name[j])
    ensures NameEnd(cmd, i) == |name|
    decreases |name| - i
  {
    if i < |name| {
      assert cmd[i] == cmd[..|name|][i];
      EndOfName(cmd, name, i + 1);
    }
  }

  lemma EndOfArgument(cmd: seq<Byte>, start: nat, arg: seq<Byte>, rest: seq<Byte>)
    requires start + |arg| <= MAX_ARG_LEN <= |cmd| && cmd[start..] == arg + rest
    requires (forall j :: 0 <= j < |arg| ==> !EndsArgument(arg[j])) && rest != [] && EndsArgument(rest[0])
    ensures ArgumentEnd(cmd, start) == start + |arg| && cmd[start..start + |arg|] == arg
  {
    var e := start + |arg|;
    assert cmd[start..e] == cmd[start..][..|arg|] == arg;
    assert forall j :: start <= j < e ==> cmd[j] == cmd[start..][j - start] == arg[j - start];
    assert cmd[start..][|arg|] == rest[0];
  }
}
