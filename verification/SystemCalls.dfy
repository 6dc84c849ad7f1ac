/** sys_execute as a whole: parsing, the executable check against the file system, and the process
    table. */
module SystemCalls {
  import opened Bytes
  import opened FileSystem
  import opened Command
  import opened Threads
  import opened Processes
  import D = Descriptors
  import Rtc

  const ELF_MAGIC: seq<Byte> := [0x7F, 0x45, 0x4C, 0x46]
  const FOUR_MB := 0x40_0000

  /** The four bytes the magic check compares: the start of the file, or whatever the stack buffer held
      where the file is shorter. */
  function MagicBytes(img: Image, ino: nat, junk: seq<Byte>): seq<Byte>
    requires img.Valid() && ino < |img.inodes| && |junk| == 4
  {
    Filled(junk, img, ino, 0, Readable(img.inodes[ino].length, 0, 4))
  }

  /** The inode of the program a command names, if it is an executable. */
  function Executable(img: Image, name: seq<Byte>, junk: seq<Byte>): Option<nat>
    requires img.Valid() && |junk| == 4
  {
    var e := Lookup(img, name);
    if e.None? then None
    else
      var ino := img.entries[e.value].inode;
      if ino < |img.inodes| && MagicBytes(img, ino, junk) == ELF_MAGIC then Some(ino) else None
  }

  /** Whether file k passes for a program: it begins with the four ELF bytes, or, if it is shorter, its
      bytes and those the stack buffer held after them make up the four. */
  ghost predicate LooksLikeElf(img: Image, k: nat, junk: seq<Byte>)
    requires img.Valid() && k < |img.inodes| && |junk| == 4
  {
    var file := img.File(k);
    if |file| >= 4 then file[..4] == [0x7F, 0x45, 0x4C, 0x46] else file + junk[|file|..] == [0x7F, 0x45, 0x4C, 0x46]
  }

  /** A name leads to a program exactly if the first entry of that name has a valid inode whose file passes,
      and then it leads to that inode. */
  lemma ExecutableIff(img: Image, name: seq<Byte>, junk: seq<Byte>, i: int)
    requires img.Valid() && |junk| == 4 && FirstNamed(img, name, i)
    ensures var k, e := img.entries[i].inode, Executable(img, name, junk);
            && (e.Some? ==> e.value == k)
            && (e.Some? <==> k < |img.inodes| && LooksLikeElf(img, k, junk))
  {
    FirstIsLookup(img, name, i);
    var k := img.entries[i].inode;
    if k < |img.inodes| {
      var file, m := img.File(k), MagicBytes(img, k, junk);
      assert m == if |file| >= 4 then file[..4] else file + junk[|file|..];
    }
  }

  /** A name without an entry leads to none. */
  lemma NoEntryNoProgram(img: Image, name: seq<Byte>, junk: seq<Byte>)
    requires img.Valid() && |junk| == 4 && forall i :: 0 <= i < |img.entries| ==> img.Name(i) != name
    ensures Executable(img, name, junk).None?
  {
  }

  /** The lookup and the magic check of sys_execute. */
  method CheckExecutable(img: Image, name: seq<Byte>, junk: seq<Byte>) returns (ino: Option<nat>)
    requires img.Valid() && |junk| == 4 && NUL in name
    ensures ino == Executable(img, CStr(name), junk)
    ensures forall i :: FirstNamed(img, CStr(name), i) ==>
              && (ino.Some? ==> ino.value == img.entries[i].inode)
              && (ino.Some? <==> img.entries[i].inode < |img.inodes| && LooksLikeElf(img, img.entries[i].inode, junk))
    ensures (forall i :: 0 <= i < |img.entries| ==> img.Name(i) != CStr(name)) ==> ino.None?
  {
    ino := FindProgram(img, name, junk);
    forall i | FirstNamed(img, CStr(name), i)
      ensures ino.Some? ==> ino.value == img.entries[i].inode
      ensures ino.Some? <==> img.entries[i].inode < |img.inodes| && LooksLikeElf(img, img.entries[i].inode, junk)
    {
      ExecutableIff(img, CStr(name), junk, i);
    }
  }

  method FindProgram(img: Image, name: seq<Byte>, junk: seq<Byte>) returns (ino: Option<nat>)
    requires img.Valid() && |junk| == 4 && NUL in name
    ensures ino == Executable(img, CStr(name), junk)
  {
    var e := FindEntry(img, name);
    if e.None? {
      return None;
    }
    var inode := img.entries[e.value].inode;
    var bytes := new Byte[4](i requires 0 <= i < 4 => junk[i]);
    assert bytes[..] == junk;
    var r, _ := ReadData(img, inode, 0, bytes, 4);
    if r == ERROR {
      return None;
    }
    assert bytes[..] == MagicBytes(img, inode, junk);
    var i := 0;
    while i < 4
      invariant 0 <= i <= 4 && bytes[..i] == ELF_MAGIC[..i]
    {
      if bytes[i] != ELF_MAGIC[i] {
        assert bytes[..][i] != ELF_MAGIC[i];
        return None;
      }
      i := i + 1;
    }
    assert bytes[..] == bytes[..4] && ELF_MAGIC[..4] == ELF_MAGIC;
    return Some(inode);
  }

  /** Copying the program in: it fails exactly for an inode that does not exist. */
  method Load(img: Image, ino: nat) returns (r: int, program: seq<Byte>)
    requires img.Valid()
    ensures r == ERROR <==> ino >= |img.inodes|
    ensures ino < |img.inodes| ==> r == |program| && program == img.File(ino)
  {
    assert ino < |img.inodes| ==> img.ValidInode(img.inodes[ino]);
    var memory := new Byte[FOUR_MB](_ => NUL);
    ghost var blank := memory[..];
    ghost var touched;
    r, touched := ReadData(img, ino, 0, memory, FOUR_MB);
    if r == ERROR {
      return r, [];
    }
    FilledIsSlice(blank, img, ino, 0, r);
    program := memory[..r];
    assert program == img.File(ino)[0..0 + r];
  }

  /** The running program has no descriptor on the clock. */
  ghost predicate Unclocked(s: Table) {
    s.Valid() && s.threads[s.turn].Started() && s.clocks.FdsOf(s.threads[s.turn].Top()) == 0
  }

  lemma NewProgramFds(s: Table)
    requires s.Valid() && s.FreeFrom(0) < MAX_PROCESSES
    ensures Unclocked(s.Executed(true))
  {
  }

  /** The second half of sys_execute, with the page of process p already in place. If the copying fails,
      the caller goes on with a page that is not its own. */
  method LoadAndRun(table: ProcessTable, img: Image, ino: nat, p: int) returns (r: int)
    requires table.Core() && img.Valid() && table.model.threads[table.currProcess].Started()
    requires p == table.model.FreeFrom(0) < MAX_PROCESSES && !table.used[p] && table.programFrame == ProgramFrame(p)
    modifies table, table.clock
    ensures r == if ino < |img.inodes| then p else ERROR
    ensures r == ERROR ==> unchanged(table) && unchanged(table.clock) && !table.Inv()
    ensures r != ERROR ==> RunsAs(table, old(table.used), old(table.model), r)
    ensures r != ERROR && old(table.model).AllStarted() ==>
              table.Inv() && table.model == old(table.model).Executed(true) && Unclocked(table.model)
  {
    NewProgramFds(table.model);
    var count, _ := Load(img, ino);
    if count == ERROR {
      NestedPidHigh(table.R(), table.model, p);
      return ERROR;
    }
    table.Nest(p);
    r := p;
  }

  /** Process r runs in a table that had these pids in use: under its caller if all three shells run, and
      otherwise as its own parent under a root's pid. */
  ghost predicate RunsAs(table: ProcessTable, used: seq<bool>, was: Table, r: int)
    requires was.Valid() && was.threads[was.turn].Started() && 0 <= r < |used|
    reads table
  {
    && table.used == used[r := true] && |table.pcbs| == MAX_PROCESSES == |used|
    && (table.pcbs[r].parPid == was.threads[was.turn].Top() <==> was.AllStarted())
    && (!was.AllStarted() ==> r < NUM_TERMINALS && table.pcbs[r].parPid == r)
  }

  /** sys_execute as far as the process table goes: an error return leaves it as it was. In particular the
      second read_data cannot fail once the first has succeeded. */
  method StartProgram(table: ProcessTable, img: Image, cmd: seq<Byte>, stack: seq<Byte>, junk: seq<Byte>)
    returns (r: int, argument: Option<seq<Byte>>)
    requires table.Inv() && table.model.threads[table.currProcess].Started()
    requires img.Valid() && |cmd| >= MAX_ARG_LEN && |stack| > MAX_CMD_LEN && NUL in stack && |junk| == 4
    modifies table, table.clock
    ensures argument == Argument(cmd)
    ensures r == ERROR <==> Executable(img, ProgramName(cmd, stack), junk).None? || AllUsed(old(table.used))
    ensures r == ERROR ==> unchanged(table) && unchanged(table.clock)
    ensures r != ERROR ==> LowestFree(old(table.used), r) && RunsAs(table, old(table.used), old(table.model), r)
    ensures r == ERROR || old(table.model).AllStarted() ==>
              && table.Inv()
              && table.model == old(table.model).Executed(Executable(img, ProgramName(cmd, stack), junk).Some?)
    ensures r != ERROR && old(table.model).AllStarted() ==> Unclocked(table.model)
  {
    var name;
    name, argument := Parse(cmd, stack);
    var ino := CheckExecutable(img, name, junk);
    if ino.None? {
      return ERROR, argument;
    }
    r := table.Reserve();
    if r == ERROR {
      return;
    }
    r := LoadAndRun(table, img, ino.value, r);
  }

  /** The running process and its descriptors: its PCB counts exactly its open descriptors on the clock. */
  ghost predicate Tied(table: ProcessTable, fds: D.FdTable)
    reads table, table.clock, fds
  {
    && table.Inv() && table.model.threads[table.currProcess].Started() && fds.Inv()
    && table.model.clocks.FdsOf(table.model.threads[table.currProcess].Top()) == D.ClockCount(fds.fdt, D.FDT_SIZE)
  }

  /** sys_execute: on success the new process has the parsed argument in its own PCB and a table of
      descriptors with nothing but the terminal open. args are the argument fields of the six PCBs. */
  method SysExecute(table: ProcessTable, img: Image, cmd: seq<Byte>, stack: seq<Byte>, junk: seq<Byte>,
                    args: seq<ArgumentBuffer>)
    returns (r: int, fds: D.FdTable?)
    requires table.Inv() && table.model.threads[table.currProcess].Started()
    requires img.Valid() && |cmd| >= MAX_ARG_LEN && |stack| > MAX_CMD_LEN && NUL in stack && |junk| == 4
    requires |args| == MAX_PROCESSES && forall i :: 0 <= i < |args| ==> args[i].Valid()
    modifies table, table.clock, (set a | a in args), (set a | a in args :: a.args)
    ensures r == ERROR <==> Executable(img, ProgramName(cmd, stack), junk).None? || AllUsed(old(table.used))
    ensures r == ERROR ==> unchanged(table) && unchanged(table.clock) && forall a | a in args :: unchanged(a, a.args)
    ensures r != ERROR ==> LowestFree(old(table.used), r) && RunsAs(table, old(table.used), old(table.model), r)
    ensures r != ERROR ==> args[r].Valid() && args[r].View() == Argument(cmd)
    ensures r != ERROR ==> fds != null && fresh(fds) && fds.Inv() && fds.img == img
    ensures r == ERROR || old(table.model).AllStarted() ==>
              && table.Inv()
              && table.model == old(table.model).Executed(Executable(img, ProgramName(cmd, stack), junk).Some?)
    ensures r != ERROR && old(table.model).AllStarted() ==> Tied(table, fds)
  {
    fds := null;
    var argument;
    r, argument := StartProgram(table, img, cmd, stack, junk);
    if r == ERROR {
      return;
    }
    fds := SetUp(img, args[r], cmd, argument);
  }

  /** The parts of the new PCB that hold the argument and the descriptors. */
  method SetUp(img: Image, args: ArgumentBuffer, ghost cmd: seq<Byte>, argument: Option<seq<Byte>>)
    returns (fds: D.FdTable)
    requires img.Valid() && args.Valid() && |cmd| >= MAX_ARG_LEN && argument == Argument(cmd)
    modifies args, args.args
    ensures args.Valid() && args.View() == argument
    ensures fresh(fds) && fds.Inv() && fds.img == img && D.ClockCount(fds.fdt, D.FDT_SIZE) == 0
  {
    if argument.Some? { ArgumentFits(cmd); }
    args.Store(argument);
    fds := new D.FdTable(img);
    NoClocks(fds.fdt, D.FDT_SIZE);
  }

  lemma {:induction false} NoClocks(fdt: seq<D.Fd>, n: nat)
    requires n <= |fdt| && forall fd :: 0 <= fd < n ==> !D.OnClock(fdt[fd])
    ensures D.ClockCount(fdt, n) == 0
  {
    if n > 0 { NoClocks(fdt, n - 1); }
  }

  /** A file that does not begin with the ELF bytes is refused, and nothing changes. */
  method RefusesOthers(table: ProcessTable, img: Image, cmd: seq<Byte>, stack: seq<Byte>, junk: seq<Byte>,
                       args: seq<ArgumentBuffer>, ghost i: int)
    returns (r: int)
    requires table.Inv() && table.model.threads[table.currProcess].Started()
    requires img.Valid() && |cmd| >= MAX_ARG_LEN && |stack| > MAX_CMD_LEN && NUL in stack && |junk| == 4
    requires |args| == MAX_PROCESSES && forall j :: 0 <= j < |args| ==> args[j].Valid()
    requires FirstNamed(img, ProgramName(cmd, stack), i) && img.entries[i].inode < |img.inodes|
    requires var file := img.File(img.entries[i].inode); |file| >= 4 && file[..4] != [0x7F, 0x45, 0x4C, 0x46]
    modifies table, table.clock, (set a | a in args), (set a | a in args :: a.args)
    ensures r == ERROR && unchanged(table) && unchanged(table.clock) && forall a | a in args :: unchanged(a, a.args)
  {
    ExecutableIff(img, ProgramName(cmd, stack), junk, i);
    var fds;
    r, fds := SysExecute(table, img, cmd, stack, junk, args);
  }

  /** The argument of a command reaches the program it starts: whichever pid that gets, its sys_getargs
      delivers exactly the argument and a NUL. */
  method ArgumentReachesProgram(table: ProcessTable, img: Image, name: seq<Byte>, arg: seq<Byte>, rest: seq<Byte>,
                                stack: seq<Byte>, junk: seq<Byte>, args: seq<ArgumentBuffer>, buf: array<Byte>, n: int)
    returns (r: int)
    requires table.Inv() && table.model.threads[table.currProcess].Started()
    requires img.Valid() && Spoken(name, arg, rest) && |stack| > MAX_CMD_LEN && NUL in stack && |junk| == 4
    requires |args| == MAX_PROCESSES && forall i :: 0 <= i < |args| ==> args[i].Valid() && args[i].args != buf
    requires |arg| < n <= buf.Length
    modifies table, table.clock, (set a | a in args), (set a | a in args :: a.args), buf
    ensures r == ERROR <==> Executable(img, name, junk).None? || AllUsed(old(table.used))
    ensures r != ERROR ==> buf[..|arg| + 1] == arg + [NUL]
  {
    var cmd := name + [SPACE] + arg + rest;
    ParsesBack(name, arg, rest, stack);
    var fds;
    r, fds := SysExecute(table, img, cmd, stack, junk, args);
    if r != ERROR {
      ghost var was := buf[..];
      var got := args[r].GetArgs(buf, n);
      ArgumentCopied(was, arg);
      assert buf[..|arg| + 1] == buf[..][..|arg| + 1];
    }
  }

  /** The reference after a request that changes the number of open clock descriptors by d. */
  function Clocked(s: Table, d: int): (r: Table)
    requires s.Valid()
    ensures r.Valid()
  {
    if d > 0 then s.ClockOpened() else if d < 0 then s.ClockClosed() else s
  }

  lemma ClockedFds(s: Table, d: int, n: nat)
    requires s.Valid() && s.threads[s.turn].Started() && 0 <= s.threads[s.turn].Top() < MAX_PROCESSES
    requires s.clocks.FdsOf(s.threads[s.turn].Top()) == n && -1 <= d <= 1 && n + d >= 0
    ensures Clocked(s, d).threads == s.threads && Clocked(s, d).turn == s.turn
    ensures Clocked(s, d).clocks.FdsOf(s.threads[s.turn].Top()) == n + d
  {
  }

  /** sys_open, sys_close and sys_read as a whole, the clock's own handlers included: opening or closing the
      clock, and nothing else, is a step of the running program's clock, and its PCB goes on counting. */
  method Request(table: ProcessTable, fds: D.FdTable, q: D.Request) returns (reply: D.Reply)
    requires Tied(table, fds) && D.Sensible(q)
    modifies table`pcbs, table`model, table.clock, fds
    ensures Tied(table, fds)
    ensures var o := D.Served(fds.img, old(fds.fdt), q);
            && fds.fdt == o.fdt && reply == o.reply
            && table.model == Clocked(old(table.model), D.ClockChange(old(fds.fdt), q, o))
  {
    ghost var o, s := D.Served(fds.img, fds.fdt, q), table.model;
    D.ServedCount(fds.img, fds.fdt, q);
    table.RunningFds();
    ClockedFds(s, D.ClockChange(fds.fdt, q, o), D.ClockCount(fds.fdt, D.FDT_SIZE));
    var d := ServeOne(fds, q);
    reply := d.0;
    StepClock(table, d.1);
  }

  method ServeOne(fds: D.FdTable, q: D.Request) returns (d: (D.Reply, int))
    requires fds.Inv() && D.Sensible(q)
    modifies fds
    ensures fds.Inv()
    ensures var o := D.Served(fds.img, old(fds.fdt), q);
            fds.fdt == o.fdt && d == (o.reply, D.ClockChange(old(fds.fdt), q, o))
  {
    var was := fds.fdt;
    var reply := fds.Serve(q);
    d := (reply, D.ClockChange(was, q, D.Outcome(fds.fdt, reply)));
  }

  /** The handler's open or close, where the clock is concerned. */
  method StepClock(table: ProcessTable, d: int)
    requires table.Inv()
    modifies table`pcbs, table`model, table.clock
    ensures table.Inv() && table.model == Clocked(old(table.model), d)
  {
    if d > 0 {
      table.ClockOpen();
    } else if d < 0 {
      table.ClockClose();
    }
  }

  /** sys_halt finds the clock open exactly if one of the process's descriptors is open on it. */
  lemma OpenClocksCounted(table: ProcessTable, fds: D.FdTable)
    requires Tied(table, fds)
    ensures table.model.clocks.FdsOf(table.model.threads[table.currProcess].Top()) > 0 <==>
              exists fd :: 0 <= fd < D.FDT_SIZE && D.OnClock(fds.fdt[fd])
  {
    SomeClock(fds.fdt, D.FDT_SIZE);
  }

  lemma {:induction false} SomeClock(fdt: seq<D.Fd>, n: nat)
    requires n <= |fdt|
    ensures D.ClockCount(fdt, n) > 0 <==> exists fd :: 0 <= fd < n && D.OnClock(fdt[fd])
  {
    if n > 0 { SomeClock(fdt, n - 1); }
  }
}
