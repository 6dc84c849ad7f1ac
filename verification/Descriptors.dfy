/** File descriptors of one process: sys_open, sys_close and sys_read on files, the directory and the
    clock. Reads of the terminal are the business of module LineEditor. */
module Descriptors {
  import opened Bytes
  import opened FileSystem
  import Strings

  const FDT_SIZE := 8

  datatype Kind = Stdin | Stdout | ClockDevice | DataFile | Directory

  datatype Fd = Fd(kind: Kind, inode: nat, pos: nat, enabled: bool)

  const STDIN := Fd(Stdin, 0, 0, true)
  const STDOUT := Fd(Stdout, 0, 0, true)
  const CLOCK_NAME: seq<Byte> := [114, 116, 99]   // "rtc"

  /** The names of the first n entries, in order. */
  function Names(img: Image, n: nat): seq<seq<Byte>>
    requires n <= |img.entries|
  {
    seq(n, i requires 0 <= i < n => img.Name(i))
  }

  /** A read size as the uint32 that read_data sees. */
  function Unsigned(n: int): (u: nat)
    requires -0x8000_0000 <= n < 0x8000_0000
    ensures u < UINT32
  {
    n % UINT32
  }

  // ---- The reference: flat files, a list of names, and positions ----

  datatype Request = Open(name: seq<Byte>) | Close(fd: int) | Read(fd: int, nbytes: int)

  /** What a request returned to the process; Nothing is a read that returned 0 and no name. */
  datatype Reply =
    | Fresh(fd: int)
    | Data(fd: int, bytes: seq<Byte>)
    | Entry(fd: int, name: seq<Byte>)
    | Closed
    | Nothing
    | Failed

  datatype Outcome = Outcome(fdt: seq<Fd>, reply: Reply)

  /** Requests inside the descriptor table, with 32-bit sizes and NUL-terminated names; reads of the
      terminal are not covered. */
  ghost predicate Sensible(q: Request) {
    match q
    case Open(name) => NUL in name
    case Close(fd) => fd < FDT_SIZE
    case Read(fd, nbytes) => fd < FDT_SIZE && fd != 0 && -0x8000_0000 <= nbytes < 0x8000_0000
  }

  ghost predicate InRange(img: Image, f: Fd) {
    && (f.kind == DataFile && f.inode < |img.inodes| ==> f.pos <= img.inodes[f.inode].length)
    && (f.kind == Directory ==> f.pos <= |img.entries|)
    && f.kind != Stdin && f.kind != Stdout
  }

  /** Descriptors 0 and 1 are the terminal, and no open one is past the end of what it reads. */
  ghost predicate ValidTable(img: Image, fdt: seq<Fd>) {
    && img.Valid() && |fdt| == FDT_SIZE && fdt[0] == STDIN && fdt[1] == STDOUT
    && forall fd :: 2 <= fd < FDT_SIZE && fdt[fd].enabled ==> InRange(img, fdt[fd])
  }

  /** The first closed descriptor from i on, or 8. */
  function FreeFd(fdt: seq<Fd>, i: nat): (fd: nat)
    requires i <= |fdt| == FDT_SIZE
    ensures i <= fd <= FDT_SIZE && (fd < FDT_SIZE ==> !fdt[fd].enabled) && forall j :: i <= j < fd ==> fdt[j].enabled
    decreases FDT_SIZE - i
  {
    if i == FDT_SIZE || !fdt[i].enabled then i else FreeFd(fdt, i + 1)
  }

  /** The descriptor a successful open of `name` installs. */
  function Opened(img: Image, name: seq<Byte>): Fd
    requires Lookup(img, name).Some?
  {
    var entry := img.entries[Lookup(img, name).value];
    var kind := if entry.fileType == 1 then Directory else if name <= CLOCK_NAME then ClockDevice else DataFile;
    Fd(kind, entry.inode, 0, true)
  }

  /** A descriptor after a read through it, and the reply. */
  datatype ReadStep = ReadStep(f: Fd, reply: Reply)

  /** Reading a file delivers the bytes at the position and moves on by as many; reading the directory
      delivers the next name. A file without an inode fails, and its position is counted down. */
  function ReadThrough(img: Image, fd: int, f: Fd, nbytes: int): (o: ReadStep)
    requires img.Valid() && InRange(img, f) && f.enabled && -0x8000_0000 <= nbytes < 0x8000_0000
    ensures InRange(img, o.f) && o.f == f.(pos := o.f.pos)
  {
    match f.kind
    case DataFile =>
      if f.inode >= |img.inodes| then ReadStep(f.(pos := (f.pos - 1) % UINT32), Failed)
      else
        var r := Readable(|img.File(f.inode)|, f.pos, Unsigned(nbytes));
        ReadStep(f.(pos := f.pos + r), Data(fd, img.File(f.inode)[f.pos..f.pos + r]))
    case Directory =>
      if f.pos >= |img.entries| then ReadStep(f, Nothing)
      else ReadStep(f.(pos := f.pos + 1), Entry(fd, img.Name(f.pos)))
    case _ => ReadStep(f, Nothing)
  }

  function Served(img: Image, fdt: seq<Fd>, q: Request): (o: Outcome)
    requires ValidTable(img, fdt) && Sensible(q)
    ensures ValidTable(img, o.fdt)
    ensures o.reply.Fresh? ==> 2 <= o.reply.fd < FDT_SIZE && !fdt[o.reply.fd].enabled
    ensures o.reply.Failed? && !q.Read? ==> o.fdt == fdt
  {
    match q
    case Open(name) =>
      var e, fd := Lookup(img, CStr(name)), FreeFd(fdt, 2);
      if e.None? || fd == FDT_SIZE then Outcome(fdt, Failed)
      else Outcome(fdt[fd := Opened(img, CStr(name))], Fresh(fd))
    case Close(fd) =>
      if fd < 2 || !fdt[fd].enabled then Outcome(fdt, Failed)
      else Outcome(fdt[fd := fdt[fd].(enabled := false)], Closed)
    case Read(fd, nbytes) =>
      if fd < 2 || !fdt[fd].enabled then Outcome(fdt, Failed)
      else
        var o := ReadThrough(img, fd, fdt[fd], nbytes);
        Outcome(fdt[fd := o.f], o.reply)
  }

  ghost predicate AllSensible(requests: seq<Request>) {
    forall i :: 0 <= i < |requests| ==> Sensible(requests[i])
  }

  /** The table after a run of requests. */
  function TableAfter(img: Image, fdt: seq<Fd>, requests: seq<Request>): (r: seq<Fd>)
    requires ValidTable(img, fdt) && AllSensible(requests)
    ensures ValidTable(img, r)
  {
    if requests == [] then fdt
    else Served(img, TableAfter(img, fdt, requests[..|requests| - 1]), requests[|requests| - 1]).fdt
  }

  /** The replies of a run. */
  function Replies(img: Image, fdt: seq<Fd>, requests: seq<Request>): (trace: seq<Reply>)
    requires ValidTable(img, fdt) && AllSensible(requests)
    ensures |trace| == |requests|
  {
    if requests == [] then []
    else
      var front := requests[..|requests| - 1];
      Replies(img, fdt, front) + [Served(img, TableAfter(img, fdt, front), requests[|requests| - 1]).reply]
  }

  /** How many of the first n descriptors are open on the clock. */
  function ClockCount(fdt: seq<Fd>, n: nat): nat
    requires n <= |fdt|
  {
    if n == 0 then 0 else ClockCount(fdt, n - 1) + if OnClock(fdt[n - 1]) then 1 else 0
  }

  predicate OnClock(f: Fd) {
    f.enabled && f.kind == ClockDevice
  }

  lemma {:induction false} CountAfter(fdt: seq<Fd>, n: nat, fd: nat, f: Fd)
    requires n <= |fdt| && fd < |fdt|
    ensures ClockCount(fdt[fd := f], n) ==
            ClockCount(fdt, n) + (if fd < n && OnClock(f) then 1 else 0) - if fd < n && OnClock(fdt[fd]) then 1 else 0
  {
    if n > 0 { CountAfter(fdt, n - 1, fd, f); }
  }

  /** What a request with outcome o does to the number of descriptors open on the clock. */
  function ClockChange(fdt: seq<Fd>, q: Request, o: Outcome): int {
    if o.reply.Fresh? && 0 <= o.reply.fd < |o.fdt| && OnClock(o.fdt[o.reply.fd]) then 1
    else if o.reply.Closed? && q.Close? && 0 <= q.fd < |fdt| && OnClock(fdt[q.fd]) then -1
    else 0
  }

  lemma ServedCount(img: Image, fdt: seq<Fd>, q: Request)
    requires ValidTable(img, fdt) && Sensible(q)
    ensures var o := Served(img, fdt, q);
            ClockCount(o.fdt, FDT_SIZE) == ClockCount(fdt, FDT_SIZE) + ClockChange(fdt, q, o)
  {
    var o := Served(img, fdt, q);
    match q
    case Open(_) => if o.reply.Fresh? { CountAfter(fdt, FDT_SIZE, o.reply.fd, o.fdt[o.reply.fd]); }
    case Close(fd) => if o.reply.Closed? { CountAfter(fdt, FDT_SIZE, fd, o.fdt[fd]); }
    case Read(fd, _) => if fd >= 2 { CountAfter(fdt, FDT_SIZE, fd, o.fdt[fd]); }
  }

  // ---- Chunked reads compose ----

  /** The bytes a trace shows as returned through fd since it was last opened. */
  function Returned(trace: seq<Reply>, fd: int): seq<Byte> {
    if trace == [] then []
    else
      var before := Returned(trace[..|trace| - 1], fd);
      match trace[|trace| - 1]
      case Fresh(g) => if g == fd then [] else before
      case Data(g, bytes) => if g == fd then before + bytes else before
      case _ => before
  }

  function NamesReturned(trace: seq<Reply>, fd: int): seq<seq<Byte>> {
    if trace == [] then []
    else
      var before := NamesReturned(trace[..|trace| - 1], fd);
      match trace[|trace| - 1]
      case Fresh(g) => if g == fd then [] else before
      case Entry(g, name) => if g == fd then before + [name] else before
      case _ => before
  }

  /** What came through a descriptor is the beginning of its file, or of the directory, up to its
      position. */
  ghost predicate Consistent(img: Image, f: Fd, bytes: seq<Byte>, names: seq<seq<Byte>>)
    requires img.Valid() && InRange(img, f)
  {
    && (f.kind == DataFile && f.inode < |img.inodes| ==> bytes == img.File(f.inode)[..f.pos])
    && (f.kind == Directory ==> names == Names(img, f.pos))
  }

  /** What has come through fd after one more reply. */
  function MoreBytes(bytes: seq<Byte>, reply: Reply, fd: int): seq<Byte> {
    match reply
    case Fresh(g) => if g == fd then [] else bytes
    case Data(g, more) => if g == fd then bytes + more else bytes
    case _ => bytes
  }

  function MoreNames(names: seq<seq<Byte>>, reply: Reply, fd: int): seq<seq<Byte>> {
    match reply
    case Fresh(g) => if g == fd then [] else names
    case Entry(g, name) => if g == fd then names + [name] else names
    case _ => names
  }

  lemma ReturnedMore(trace: seq<Reply>, reply: Reply, fd: int)
    ensures Returned(trace + [reply], fd) == MoreBytes(Returned(trace, fd), reply, fd)
    ensures NamesReturned(trace + [reply], fd) == MoreNames(NamesReturned(trace, fd), reply, fd)
  {
    assert (trace + [reply])[..|trace|] == trace;
  }

  /** A read adds to what came through its descriptor. */
  lemma ReadContinues(img: Image, fd: int, f: Fd, nbytes: int, bytes: seq<Byte>, names: seq<seq<Byte>>)
    requires img.Valid() && InRange(img, f) && f.enabled && -0x8000_0000 <= nbytes < 0x8000_0000
    requires Consistent(img, f, bytes, names)
    ensures var o := ReadThrough(img, fd, f, nbytes);
            Consistent(img, o.f, MoreBytes(bytes, o.reply, fd), MoreNames(names, o.reply, fd))
  {
    var o := ReadThrough(img, fd, f, nbytes);
    if o.reply.Data? {
      var file := img.File(f.inode);
      assert file[..f.pos] + o.reply.bytes == file[..f.pos + |o.reply.bytes|];
    } else if o.reply.Entry? {
      assert Names(img, f.pos) + [img.Name(f.pos)] == Names(img, f.pos + 1);
    }
  }

  /** Descriptor fd after a request: read through, closed, opened, or untouched. */
  lemma ServedFd(img: Image, fdt: seq<Fd>, q: Request, fd: int)
    requires ValidTable(img, fdt) && Sensible(q) && 2 <= fd < FDT_SIZE
    ensures var o := Served(img, fdt, q);
            if q.Read? && q.fd == fd && fdt[fd].enabled then
              var step := ReadThrough(img, fd, fdt[fd], q.nbytes); o.fdt[fd] == step.f && o.reply == step.reply
            else if o.reply == Fresh(fd) then
              && !fdt[fd].enabled && q.Open? && Lookup(img, CStr(q.name)).Some? && o.fdt[fd] == Opened(img, CStr(q.name))
            else
              && o.fdt[fd] == fdt[fd].(enabled := o.fdt[fd].enabled) && (o.fdt[fd].enabled ==> fdt[fd].enabled)
              && (o.reply.Data? || o.reply.Entry? ==> o.reply.fd != fd)
  {
  }

  lemma ReplyContinues(img: Image, fdt: seq<Fd>, q: Request, bytes: seq<Byte>, names: seq<seq<Byte>>, fd: int)
    requires ValidTable(img, fdt) && Sensible(q) && 2 <= fd < FDT_SIZE
    requires fdt[fd].enabled ==> Consistent(img, fdt[fd], bytes, names)
    ensures var o := Served(img, fdt, q);
            o.fdt[fd].enabled ==> Consistent(img, o.fdt[fd], MoreBytes(bytes, o.reply, fd), MoreNames(names, o.reply, fd))
  {
    ServedFd(img, fdt, q, fd);
    if q.Read? && q.fd == fd && fdt[fd].enabled {
      ReadContinues(img, fd, fdt[fd], q.nbytes, bytes, names);
    }
  }

  /** Any interleaving of opens, closes and reads over all descriptors of a new process: the bytes that
      came through each open file are that file's beginning up to its position, and the names listed
      through each open directory are its first entries. */
  lemma {:induction false} ReadsConcatenate(img: Image, fdt: seq<Fd>, requests: seq<Request>, fd: int)
    requires ValidTable(img, fdt) && AllSensible(requests)
    requires 2 <= fd < FDT_SIZE && !fdt[fd].enabled && TableAfter(img, fdt, requests)[fd].enabled
    ensures var trace := Replies(img, fdt, requests);
            Consistent(img, TableAfter(img, fdt, requests)[fd], Returned(trace, fd), NamesReturned(trace, fd))
  {
    var front, q := requests[..|requests| - 1], requests[|requests| - 1];
    if TableAfter(img, fdt, front)[fd].enabled {
      ReadsConcatenate(img, fdt, front, fd);
    }
    var trace, was := Replies(img, fdt, front), TableAfter(img, fdt, front);
    ReplyContinues(img, was, q, Returned(trace, fd), NamesReturned(trace, fd), fd);
    ReturnedMore(trace, Served(img, was, q).reply, fd);
  }

  /** The name under which fd was last opened in a run, if it was. */
  function LastOpened(requests: seq<Request>, trace: seq<Reply>, fd: int): Option<seq<Byte>>
    requires |requests| == |trace|
  {
    if requests == [] then None
    else
      var n := |requests| - 1;
      if trace[n] == Fresh(fd) && requests[n].Open? then Some(CStr(requests[n].name))
      else LastOpened(requests[..n], trace[..n], fd)
  }

  /** What may come through a descriptor opened under a name whose first entry is i: the beginning of the
      file that entry points to, or of the list of names for the directory; nothing for the clock. */
  ghost predicate ComesFrom(img: Image, name: seq<Byte>, i: int, bytes: seq<Byte>, names: seq<seq<Byte>>)
    requires img.Valid() && FirstNamed(img, name, i)
  {
    var entry := img.entries[i];
    && (entry.fileType == 1 ==> |names| <= |img.entries| && forall k :: 0 <= k < |names| ==> names[k] == img.Name(k))
    && (entry.fileType != 1 && !(name <= [114, 116, 99]) && entry.inode < |img.inodes| ==> bytes <= img.File(entry.inode))
    && (entry.fileType != 1 ==> names == [])
    && (entry.fileType == 1 || name <= [114, 116, 99] || entry.inode >= |img.inodes| ==> bytes == [])
  }

  /** A descriptor of the entry a name leads to, and what has come through it. */
  ghost predicate OpenedUnder(img: Image, f: Fd, name: seq<Byte>, bytes: seq<Byte>, names: seq<seq<Byte>>)
    requires img.Valid() && InRange(img, f)
  {
    var e := Lookup(img, name);
    && e.Some? && f.inode == Opened(img, name).inode && f.kind == Opened(img, name).kind
    && Consistent(img, f, bytes, names)
    && (f.kind != DataFile || f.inode >= |img.inodes| ==> bytes == []) && (f.kind != Directory ==> names == [])
  }

  lemma UnderNext(img: Image, fdt: seq<Fd>, q: Request, fd: int, name: Option<seq<Byte>>, bytes: seq<Byte>,
                  names: seq<seq<Byte>>)
    requires ValidTable(img, fdt) && Sensible(q) && 2 <= fd < FDT_SIZE
    requires fdt[fd].enabled ==> name.Some? && OpenedUnder(img, fdt[fd], name.value, bytes, names)
    ensures var o := Served(img, fdt, q);
            var now := if o.reply == Fresh(fd) && q.Open? then Some(CStr(q.name)) else name;
            o.fdt[fd].enabled ==>
              now.Some? &&
              OpenedUnder(img, o.fdt[fd], now.value, MoreBytes(bytes, o.reply, fd), MoreNames(names, o.reply, fd))
  {
    ReplyContinues(img, fdt, q, bytes, names, fd);
    ServedFd(img, fdt, q, fd);
  }

  lemma {:induction false} StaysUnder(img: Image, fdt: seq<Fd>, requests: seq<Request>, fd: int)
    requires ValidTable(img, fdt) && AllSensible(requests)
    requires 2 <= fd < FDT_SIZE && !fdt[fd].enabled && TableAfter(img, fdt, requests)[fd].enabled
    ensures var trace := Replies(img, fdt, requests);
            var name := LastOpened(requests, trace, fd);
            name.Some? && OpenedUnder(img, TableAfter(img, fdt, requests)[fd], name.value, Returned(trace, fd),
                                      NamesReturned(trace, fd))
  {
    var n := |requests| - 1;
    var front, q := requests[..n], requests[n];
    var was, before := TableAfter(img, fdt, front), Replies(img, fdt, front);
    var o := Served(img, was, q);
    assert Replies(img, fdt, requests) == before + [o.reply] && (before + [o.reply])[..n] == before;
    if was[fd].enabled { StaysUnder(img, fdt, front, fd); }
    UnderNext(img, was, q, fd, LastOpened(front, before, fd), Returned(before, fd), NamesReturned(before, fd));
    ReturnedMore(before, o.reply, fd);
  }

  /** Whatever the interleaving, what comes through a descriptor comes from the entry whose name was
      opened. */
  lemma OpenLeadsToEntry(img: Image, fdt: seq<Fd>, requests: seq<Request>, fd: int)
    requires ValidTable(img, fdt) && AllSensible(requests)
    requires 2 <= fd < FDT_SIZE && !fdt[fd].enabled && TableAfter(img, fdt, requests)[fd].enabled
    ensures LeadsToEntry(img, requests, Replies(img, fdt, requests), fd)
  {
    StaysUnder(img, fdt, requests, fd);
    var trace := Replies(img, fdt, requests);
    var name := LastOpened(requests, trace, fd).value;
    LookupIsFirst(img, name, 0);
    assert FirstNamed(img, name, Lookup(img, name).value);
    forall i | FirstNamed(img, name, i) ensures ComesFrom(img, name, i, Returned(trace, fd), NamesReturned(trace, fd)) {
      FirstIsLookup(img, name, i);
    }
  }

  ghost predicate LeadsToEntry(img: Image, requests: seq<Request>, trace: seq<Reply>, fd: int)
    requires img.Valid() && |requests| == |trace|
  {
    var name := LastOpened(requests, trace, fd);
    && name.Some? && (exists i :: FirstNamed(img, name.value, i))
    && forall i :: FirstNamed(img, name.value, i) ==>
                     ComesFrom(img, name.value, i, Returned(trace, fd), NamesReturned(trace, fd))
  }

  /** k times n, by addition. */
  function Total(n: nat, k: nat): nat {
    if k == 0 then 0 else Total(n, k - 1) + n
  }

  lemma {:induction false} TotalIsProduct(n: nat, k: nat)
    ensures Total(n, k) == k * n
  {
    if k > 0 {
      TotalIsProduct(n, k - 1);
      assert k * n == (k - 1) * n + n;
    }
  }

  ghost predicate OnFile(img: Image, f: Fd) {
    img.Valid() && InRange(img, f) && f.enabled && f.kind == DataFile && f.inode < |img.inodes|
  }

  /** A read moves on by what is asked for, at most to the end of the file. */
  lemma ReadMoves(img: Image, fd: int, f: Fd, n: nat)
    requires OnFile(img, f) && n < 0x8000_0000
    ensures ReadThrough(img, fd, f, n).f == f.(pos := Min(f.pos + n, img.inodes[f.inode].length))
  {
    ReadableCases(img.inodes[f.inode].length, f.pos, n);
  }

  /** A table whose descriptor fd is f, moved on by a. */
  ghost predicate MovedOn(img: Image, fdt: seq<Fd>, fd: int, f: Fd, a: nat) {
    && ValidTable(img, fdt) && 2 <= fd < FDT_SIZE && OnFile(img, f)
    && fdt[fd] == f.(pos := Min(f.pos + a, img.inodes[f.inode].length))
  }

  lemma MovesOn(img: Image, fdt: seq<Fd>, fd: int, f: Fd, a: nat, n: nat)
    requires MovedOn(img, fdt, fd, f, a) && n < 0x8000_0000
    ensures MovedOn(img, Served(img, fdt, Read(fd, n)).fdt, fd, f, a + n)
  {
    ReadMoves(img, fd, fdt[fd], n);
  }

  /** Reads of n bytes each through fd. */
  ghost predicate ReadsOf(requests: seq<Request>, fd: int, n: nat) {
    forall i :: 0 <= i < |requests| ==> requests[i] == Read(fd, n)
  }

  /** k reads of n bytes each move the position on by k * n bytes, or to the end of the file. */
  lemma {:induction false} ReadsAdvance(img: Image, fdt: seq<Fd>, chunks: seq<Request>, fd: int, n: nat)
    requires ValidTable(img, fdt) && 2 <= fd < FDT_SIZE && OnFile(img, fdt[fd]) && n < 0x8000_0000
    requires ReadsOf(chunks, fd, n)
    ensures MovedOn(img, TableAfter(img, fdt, chunks), fd, fdt[fd], Total(n, |chunks|))
  {
    if chunks == [] {
      assert InRange(img, fdt[fd]);
    } else {
      var front := chunks[..|chunks| - 1];
      ReadsAdvance(img, fdt, front, fd, n);
      MovesOn(img, TableAfter(img, fdt, front), fd, fdt[fd], Total(n, |front|), n);
    }
  }

  /** Descriptor fd is the next to be opened, and the name leads to a data file at entry i. */
  ghost predicate OpensNext(img: Image, fdt: seq<Fd>, name: seq<Byte>, fd: int, i: int) {
    && ValidTable(img, fdt) && NUL in name && 2 <= fd < FDT_SIZE
    && !fdt[fd].enabled && (forall j :: 2 <= j < fd ==> fdt[j].enabled)
    && FirstNamed(img, CStr(name), i) && img.entries[i].fileType == 2 && !(CStr(name) <= [114, 116, 99])
  }

  /** Opening a data file by its name and reading it k times by n bytes delivers exactly its first k * n
      bytes, and so the whole file once k * n is its size. */
  lemma ReadsWholeFile(img: Image, fdt: seq<Fd>, name: seq<Byte>, fd: int, i: int, chunks: seq<Request>, n: nat)
    requires OpensNext(img, fdt, name, fd, i) && img.entries[i].inode < |img.inodes|
    requires n < 0x8000_0000 && ReadsOf(chunks, fd, n)
    ensures var trace, file := Replies(img, fdt, [Open(name)] + chunks), img.File(img.entries[i].inode);
            trace[0] == Fresh(fd) && Returned(trace, fd) == file[..Min(Total(n, |chunks|), |file|)]
  {
    OpensFile(img, fdt, name, fd, i);
    FirstThenRest(img, fdt, Open(name), chunks);
    PosAfter(img, fdt, name, fd, i, chunks, n);
    ReadsConcatenate(img, fdt, [Open(name)] + chunks, fd);
  }

  lemma PosAfter(img: Image, fdt: seq<Fd>, name: seq<Byte>, fd: int, i: int, chunks: seq<Request>, n: nat)
    requires OpensNext(img, fdt, name, fd, i) && img.entries[i].inode < |img.inodes|
    requires n < 0x8000_0000 && ReadsOf(chunks, fd, n)
    ensures var ino := img.entries[i].inode;
            TableAfter(img, fdt, [Open(name)] + chunks)[fd] ==
            Fd(DataFile, ino, Min(Total(n, |chunks|), |img.File(ino)|), true)
  {
    OpensFile(img, fdt, name, fd, i);
    ReadsAdvance(img, Served(img, fdt, Open(name)).fdt, chunks, fd, n);
    FirstThenRest(img, fdt, Open(name), chunks);
  }

  lemma OpensFile(img: Image, fdt: seq<Fd>, name: seq<Byte>, fd: int, i: int)
    requires OpensNext(img, fdt, name, fd, i)
    ensures var o := Served(img, fdt, Open(name));
            o.reply == Fresh(fd) && o.fdt[fd] == Fd(DataFile, img.entries[i].inode, 0, true)
  {
    FirstIsLookup(img, CStr(name), i);
    assert FreeFd(fdt, 2) == fd;
  }

  lemma {:induction false} FirstThenRest(img: Image, fdt: seq<Fd>, q: Request, rest: seq<Request>)
    requires ValidTable(img, fdt) && Sensible(q) && AllSensible(rest)
    ensures TableAfter(img, fdt, [q] + rest) == TableAfter(img, Served(img, fdt, q).fdt, rest)
    ensures Replies(img, fdt, [q] + rest)[0] == Served(img, fdt, q).reply
    decreases |rest|
  {
    var all := [q] + rest;
    if rest == [] {
      assert all[..0] == [] && TableAfter(img, fdt, []) == fdt;
    } else {
      FirstThenRest(img, fdt, q, rest[..|rest| - 1]);
      assert all[..|all| - 1] == [q] + rest[..|rest| - 1];
    }
  }

  /** A request leaves every other open descriptor as it is. */
  lemma OthersUntouched(img: Image, fdt: seq<Fd>, q: Request, fd: int)
    requires ValidTable(img, fdt) && Sensible(q) && 0 <= fd < FDT_SIZE && fdt[fd].enabled
    requires !q.Open? ==> q.fd != fd
    ensures Served(img, fdt, q).fdt[fd] == fdt[fd]
  {
  }

  // ---- The code ----

  /** What a read of the given outcome leaves in the caller's buffer. */
  function BufferAfter(reply: Reply, was: seq<Byte>): seq<Byte>
    requires reply.Data? ==> |reply.bytes| <= |was|
    requires reply.Entry? ==> FILE_NAME_SIZE <= |was|
  {
    match reply
    case Data(_, bytes) => bytes + was[|bytes|..]
    case Entry(_, name) => Strings.Padded(was, 0, name, FILE_NAME_SIZE)
    case _ => was
  }

  function Count(reply: Reply): int {
    match reply
    case Data(_, bytes) => |bytes|
    case Entry(_, name) => |name|
    case Failed => ERROR
    case _ => 0
  }

  class FdTable {
    const img: Image
    var fdt: seq<Fd>

    ghost predicate Inv()
      reads this
    {
      ValidTable(img, fdt)
    }

    /** The table sys_execute sets up. */
    constructor (img: Image)
      requires img.Valid()
      ensures Inv() && this.img == img && forall fd :: 2 <= fd < FDT_SIZE ==> !fdt[fd].enabled
    {
      this.img := img;
      var closed := Fd(DataFile, 0, 0, false);
      fdt := [STDIN, STDOUT, closed, closed, closed, closed, closed, closed];
    }

    /** get_new_fd */
    method NewFd() returns (r: int)
      requires |fdt| == FDT_SIZE
      ensures r == if FreeFd(fdt, 2) == FDT_SIZE then ERROR else FreeFd(fdt, 2)
    {
      r := 2;
      while r < FDT_SIZE
        invariant 2 <= r <= FDT_SIZE && FreeFd(fdt, 2) == FreeFd(fdt, r)
      {
        if !fdt[r].enabled {
          return;
        }
        r := r + 1;
      }
      r := ERROR;
    }

    /** sys_open: succeeds when the name exists and a descriptor is free, and returns the lowest free
        descriptor, at position 0. A name counts as the clock when it is a prefix of "rtc". */
    method SysOpen(filename: seq<Byte>) returns (r: int)
      requires Inv() && NUL in filename
      modifies this
      ensures Inv()
      ensures r == ERROR <==>
                Lookup(img, CStr(filename)).None? || forall fd :: 2 <= fd < FDT_SIZE ==> old(fdt[fd]).enabled
      ensures r == ERROR ==> fdt == old(fdt)
      ensures r != ERROR ==>
                && 2 <= r < FDT_SIZE && !old(fdt)[r].enabled && (forall j :: 2 <= j < r ==> old(fdt)[j].enabled)
                && fdt == old(fdt)[r := Opened(img, CStr(filename))]
    {
      var e := FindEntry(img, filename);
      if e.None? {
        return ERROR;
      }
      var fd := NewFd();
      if fd == ERROR {
        return ERROR;
      }
      var isClock := IsClock(filename);
      var entry := img.entries[e.value];
      var kind := if isClock then ClockDevice else DataFile;
      if entry.fileType == 1 {
        kind := Directory;
      }
      fdt := fdt[0 := STDIN][1 := STDOUT][fd := Fd(kind, entry.inode, 0, true)];
      assert fdt == old(fdt)[fd := Opened(img, CStr(filename))];
      return fd;
    }

    method SysClose(fd: int) returns (r: int)
      requires Inv() && fd < FDT_SIZE
      modifies this`fdt
      ensures Inv()
      ensures r == if fd < 2 || !old(fdt)[fd].enabled then ERROR else 0
      ensures fdt == if r == ERROR then old(fdt) else old(fdt)[fd := old(fdt)[fd].(enabled := false)]
    {
      if fd < 2 || !fdt[fd].enabled {
        return ERROR;
      }
      fdt := fdt[fd := fdt[fd].(enabled := false)];
      return 0;
    }

    /** Room the caller must provide for a read. */
    function Room(fd: int, nbytes: int): nat
      requires img.Valid() && 0 <= fd < |fdt| && -0x8000_0000 <= nbytes < 0x8000_0000
      reads this
    {
      match fdt[fd].kind
      case DataFile =>
        if fdt[fd].inode >= |img.inodes| then 0
        else Readable(img.inodes[fdt[fd].inode].length, fdt[fd].pos, Unsigned(nbytes))
      case Directory => FILE_NAME_SIZE
      case _ => 0
    }

    /** sys_read on anything but the terminal's input: count, buffer and table are those of the
        reference. */
    method SysRead(fd: int, buf: array?<Byte>, nbytes: int) returns (r: int)
      requires Inv() && Sensible(Read(fd, nbytes))
      requires buf != null && fd > 0 ==> Room(fd, nbytes) <= buf.Length
      modifies this, buf
      ensures Inv()
      ensures buf == null ==> r == ERROR && fdt == old(fdt)
      ensures buf != null ==>
                var o := Served(img, old(fdt), Read(fd, nbytes));
                && fdt == o.fdt && r == Count(o.reply)
                && (o.reply.Data? ==> |o.reply.bytes| <= buf.Length)
                && (o.reply.Entry? ==> buf[..r] == o.reply.name && FILE_NAME_SIZE <= buf.Length)
                && buf[..] == BufferAfter(o.reply, old(buf[..]))
    {
      if buf == null || fd < 0 || !fdt[fd].enabled || fd == 1 {
        return ERROR;
      }
      match fdt[fd].kind
      case DataFile => r := FileRead(fd, buf, nbytes);
      case Directory => r := DirectoryRead(fd, buf);
      case _ => r := 0;   // the clock; see Rtc.Clock.Read
    }

    /** file_read */
    method FileRead(fd: int, buf: array<Byte>, nbytes: int) returns (r: int)
      requires Inv() && 2 <= fd < FDT_SIZE && fdt[fd].enabled && fdt[fd].kind == DataFile
      requires -0x8000_0000 <= nbytes < 0x8000_0000 && Room(fd, nbytes) <= buf.Length
      modifies this`fdt, buf
      ensures Inv()
      ensures var f := old(fdt)[fd];
              if f.inode < |img.inodes| then
                && r == Readable(|img.File(f.inode)|, f.pos, Unsigned(nbytes))
                && fdt == old(fdt)[fd := f.(pos := f.pos + r)]
                && buf[..] == img.File(f.inode)[f.pos..f.pos + r] + old(buf[r..])
              else
                && r == ERROR && fdt == old(fdt)[fd := f.(pos := (f.pos - 1) % UINT32)]
                && buf[..] == old(buf[..])
    {
      var f := fdt[fd];
      ghost var was, touched := buf[..], {};
      r, touched := ReadData(img, f.inode, f.pos, buf, Unsigned(nbytes));
      if f.inode < |img.inodes| {
        FilledIsSlice(was, img, f.inode, f.pos, r);
        assert buf[..] == buf[..r] + buf[r..];
        InFile(f, r);
      }
      fdt := fdt[fd := f.(pos := (f.pos + r) % UINT32)];
    }

    /** Positions in a file never wrap around. */
    lemma InFile(f: Fd, r: nat)
      requires img.Valid() && f.inode < |img.inodes| && f.pos + r <= img.inodes[f.inode].length
      ensures (f.pos + r) % UINT32 == f.pos + r
    {
      assert img.ValidInode(img.inodes[f.inode]);
    }

    /** dir_read */
    method DirectoryRead(fd: int, buf: array<Byte>) returns (r: int)
      requires Inv() && 2 <= fd < FDT_SIZE && fdt[fd].enabled && fdt[fd].kind == Directory && buf.Length >= FILE_NAME_SIZE
      modifies this`fdt, buf
      ensures Inv()
      ensures var f := old(fdt)[fd];
              if f.pos < |img.entries| then
                && r == |img.Name(f.pos)| && buf[..r] == img.Name(f.pos)
                && buf[..] == Strings.Padded(old(buf[..]), 0, img.Name(f.pos), FILE_NAME_SIZE)
                && fdt == old(fdt)[fd := f.(pos := f.pos + 1)]
              else r == 0 && fdt == old(fdt) && buf[..] == old(buf[..])
    {
      var f := fdt[fd];
      var pos;
      r, pos := DirRead(img, f.pos, buf);
      fdt := fdt[fd := f.(pos := pos)];
    }

    /** Reading an open directory k times from its start lists every name once, in order, and from then
        on returns 0. */
    method ListDirectory(fd: int, k: nat) returns (names: seq<seq<Byte>>)
      requires Inv() && 2 <= fd < FDT_SIZE && fdt[fd] == Fd(Directory, fdt[fd].inode, 0, true)
      modifies this`fdt
      ensures Inv() && |names| == k
      ensures forall i :: 0 <= i < k ==> names[i] == if i < |img.entries| then img.Name(i) else []
    {
      names := [];
      while |names| < k
        invariant Inv() && |names| <= k
        invariant fdt[fd] == Fd(Directory, fdt[fd].inode, Min(|names|, |img.entries|), true)
        invariant forall i :: 0 <= i < |names| ==> names[i] == if i < |img.entries| then img.Name(i) else []
      {
        var buf := new Byte[FILE_NAME_SIZE](_ => NUL);
        var n := DirectoryRead(fd, buf);
        names := names + [buf[..n]];
      }
    }

    /** Any interleaving of opens, closes and reads over all descriptors is a run of the reference, reply
        by reply. So what came through each file opened meanwhile is the beginning of that file. */
    method Run(requests: seq<Request>) returns (trace: seq<Reply>)
      requires Inv() && AllSensible(requests)
      modifies this
      ensures Inv() && fdt == TableAfter(img, old(fdt), requests) && trace == Replies(img, old(fdt), requests)
      ensures forall fd :: 2 <= fd < FDT_SIZE && !old(fdt)[fd].enabled && fdt[fd].enabled ==>
                && Consistent(img, fdt[fd], Returned(trace, fd), NamesReturned(trace, fd))
                && LeadsToEntry(img, requests, trace, fd)
    {
      ghost var was := fdt;
      trace := [];
      var i := 0;
      while i < |requests|
        invariant 0 <= i <= |requests| && Inv() && AllSensible(requests[..i])
        invariant fdt == TableAfter(img, was, requests[..i]) && trace == Replies(img, was, requests[..i])
      {
        assert requests[..i + 1][..i] == requests[..i];
        var reply := Serve(requests[i]);
        trace := trace + [reply];
        i := i + 1;
      }
      assert requests[..i] == requests;
      forall fd | 2 <= fd < FDT_SIZE && !was[fd].enabled && fdt[fd].enabled
        ensures Consistent(img, fdt[fd], Returned(trace, fd), NamesReturned(trace, fd))
        ensures LeadsToEntry(img, requests, trace, fd)
      {
        ReadsConcatenate(img, was, requests, fd);
        OpenLeadsToEntry(img, was, requests, fd);
      }
    }

    /** One request, with a buffer of the size it needs. */
    method Serve(q: Request) returns (reply: Reply)
      requires Inv() && Sensible(q)
      modifies this
      ensures Inv() && Outcome(fdt, reply) == Served(img, old(fdt), q)
    {
      match q {
        case Open(name) =>
          var fd := SysOpen(name);
          reply := if fd == ERROR then Failed else Fresh(fd);
          OpenedFd(img, old(fdt), CStr(name), fd);
        case Close(fd) =>
          var r := SysClose(fd);
          reply := if r == ERROR then Failed else Closed;
        case Read(fd, nbytes) =>
          reply := ServeRead(fd, nbytes);
      }
    }

    method ServeRead(fd: int, nbytes: int) returns (reply: Reply)
      requires Inv() && Sensible(Read(fd, nbytes))
      modifies this
      ensures Inv() && Outcome(fdt, reply) == Served(img, old(fdt), Read(fd, nbytes))
    {
      var buf := new Byte[if fd < 0 then 0 else Room(fd, nbytes)](_ => NUL);
      var kind := if fd < 0 then Stdin else fdt[fd].kind;
      var more := fd >= 0 && fdt[fd].pos < |img.entries|;
      var n := SysRead(fd, buf, nbytes);
      if n == ERROR {
        reply := Failed;
      } else if kind == DataFile {
        reply := Data(fd, buf[..n]);
      } else if kind == Directory && more {
        reply := Entry(fd, buf[..n]);
      } else {
        reply := Nothing;
      }
    }
  }

  /** sys_open picks the reference's descriptor. */
  lemma OpenedFd(img: Image, fdt: seq<Fd>, name: seq<Byte>, r: int)
    requires |fdt| == FDT_SIZE
    requires r == ERROR <==> Lookup(img, name).None? || forall fd :: 2 <= fd < FDT_SIZE ==> fdt[fd].enabled
    requires r != ERROR ==> 2 <= r < FDT_SIZE && !fdt[r].enabled && forall j :: 2 <= j < r ==> fdt[j].enabled
    ensures r == ERROR <==> Lookup(img, name).None? || FreeFd(fdt, 2) == FDT_SIZE
    ensures r != ERROR ==> r == FreeFd(fdt, 2)
  {
  }

  /** sys_open's test for the clock. */
  method IsClock(filename: seq<Byte>) returns (b: bool)
    requires NUL in filename
    ensures b <==> CStr(filename) <= CLOCK_NAME
  {
    var len := Strings.Strlen(filename);
    PrefixCompare(filename);
    var cmp := Strings.Strncmp(filename, CLOCK_NAME + [NUL], len);
    b := cmp == 0;
  }

  /** The comparison over strlen(filename) bytes finds exactly the prefixes of "rtc". */
  lemma PrefixCompare(filename: seq<Byte>)
    requires NUL in filename
    ensures var n, clock := |CStr(filename)|, CLOCK_NAME + [NUL];
            CStr(filename[..Min(n, |filename|)]) == CStr(clock[..Min(n, |clock|)]) <==> CStr(filename) <= CLOCK_NAME
  {
    var n, clock := |CStr(filename)|, CLOCK_NAME + [NUL];
    assert filename[..n] == CStr(filename);
    CStrUnique(filename[..n], n);
    if n <= 3 {
      assert clock[..n] == CLOCK_NAME[..n];
      CStrUnique(clock[..n], n);
      assert filename[..n] <= CLOCK_NAME <==> filename[..n] == CLOCK_NAME[..n];
    } else {
      CStrUnique(clock[..Min(n, 4)], 3);
    }
  }

  /** A file system with nothing but an empty data file named "r". */
  const R_IMAGE := Image([DirEntry([114] + Fill(NUL, 31), 2, 0)], [Inode(0, seq(INODE_BLOCKS, _ => 0))], [])

  /** For example, opening a data file named "r" opens the clock. */
  lemma OpeningRIsClock()
    ensures R_IMAGE.Valid() && Lookup(R_IMAGE, [114]) == Some(0)
    ensures Opened(R_IMAGE, [114]).kind == ClockDevice
  {
    CStrUnique([114] + Fill(NUL, 31), 1);
    assert R_IMAGE.ValidInode(R_IMAGE.inodes[0]);
    assert [114] == CLOCK_NAME[..1];
  }

  /** Every listed name can be looked up, and finds the first entry of that name. */
  lemma ListedNamesAreFound(img: Image, n: nat, i: nat)
    requires img.Valid() && n <= |img.entries| && i < n
    ensures Lookup(img, Names(img, n)[i]).Some? && Lookup(img, Names(img, n)[i]).value <= i
  {
    LookupIsFirst(img, Names(img, n)[i], 0);
  }
}
