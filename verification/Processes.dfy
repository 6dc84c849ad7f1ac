/** The process table of system_calls.c and the context switch of pit.c: PCBs, used_pids, the program
    page, the TSS stack pointer and the terminals' bookkeeping, proved to implement the independent
    threads of module Threads. System calls are atomic here. */
module Processes {
  import opened Bytes
  import opened Threads
  import Rtc

  const PCB_8KB_MASK := 0x7F_E000
  const USER_ESP := 0x840_0000 - 4

  /** The scheduling part of pcb_t. clockFds counts its open descriptors on the clock. */
  datatype Pcb = Pcb(pid: int, parPid: int, parPcb: int, parEsp: int, esp: int, clockFds: nat)

  const ZERO_PCB := Pcb(0, 0, 0, 0, 0, 0)

  function FdsOf(pcbs: seq<Pcb>): (f: seq<nat>)
    ensures |f| == |pcbs|
  {
    seq(|pcbs|, i requires 0 <= i < |pcbs| => pcbs[i].clockFds)
  }

  // ---- Addresses ----

  /** The page_directory address field for process p: 4 MB pages starting at 8 MB. */
  function ProgramFrame(p: int): int {
    (p + 2) * 1024
  }

  lemma {:induction false} BitAndOnes(x: nat, k: nat)
    requires x < Pow2(k)
    ensures BitAnd(x, Pow2(k) - 1) == x
  {
    if k > 0 && x > 0 {
      assert (Pow2(k) - 1) / 2 == Pow2(k - 1) - 1 && (Pow2(k) - 1) % 2 == 1;
      BitAndOnes(x / 2, k - 1);
    }
  }

  lemma BitAndEven(x: nat, m: nat)
    ensures BitAnd(x, 2 * m) == 2 * BitAnd(x / 2, m)
  {
  }

  lemma BitAndBy4(x: nat, m: nat)
    ensures BitAnd(x, 4 * m) == 4 * BitAnd(x / 4, m)
  {
    BitAndEven(x, 2 * m);
    BitAndEven(x / 2, m);
    assert x / 2 / 2 == x / 4;
  }

  lemma BitAndBy64(x: nat, m: nat)
    ensures BitAnd(x, 64 * m) == 64 * BitAnd(x / 64, m)
  {
    BitAndBy4(x, 16 * m);
    BitAndBy4(x / 4, 4 * m);
    BitAndBy4(x / 16, m);
    assert x / 4 / 4 == x / 16 && x / 16 / 4 == x / 64;
  }

  /** Below 8 MB the mask clears exactly the low 13 bits. */
  lemma MaskClearsOffset(esp: nat)
    requires esp < KERNEL_TOP
    ensures BitAnd(esp, PCB_8KB_MASK) == esp / KERNEL_STACK * KERNEL_STACK
  {
    BitAndBy64(esp, 64 * (2 * 0x3FF));
    BitAndBy64(esp / 64, 2 * 0x3FF);
    BitAndEven(esp / 64 / 64, 0x3FF);
    assert esp / 64 / 64 / 2 == esp / KERNEL_STACK;
    TenOnes(esp / KERNEL_STACK);
  }

  lemma TenOnes(x: nat)
    requires x < 1024
    ensures BitAnd(x, 0x3FF) == x
  {
    assert Pow2(5) == 32;
    PowAdd(5, 5);
    BitAndOnes(x, 10);
  }

  /** Masking any stack pointer in stack p gives the PCB of p, and that address gives p back. */
  lemma MaskFindsPcb(p: nat, esp: nat)
    requires p < 1024 && InStack(p, esp)
    ensures BitAnd(esp, PCB_8KB_MASK) == PcbAddr(p) && PidAt(PcbAddr(p)) == p
  {
    MaskClearsOffset(esp);
  }

  lemma {:induction false} PowMask(k: nat)
    ensures BitAnd(Pow2(k), Pow2(k) - 1) == 0
  {
    if k > 0 {
      PowMask(k - 1);
      assert (Pow2(k) - 1) / 2 == Pow2(k - 1) - 1 && Pow2(k) / 2 == Pow2(k - 1);
    }
  }

  lemma OneHighBit(x: nat)
    requires x == 1024
    ensures BitAnd(x, 0x3FF) == 0
  {
    assert Pow2(5) == 32;
    PowAdd(5, 5);
    PowMask(10);
  }

  /** The mask clears the top of kernel memory altogether. */
  lemma TopMasked(x: nat)
    requires x == KERNEL_TOP
    ensures BitAnd(x, PCB_8KB_MASK) == 0
  {
    BitAndBy64(x, 64 * (2 * 0x3FF));
    BitAndBy64(x / 64, 2 * 0x3FF);
    BitAndEven(x / 64 / 64, 0x3FF);
    OneHighBit(x / 64 / 64 / 2);
  }

  /** Below tss.esp0 of process p lies its whole kernel stack: from there down, through all 8 KB, the mask
      leads to PCB p, and a word higher it does not. */
  lemma EntryIsTopOfStack(p: nat, entry: nat, a: nat)
    requires p < MAX_PROCESSES && entry == StackTop(p) && entry - 0x1FFC <= a <= entry
    ensures entry == 0x7F_FFFC - 0x2000 * p && PcbAddr(p) == 0x80_0000 - 0x2000 * (p + 1)
    ensures BitAnd(a, PCB_8KB_MASK) == PcbAddr(p) && BitAnd(entry + 4, PCB_8KB_MASK) != PcbAddr(p)
  {
    MaskFindsPcb(p, a);
    if p == 0 { TopMasked(entry + 4); } else { MaskFindsPcb(p - 1, entry + 4); }
  }

  /** All addresses of the stack below the entry pointer. */
  ghost predicate StackOf(p: int, entry: int) {
    && 0 <= p < MAX_PROCESSES && entry == 0x7F_FFFC - 0x2000 * p
    && (forall a: nat :: entry - 0x1FFC <= a <= entry ==> BitAnd(a, PCB_8KB_MASK) == 0x80_0000 - 0x2000 * (p + 1))
    && BitAnd(entry + 4, PCB_8KB_MASK) != 0x80_0000 - 0x2000 * (p + 1)
  }

  lemma WholeStack(p: nat)
    requires p < MAX_PROCESSES
    ensures StackOf(p, StackTop(p))
  {
    EntryIsTopOfStack(p, StackTop(p), StackTop(p));
    forall a: nat | StackTop(p) - 0x1FFC <= a <= StackTop(p)
      ensures BitAnd(a, PCB_8KB_MASK) == 0x80_0000 - 0x2000 * (p + 1)
    {
      EntryIsTopOfStack(p, StackTop(p), a);
    }
  }

  /** Program p has the 4 MB of physical memory that begin 4 MB * p after the first 8 MB. */
  lemma ProgramPage(p: nat)
    ensures ProgramFrame(p) * 0x1000 == 0x80_0000 + 0x40_0000 * p
  {
  }

  /** The index of the PCB at an address get_pcb_by_pid can return. */
  function PidAt(addr: int): int {
    (KERNEL_TOP - addr) / KERNEL_STACK - 1
  }

  // ---- How PCBs and used_pids represent the chains ----

  /** A process table seen by the proof: used_pids, the PCBs, and where in the chains each used pid sits. */
  datatype Rep = Rep(used: seq<bool>, pcbs: seq<Pcb>, places: seq<(int, int)>) {
    predicate Sized() {
      |used| == |pcbs| == |places| == MAX_PROCESSES
    }

    function With(p: int, live: bool, pcb: Pcb, place: (int, int)): (r: Rep)
      requires Sized() && 0 <= p < MAX_PROCESSES
      ensures r.Sized()
    {
      Rep(used[p := live], pcbs[p := pcb], places[p := place])
    }
  }

  /** Entry i of terminal t's chain agrees with its PCB. */
  ghost predicate EntryOk(r: Rep, chain: seq<Program>, t: int, i: int)
    requires r.Sized() && 0 <= i < |chain|
  {
    var p := chain[i].pid;
    && 0 <= p < MAX_PROCESSES && r.used[p] && r.places[p] == (t, i) && r.pcbs[p].pid == p
    && if i == 0 then p == t && r.pcbs[p].parPid == t
       else
         var parent := chain[i - 1].pid;
         && p >= NUM_TERMINALS && r.pcbs[p].parPid == parent && r.pcbs[p].parPcb == PcbAddr(parent)
         && r.pcbs[p].parEsp == chain[i].parEsp && InStack(parent, chain[i].parEsp)
  }

  ghost predicate ChainOk(r: Rep, chain: seq<Program>, t: int)
    requires r.Sized()
  {
    forall i :: 0 <= i < |chain| ==> EntryOk(r, chain, t, i)
  }

  ghost predicate Owned(r: Rep, threads: seq<Thread>, p: int)
    requires r.Sized() && 0 <= p < MAX_PROCESSES && |threads| == NUM_TERMINALS
  {
    var (t, i) := r.places[p];
    0 <= t < NUM_TERMINALS && 0 <= i < |threads[t].chain| && threads[t].chain[i].pid == p
  }

  /** used_pids is the disjoint union of the three parent chains. */
  ghost predicate Represents(r: Rep, threads: seq<Thread>) {
    && r.Sized() && |threads| == NUM_TERMINALS
    && ChainOk(r, threads[0].chain, 0) && ChainOk(r, threads[1].chain, 1) && ChainOk(r, threads[2].chain, 2)
    && forall p :: 0 <= p < MAX_PROCESSES && r.used[p] ==> Owned(r, threads, p)
  }

  lemma EntryAt(r: Rep, threads: seq<Thread>, t: int, i: int)
    requires Represents(r, threads) && 0 <= t < NUM_TERMINALS && 0 <= i < |threads[t].chain|
    ensures EntryOk(r, threads[t].chain, t, i)
  {
  }

  lemma UsedIs(r: Rep, s: Table)
    requires s.Valid() && Represents(r, s.threads)
    ensures r.used == s.Used()
  {
    forall p | 0 <= p < MAX_PROCESSES ensures r.used[p] == s.Used()[p] {
      UsedIffInUse(r, s, p);
    }
  }

  lemma UsedIffInUse(r: Rep, s: Table, p: int)
    requires s.Valid() && Represents(r, s.threads) && 0 <= p < MAX_PROCESSES
    ensures r.used[p] <==> s.InUse(p)
  {
    if r.used[p] {
      assert Owned(r, s.threads, p);
      var (t, i) := r.places[p];
      assert Runs(s.threads[t].chain, p);
    }
    if s.InUse(p) {
      var t :| 0 <= t < NUM_TERMINALS && Runs(s.threads[t].chain, p);
      var chain := s.threads[t].chain;
      assert Runs(chain, p);
      var i :| 0 <= i < |chain| && chain[i].pid == p;
      EntryAt(r, s.threads, t, i);
    }
  }

  /** A representation that agrees with r on every entry of the new chains still represents them. */
  lemma Carries(r: Rep, r': Rep, threads: seq<Thread>, threads': seq<Thread>)
    requires Represents(r, threads) && r'.Sized() && |threads'| == NUM_TERMINALS
    requires forall t, i :: 0 <= t < NUM_TERMINALS && 0 <= i < |threads'[t].chain| ==>
                              EntryOk(r', threads'[t].chain, t, i)
    requires forall p :: 0 <= p < MAX_PROCESSES && r'.used[p] ==> Owned(r', threads', p)
    ensures Represents(r', threads')
  {
  }

  /** Fields that only scheduling and descriptors use may change freely. */
  lemma SchedulingFieldsFree(r: Rep, threads: seq<Thread>, p: int, esp: int, fds: nat)
    requires Represents(r, threads) && 0 <= p < MAX_PROCESSES
    ensures Represents(r.(pcbs := r.pcbs[p := r.pcbs[p].(esp := esp, clockFds := fds)]), threads)
  {
    var r' := r.(pcbs := r.pcbs[p := r.pcbs[p].(esp := esp, clockFds := fds)]);
    forall t, i | 0 <= t < NUM_TERMINALS && 0 <= i < |threads[t].chain| ensures EntryOk(r', threads[t].chain, t, i) {
      EntryAt(r, threads, t, i);
    }
    forall q | 0 <= q < MAX_PROCESSES && r'.used[q] ensures Owned(r', threads, q) {
      assert Owned(r, threads, q);
    }
  }

  /** Stack pointers of the threads are not part of the representation. */
  lemma StackPointersFree(r: Rep, threads: seq<Thread>, t: int, sp: int)
    requires Represents(r, threads) && 0 <= t < NUM_TERMINALS
    ensures Represents(r, threads[t := threads[t].(sp := sp)])
  {
    var now := threads[t := threads[t].(sp := sp)];
    forall p | 0 <= p < MAX_PROCESSES && r.used[p] ensures Owned(r, now, p) {
      assert Owned(r, threads, p);
    }
  }

  lemma PushRepresents(r: Rep, threads: seq<Thread>, t: int, p: int, pcb: Pcb, sp: int)
    requires Represents(r, threads) && 0 <= t < NUM_TERMINALS && threads[t].Started()
    requires NUM_TERMINALS <= p < MAX_PROCESSES && !r.used[p] && pcb.pid == p
    requires pcb.parPid == threads[t].Top() && pcb.parPcb == PcbAddr(pcb.parPid) && InStack(pcb.parPid, pcb.parEsp)
    ensures var chain := threads[t].chain;
            Represents(r.With(p, true, pcb, (t, |chain|)), threads[t := Thread(chain + [Program(p, pcb.parEsp)], sp)])
  {
    var chain := threads[t].chain;
    var r', now := r.With(p, true, pcb, (t, |chain|)), threads[t := Thread(chain + [Program(p, pcb.parEsp)], sp)];
    forall q | 0 <= q < MAX_PROCESSES && r'.used[q] ensures Owned(r', now, q) {
      if q != p { assert Owned(r, threads, q); }
    }
    forall u, i | 0 <= u < NUM_TERMINALS && 0 <= i < |now[u].chain| ensures EntryOk(r', now[u].chain, u, i) {
      if i < |threads[u].chain| {
        EntryAt(r, threads, u, i);
      } else {
        EntryAt(r, threads, t, |chain| - 1);
      }
    }
    Carries(r, r', threads, now);
  }

  lemma PopRepresents(r: Rep, threads: seq<Thread>, t: int, pcb: Pcb, sp: int)
    requires Represents(r, threads) && 0 <= t < NUM_TERMINALS && |threads[t].chain| > 1
    ensures var p, n := threads[t].Top(), |threads[t].chain| - 1;
            0 <= p < MAX_PROCESSES &&
            Represents(r.With(p, false, pcb, r.places[p]), threads[t := Thread(threads[t].chain[..n], sp)])
  {
    var p, n := threads[t].Top(), |threads[t].chain| - 1;
    EntryAt(r, threads, t, n);
    var r', now := r.With(p, false, pcb, r.places[p]), threads[t := Thread(threads[t].chain[..n], sp)];
    forall q | 0 <= q < MAX_PROCESSES && r'.used[q] ensures Owned(r', now, q) {
      assert Owned(r, threads, q);
    }
    forall u, i | 0 <= u < NUM_TERMINALS && 0 <= i < |now[u].chain| ensures EntryOk(r', now[u].chain, u, i) {
      EntryAt(r, threads, u, i);
    }
    Carries(r, r', threads, now);
  }

  /** A root shell, new or restarted. */
  lemma RootRepresents(r: Rep, threads: seq<Thread>, t: int, pcb: Pcb)
    requires Represents(r, threads) && 0 <= t < NUM_TERMINALS && |threads[t].chain| <= 1
    requires pcb.pid == t && pcb.parPid == t
    requires threads[t].Started() || !r.used[t]
    ensures Represents(r.With(t, true, pcb, (t, 0)), threads[t := Root(t)])
  {
    var r', now := r.With(t, true, pcb, (t, 0)), threads[t := Root(t)];
    if threads[t].Started() { EntryAt(r, threads, t, 0); }
    forall q | 0 <= q < MAX_PROCESSES && r'.used[q] ensures Owned(r', now, q) {
      if q != t { assert Owned(r, threads, q); }
    }
    forall u, i | 0 <= u < NUM_TERMINALS && 0 <= i < |now[u].chain| ensures EntryOk(r', now[u].chain, u, i) {
      if u != t { EntryAt(r, threads, u, i); }
    }
    Carries(r, r', threads, now);
  }

  /** Until all three shells run, they start in the order of the terminals and nothing is nested. */
  ghost predicate BootOrder(s: Table)
    requires s.Valid()
  {
    s.AllStarted() ||
    (&& |s.threads[0].chain| <= 1 && |s.threads[1].chain| <= 1 && !s.threads[2].Started()
     && if s.threads[1].Started() then s.threads[0].Started() && s.turn == 1
        else if s.threads[0].Started() then s.turn == 0
        else s.turn == 2)
  }

  /** Terminal t's bookkeeping and, unless it has its turn, its saved context. */
  ghost predicate TerminalOk(pcbs: seq<Pcb>, s: Table, currPid: seq<int>, parPid: seq<int>, t: int)
    requires s.Valid() && 0 <= t < NUM_TERMINALS && |currPid| == |parPid| == NUM_TERMINALS && |pcbs| == MAX_PROCESSES
  {
    var th := s.threads[t];
    if !th.Started() then currPid[t] == -1 else
    && 0 <= th.Top() < MAX_PROCESSES
    && currPid[t] == th.Top() && parPid[t] == pcbs[th.Top()].parPid
    && InStack(th.Top(), th.sp)
    && (t != s.turn ==> pcbs[th.Top()].esp == th.sp)
  }

  /** Everything the tables say about the threads; the processor's registers and the clock apart. */
  ghost predicate TablesOk(r: Rep, s: Table, currPid: seq<int>, parPid: seq<int>) {
    && s.Valid() && |currPid| == |parPid| == NUM_TERMINALS
    && Represents(r, s.threads)
    && TerminalOk(r.pcbs, s, currPid, parPid, 0)
    && TerminalOk(r.pcbs, s, currPid, parPid, 1)
    && TerminalOk(r.pcbs, s, currPid, parPid, 2)
    && BootOrder(s)
  }

  /** The tables do not depend on what the reference says of the clock. */
  lemma ClocksFree(r: Rep, s: Table, cp: seq<int>, pp: seq<int>, s': Table)
    requires TablesOk(r, s, cp, pp) && s'.Valid() && s'.threads == s.threads && s'.turn == s.turn
    ensures TablesOk(r, s', cp, pp)
  {
  }

  /** A root's pid is used exactly when its shell has started. */
  lemma RootUsed(r: Rep, threads: seq<Thread>, t: int)
    requires Represents(r, threads) && 0 <= t < NUM_TERMINALS
    ensures r.used[t] <==> threads[t].Started()
  {
    if r.used[t] {
      assert Owned(r, threads, t);
      var (u, i) := r.places[t];
      EntryAt(r, threads, u, i);
    }
    if threads[t].Started() { EntryAt(r, threads, t, 0); }
  }

  lemma TopUsed(r: Rep, threads: seq<Thread>, t: int)
    requires Represents(r, threads) && 0 <= t < NUM_TERMINALS && threads[t].Started()
    ensures var p := threads[t].Top();
            && 0 <= p < MAX_PROCESSES && r.used[p] && r.pcbs[p].pid == p
            && r.places[p] == (t, |threads[t].chain| - 1)
  {
    EntryAt(r, threads, t, |threads[t].chain| - 1);
  }

  lemma PushTables(r: Rep, s: Table, currPid: seq<int>, parPid: seq<int>, p: int, pcb: Pcb)
    requires TablesOk(r, s, currPid, parPid) && s.AllStarted()
    requires p == s.FreeFrom(0) < MAX_PROCESSES && !r.used[p]
    requires pcb.pid == p && pcb.parPid == s.threads[s.turn].Top() && pcb.parPcb == PcbAddr(pcb.parPid)
    requires pcb.parEsp == s.threads[s.turn].sp
    ensures TablesOk(r.With(p, true, pcb, (s.turn, |s.threads[s.turn].chain|)), s.Executed(true),
                     currPid[s.turn := p], parPid[s.turn := pcb.parPid])
  {
    var t := s.turn;
    RootUsed(r, s.threads, 0);
    RootUsed(r, s.threads, 1);
    RootUsed(r, s.threads, 2);
    TopUsed(r, s.threads, 0);
    TopUsed(r, s.threads, 1);
    TopUsed(r, s.threads, 2);
    PushRepresents(r, s.threads, t, p, pcb, StackTop(p));
  }

  /** The ordinary context switch: the running program's stack pointer goes into its PCB. */
  lemma SwitchTables(r: Rep, s: Table, currPid: seq<int>, parPid: seq<int>)
    requires TablesOk(r, s, currPid, parPid)
    requires s.threads[s.turn].Started() && s.threads[(s.turn + 1) % NUM_TERMINALS].Started()
    ensures var p, sp := s.threads[s.turn].Top(), s.threads[s.turn].sp;
            && 0 <= p < MAX_PROCESSES
            && TablesOk(r.(pcbs := r.pcbs[p := r.pcbs[p].(esp := sp)]), s.Ticked(), currPid, parPid)
  {
    var t := s.turn;
    TopUsed(r, s.threads, t);
    var p := s.threads[t].Top();
    SchedulingFieldsFree(r, s.threads, p, s.threads[t].sp, r.pcbs[p].clockFds);
    OtherTops(r, s);
  }

  ghost predicate DifferentTops(s: Table, t: int, u: int)
    requires s.Valid() && 0 <= t < NUM_TERMINALS && 0 <= u < NUM_TERMINALS
  {
    s.threads[t].Started() && s.threads[u].Started() ==> s.threads[t].Top() != s.threads[u].Top()
  }

  /** Programs on top of different terminals are different. */
  lemma OtherTops(r: Rep, s: Table)
    requires s.Valid() && Represents(r, s.threads)
    ensures DifferentTops(s, 0, 1) && DifferentTops(s, 0, 2) && DifferentTops(s, 1, 2)
  {
    forall t | 0 <= t < NUM_TERMINALS && s.threads[t].Started()
      ensures 0 <= s.threads[t].Top() < MAX_PROCESSES && r.places[s.threads[t].Top()].0 == t
    {
      TopUsed(r, s.threads, t);
    }
  }

  /** A terminal's first shell. The stack pointer of the program interrupted, if any, has been saved in
      the PCB of the root of its terminal. */
  lemma BootTables(r: Rep, s: Table, currPid: seq<int>, parPid: seq<int>, pcb: Pcb)
    requires TablesOk(r, s, currPid, parPid)
    requires var n := (s.turn + 1) % NUM_TERMINALS; !s.threads[n].Started() && pcb.pid == n && pcb.parPid == n
    ensures var n, sp := (s.turn + 1) % NUM_TERMINALS, s.threads[s.turn].sp;
            var saved := if n == 0 then r.pcbs else r.pcbs[s.turn := r.pcbs[s.turn].(esp := sp)];
            TablesOk(r.(pcbs := saved).With(n, true, pcb, (n, 0)), s.Ticked(), currPid[n := n], parPid[n := n])
  {
    var t, n := s.turn, (s.turn + 1) % NUM_TERMINALS;
    RootUsed(r, s.threads, n);
    if n != 0 {
      SchedulingFieldsFree(r, s.threads, t, s.threads[t].sp, r.pcbs[t].clockFds);
      EntryAt(r, s.threads, t, 0);
    }
    var saved := if n == 0 then r.pcbs else r.pcbs[t := r.pcbs[t].(esp := s.threads[t].sp)];
    RootRepresents(r.(pcbs := saved), s.threads, n, pcb);
    if s.threads[0].Started() { EntryAt(r, s.threads, 0, 0); }
    if s.threads[1].Started() { EntryAt(r, s.threads, 1, 0); }
  }

  /** The first shell of the next terminal finds its own number as the lowest free pid. */
  lemma NextRootIsFree(r: Rep, s: Table)
    requires s.Valid() && Represents(r, s.threads) && BootOrder(s) && !s.threads[(s.turn + 1) % NUM_TERMINALS].Started()
    ensures LowestFree(r.used, (s.turn + 1) % NUM_TERMINALS)
  {
    RootUsed(r, s.threads, 0);
    RootUsed(r, s.threads, 1);
    RootUsed(r, s.threads, 2);
  }

  lemma RestartTables(r: Rep, s: Table, currPid: seq<int>, parPid: seq<int>, pcb: Pcb, h: Table)
    requires TablesOk(r, s, currPid, parPid) && |s.threads[s.turn].chain| == 1 && h == s.Halted()
    requires pcb.pid == s.turn && pcb.parPid == s.turn
    ensures var t := s.turn;
            && TablesOk(r.With(t, true, pcb, (t, 0)), h, currPid[t := t], parPid[t := t])
            && h.turn == t && h.threads[t] == Root(t)
            && h.clocks == WithoutClock(s.clocks, t, r.used)
  {
    var t, r' := s.turn, r.With(s.turn, true, pcb, (s.turn, 0));
    RootRepresents(r, s.threads, t, pcb);
    EntryAt(r, s.threads, t, 0);
    OtherTops(r, s);
    ClocksFree(r', s.Ended(), currPid[t := t], parPid[t := t], h);
    WithoutClocks(r, r', s.Ended(), t);
  }

  lemma PoppedThread(s: Table)
    requires s.Valid() && |s.threads[s.turn].chain| > 1
    ensures var chain, h := s.threads[s.turn].chain, s.Ended();
            && h.turn == s.turn && h.threads[h.turn].Started()
            && h.threads[h.turn].Top() == chain[|chain| - 2].pid && h.threads[h.turn].sp == chain[|chain| - 1].parEsp
  {
  }

  lemma PopTables(r: Rep, s: Table, currPid: seq<int>, parPid: seq<int>, pcb: Pcb)
    requires TablesOk(r, s, currPid, parPid) && |s.threads[s.turn].chain| > 1
    ensures var t, chain := s.turn, s.threads[s.turn].chain;
            var p, q := chain[|chain| - 1].pid, chain[|chain| - 2].pid;
            && 0 <= p < MAX_PROCESSES && 0 <= q < MAX_PROCESSES && p != q
            && TablesOk(r.With(p, false, pcb, r.places[p]), s.Ended(), currPid[t := q], parPid[t := r.pcbs[q].parPid])
  {
    var t, chain := s.turn, s.threads[s.turn].chain;
    EntryAt(r, s.threads, t, |chain| - 1);
    EntryAt(r, s.threads, t, |chain| - 2);
    OtherTops(r, s);
    PopRepresents(r, s.threads, t, pcb, chain[|chain| - 1].parEsp);
  }

  lemma TopContext(r: Rep, s: Table, currPid: seq<int>, parPid: seq<int>)
    requires TablesOk(r, s, currPid, parPid) && s.threads[s.turn].Started()
    ensures var th := s.threads[s.turn];
            0 <= th.Top() < MAX_PROCESSES && InStack(th.Top(), th.sp) && r.pcbs[th.Top()].pid == th.Top()
  {
    TopUsed(r, s.threads, s.turn);
    assert TerminalOk(r.pcbs, s, currPid, parPid, s.turn);
  }

  /** The lowest free pid is beyond the roots exactly when all roots run, and it is nobody's top. */
  lemma NestedPidHigh(r: Rep, s: Table, p: int)
    requires s.Valid() && Represents(r, s.threads) && BootOrder(s) && s.threads[s.turn].Started()
    requires p == s.FreeFrom(0) < MAX_PROCESSES && !r.used[p]
    ensures p >= NUM_TERMINALS <==> s.AllStarted()
    ensures p != s.threads[s.turn].Top()
  {
    RootUsed(r, s.threads, 0);
    RootUsed(r, s.threads, 1);
    RootUsed(r, s.threads, 2);
    UsedIffInUse(r, s, 2);
    TopUsed(r, s.threads, s.turn);
  }

  /** No pid occurs twice in the chains. */
  lemma EntriesDistinct(r: Rep, threads: seq<Thread>, t: int, i: int, u: int, j: int)
    requires Represents(r, threads) && 0 <= t < NUM_TERMINALS && 0 <= u < NUM_TERMINALS
    requires 0 <= i < |threads[t].chain| && 0 <= j < |threads[u].chain|
    ensures threads[t].chain[i].pid == threads[u].chain[j].pid <==> t == u && i == j
  {
    EntryAt(r, threads, t, i);
    EntryAt(r, threads, u, j);
  }

  /** The k-th ancestor of p by par_pid. */
  function Ancestor(pcbs: seq<Pcb>, p: int, k: nat): int {
    if k == 0 then p
    else
      var q := Ancestor(pcbs, p, k - 1);
      if 0 <= q < |pcbs| then pcbs[q].parPid else q
  }

  /** Following par_pid from the program on top walks down its chain through live programs to the root
      of its terminal, and stays there. */
  lemma {:induction false} ParentWalk(r: Rep, threads: seq<Thread>, t: int, k: nat)
    requires Represents(r, threads) && 0 <= t < NUM_TERMINALS && threads[t].Started()
    ensures var n := |threads[t].chain|;
            Ancestor(r.pcbs, threads[t].Top(), k) == threads[t].chain[Max(0, n - 1 - k)].pid
    ensures 0 <= Ancestor(r.pcbs, threads[t].Top(), k) < MAX_PROCESSES && r.used[Ancestor(r.pcbs, threads[t].Top(), k)]
    ensures k >= |threads[t].chain| - 1 ==> Ancestor(r.pcbs, threads[t].Top(), k) == t
  {
    var n := |threads[t].chain|;
    EntryAt(r, threads, t, 0);
    EntryAt(r, threads, t, Max(0, n - 1 - k));
    if k > 0 {
      ParentWalk(r, threads, t, k - 1);
      EntryAt(r, threads, t, Max(0, n - k));
    }
  }

  /** A root on top is alone on its terminal, and every root below it in number is in use. */
  lemma RootOnTop(r: Rep, s: Table, p: int)
    requires s.Valid() && Represents(r, s.threads) && BootOrder(s) && s.threads[s.turn].Started()
    requires p == s.threads[s.turn].Top() && 0 <= p < NUM_TERMINALS
    ensures p == s.turn && |s.threads[p].chain| == 1 && r.pcbs[p].parPid == p && forall q :: 0 <= q < p ==> r.used[q]
  {
    EntryAt(r, s.threads, s.turn, |s.threads[s.turn].chain| - 1);
    RootUsed(r, s.threads, 0);
    RootUsed(r, s.threads, 1);
  }

  /** A nested program on top knows its parent three ways, all the same. */
  lemma NestedOnTop(r: Rep, s: Table, p: int)
    requires s.Valid() && Represents(r, s.threads) && s.threads[s.turn].Started()
    requires p == s.threads[s.turn].Top() && NUM_TERMINALS <= p < MAX_PROCESSES
    ensures var chain := s.threads[s.turn].chain;
            && |chain| > 1
            && var q := chain[|chain| - 2].pid;
               && 0 <= q < MAX_PROCESSES && r.pcbs[p].parPid == q && PidAt(r.pcbs[p].parPcb) == q && r.pcbs[q].pid == q
               && r.pcbs[p].parEsp == chain[|chain| - 1].parEsp
  {
    var chain := s.threads[s.turn].chain;
    EntryAt(r, s.threads, s.turn, |chain| - 1);
    EntryAt(r, s.threads, s.turn, |chain| - 2);
  }

  /** Where a halt leads: the parent named in the PCB is the process below in the chain, and it runs on
      with the stack pointer that PCB kept. */
  lemma ReturnTables(r: Rep, s: Table, currPid: seq<int>, parPid: seq<int>, p: int)
    requires TablesOk(r, s, currPid, parPid) && s.threads[s.turn].Started()
    requires p == s.threads[s.turn].Top() && NUM_TERMINALS <= p < MAX_PROCESSES
    ensures var q, h := PidAt(r.pcbs[p].parPcb), s.Halted();
            && 0 <= q < MAX_PROCESSES && r.pcbs[q].pid == q && r.pcbs[p].parPid == q
            && TablesOk(Rep(r.used[p := false], r.pcbs[p := ZERO_PCB], r.places), h,
                        currPid[s.turn := q], parPid[s.turn := r.pcbs[q].parPid])
            && h.turn == s.turn && h.threads[h.turn].Started()
            && h.threads[h.turn].Top() == q && h.threads[h.turn].sp == r.pcbs[p].parEsp
  {
    NestedOnTop(r, s, p);
    PopTables(r, s, currPid, parPid, ZERO_PCB);
    PoppedThread(s);
    assert r.places[p := r.places[p]] == r.places;
    var q := PidAt(r.pcbs[p].parPcb);
    ClocksFree(Rep(r.used[p := false], r.pcbs[p := ZERO_PCB], r.places), s.Ended(),
               currPid[s.turn := q], parPid[s.turn := r.pcbs[q].parPid], s.Halted());
  }

  /** The clock once program p has ended: the highest frequency the others want, if p had it open. */
  function WithoutClock(c: Clocks, p: int, used: seq<bool>): Clocks
    requires c.Valid() && |used| == MAX_PROCESSES && 0 <= p < MAX_PROCESSES
  {
    c.Set(p, 0, 0).(rate := if c.fds[p] == 0 then c.rate
                            else Rtc.Highest(used[p := false], c.freqs, MAX_PROCESSES))
  }

  lemma WithoutClocks(r: Rep, r': Rep, s: Table, p: int)
    requires s.Valid() && Represents(r', s.threads) && r.Sized() && 0 <= p < MAX_PROCESSES
    requires r'.used == r.used[p := r'.used[p]]
    ensures s.Without(p).clocks == WithoutClock(s.clocks, p, r.used)
  {
    var c := s.(clocks := s.clocks.Set(p, 0, 0));
    UsedIs(r', c);
    Rtc.HighestSkips(r.used, s.clocks.freqs, p, r'.used[p], MAX_PROCESSES);
  }

  lemma WorkTables(r: Rep, s: Table, currPid: seq<int>, parPid: seq<int>, offset: nat)
    requires TablesOk(r, s, currPid, parPid) && offset < KERNEL_STACK
    ensures TablesOk(r, s.Worked(offset), currPid, parPid)
  {
    if s.threads[s.turn].Started() {
      StackPointersFree(r, s.threads, s.turn, PcbAddr(s.threads[s.turn].Top()) + offset);
    }
  }

  lemma ClockTables(r: Rep, s: Table, s': Table, currPid: seq<int>, parPid: seq<int>, p: int, fds: nat)
    requires TablesOk(r, s, currPid, parPid) && 0 <= p < MAX_PROCESSES
    requires s'.Valid() && s'.threads == s.threads && s'.turn == s.turn
    ensures TablesOk(r.(pcbs := r.pcbs[p := r.pcbs[p].(clockFds := fds)]), s', currPid, parPid)
  {
    SchedulingFieldsFree(r, s.threads, p, r.pcbs[p].esp, fds);
    ClocksFree(r.(pcbs := r.pcbs[p := r.pcbs[p].(clockFds := fds)]), s, currPid, parPid, s');
  }

  /** The clock once program p has closed one of its descriptors on it. */
  function ClosedClock(c: Clocks, p: int, used: seq<bool>): Clocks
    requires c.Valid() && |used| == MAX_PROCESSES && 0 <= p < MAX_PROCESSES && c.fds[p] > 0
  {
    Clocks(c.freqs, c.fds[p := c.fds[p] - 1], Rtc.Highest(used, c.freqs, MAX_PROCESSES))
  }

  lemma CloseTables(r: Rep, s: Table, s': Table, currPid: seq<int>, parPid: seq<int>, p: int, pcb: Pcb)
    requires TablesOk(r, s, currPid, parPid) && 0 <= p < MAX_PROCESSES && s' == s.ClockClosed()
    requires s.threads[s.turn].Started() && s.threads[s.turn].Top() == p && s.clocks.fds[p] > 0
    requires pcb == r.pcbs[p].(clockFds := pcb.clockFds)
    ensures TablesOk(r.(pcbs := r.pcbs[p := pcb]), s', currPid, parPid)
    ensures s'.clocks == ClosedClock(s.clocks, p, r.used) && s'.threads == s.threads && s'.turn == s.turn
  {
    ClockTables(r, s, s', currPid, parPid, p, pcb.clockFds);
    var c := s.(clocks := s.clocks.Set(p, s.clocks.freqs[p], s.clocks.fds[p] - 1));
    UsedIs(r, c);
    assert s.clocks.freqs[p := s.clocks.freqs[p]] == s.clocks.freqs;
  }

  /** The number of ticks in a run. */
  function Ticks(events: seq<Event>): nat {
    if events == [] then 0 else Ticks(events[..|events| - 1]) + if events[|events| - 1].Tick? then 1 else 0
  }

  /** Programs start others only after the first three ticks. */
  ghost predicate ExecsAfterBoot(events: seq<Event>) {
    forall i :: 0 <= i < |events| && events[i] == Exec(true) ==> Ticks(events[..i]) >= NUM_TERMINALS
  }

  /** Programs start others only when all three shells run. */
  ghost predicate Timely(s: Table, events: seq<Event>)
    requires s.Valid()
  {
    forall i :: 0 <= i < |events| && events[i] == Exec(true) ==> RunAll(s, events[..i]).AllStarted()
  }

  const POWER_ON :=
    Table([Thread([], 0), Thread([], 0), Thread([], 0)], 2,
          Clocks([0, 0, 0, 0, 0, 0], [0, 0, 0, 0, 0, 0], Rtc.RTC_START_FREQ))

  /** As long as executes are timely by either measure, exactly as many shells run as there were ticks,
      up to three. */
  lemma {:induction false} BootedAfter(events: seq<Event>, i: nat)
    requires i <= |events|
    requires forall j :: 0 <= j < i && events[j] == Exec(true) ==>
               Ticks(events[..j]) >= NUM_TERMINALS || RunAll(POWER_ON, events[..j]).AllStarted()
    ensures var s := RunAll(POWER_ON, events[..i]); BootOrder(s) && Booted(s, Ticks(events[..i]))
  {
    if i > 0 {
      BootedAfter(events, i - 1);
      OneMore(POWER_ON, events, i - 1);
      StepBoots(RunAll(POWER_ON, events[..i - 1]), events[i - 1], Ticks(events[..i - 1]));
    }
  }

  /** From power-on, executes are timely exactly when they come after three ticks. */
  lemma TimelyIff(events: seq<Event>)
    ensures Timely(POWER_ON, events) <==> ExecsAfterBoot(events)
  {
    if Timely(POWER_ON, events) || ExecsAfterBoot(events) {
      forall i | 0 <= i < |events| && events[i] == Exec(true)
        ensures RunAll(POWER_ON, events[..i]).AllStarted() <==> Ticks(events[..i]) >= NUM_TERMINALS
      {
        BootedAfter(events, i);
      }
    }
  }

  /** The fields of a PCB that say where its program belongs, equal in two tables. */
  ghost predicate SamePcb(r: Rep, r': Rep, chain: seq<Program>, i: int)
    requires r.Sized() && r'.Sized() && 0 <= i < |chain|
  {
    var p := chain[i].pid;
    && 0 <= p < MAX_PROCESSES && r.used[p] && r'.used[p]
    && r.pcbs[p].pid == r'.pcbs[p].pid && r.pcbs[p].parPid == r'.pcbs[p].parPid
    && (i > 0 ==> r.pcbs[p].parPcb == r'.pcbs[p].parPcb && r.pcbs[p].parEsp == r'.pcbs[p].parEsp)
  }

  /** The tables hold nothing about a terminal's programs but what its chain says. */
  lemma ChainDecidesTables(r: Rep, s: Table, cp: seq<int>, pp: seq<int>,
                           r': Rep, s': Table, cp': seq<int>, pp': seq<int>, t: int)
    requires TablesOk(r, s, cp, pp) && TablesOk(r', s', cp', pp') && 0 <= t < NUM_TERMINALS
    requires s.threads[t].Started() && s'.threads[t].chain == s.threads[t].chain
    ensures cp'[t] == cp[t] && pp'[t] == pp[t]
    ensures forall i :: 0 <= i < |s.threads[t].chain| ==> SamePcb(r, r', s.threads[t].chain, i)
  {
    forall i | 0 <= i < |s.threads[t].chain| ensures SamePcb(r, r', s.threads[t].chain, i) {
      EntryAt(r, s.threads, t, i);
      EntryAt(r', s'.threads, t, i);
    }
    assert TerminalOk(r.pcbs, s, cp, pp, t) && TerminalOk(r'.pcbs, s', cp', pp', t);
    assert SamePcb(r, r', s.threads[t].chain, |s.threads[t].chain| - 1);
  }

  ghost predicate AllUsed(used: seq<bool>) {
    forall p :: 0 <= p < |used| ==> used[p]
  }

  ghost predicate LowestFree(used: seq<bool>, r: int) {
    0 <= r < |used| && !used[r] && forall q :: 0 <= q < r ==> used[q]
  }

  class ProcessTable {
    const clock: Rtc.Clock
    var used: seq<bool>
    var pcbs: seq<Pcb>
    var currPid: seq<int>     // prog_curr_pid of the terminals
    var parPid: seq<int>      // prog_par_pid
    var currProcess: int
    var programFrame: int     // page_directory[32].address
    var esp0: int             // tss.esp0
    var esp: int              // the processor's kernel stack pointer
    ghost var model: Table
    ghost var places: seq<(int, int)>

    ghost function R(): Rep
      reads this
    {
      Rep(used, pcbs, places)
    }

    /** The clock and the descriptors on it, as the reference sees them. */
    ghost function Watch(): Clocks
      reads this, clock
    {
      Clocks(Rtc.FreqsOf(clock.pcbs), FdsOf(pcbs), clock.higherFreq)
    }

    /** The stack pointer and the TSS belong to the running program. */
    ghost predicate StackOk()
      requires model.Valid()
      reads this
    {
      var th := model.threads[model.turn];
      if !th.Started() then InStack(0, esp) else esp == th.sp && esp0 == StackTop(th.Top())
    }

    /** Everything but the program page, which sys_execute switches first. */
    ghost predicate Core()
      reads this, clock
    {
      && TablesOk(R(), model, currPid, parPid)
      && model.turn == currProcess && StackOk()
      && clock.Valid(used) && Watch() == model.clocks
    }

    /** Program page, TSS, stack pointer, tables and clock all agree. */
    ghost predicate Inv()
      reads this, clock
    {
      && Core()
      && var th := model.threads[model.turn];
         th.Started() ==> programFrame == ProgramFrame(th.Top())
    }

    lemma Established(r: Rep, s: Table, cp: seq<int>, pp: seq<int>)
      requires R() == r && model == s && currPid == cp && parPid == pp && TablesOk(r, s, cp, pp)
      requires s.turn == currProcess && clock.Valid(used) && Watch() == s.clocks
      requires 0 <= s.turn < |s.threads| && s.threads[s.turn].Started()
      requires var th := s.threads[s.turn];
               esp == th.sp && esp0 == StackTop(th.Top()) && programFrame == ProgramFrame(th.Top())
      ensures Inv()
    {
    }

    /** init_pid, init_idt and init_pit; the boot stack ends at 8 MB. */
    constructor (clock: Rtc.Clock, esp: int)
      requires clock.Valid([false, false, false, false, false, false]) && InStack(0, esp)
      requires clock.higherFreq == Rtc.RTC_START_FREQ && Rtc.FreqsOf(clock.pcbs) == [0, 0, 0, 0, 0, 0]
      ensures Inv() && this.clock == clock && model == POWER_ON
    {
      this.clock := clock;
      used := [false, false, false, false, false, false];
      pcbs := [ZERO_PCB, ZERO_PCB, ZERO_PCB, ZERO_PCB, ZERO_PCB, ZERO_PCB];
      currPid, parPid := [-1, -1, -1], [-1, -1, -1];
      currProcess := 2;
      programFrame, esp0, this.esp := 0, KERNEL_TOP, esp;
      model := POWER_ON;
      places := [(0, 0), (0, 0), (0, 0), (0, 0), (0, 0), (0, 0)];
    }

    /** get_new_pid */
    method GetNewPid() returns (r: int)
      requires |used| == MAX_PROCESSES
      ensures r == ERROR <==> AllUsed(used)
      ensures r != ERROR ==> LowestFree(used, r)
    {
      r := 0;
      while r < MAX_PROCESSES
        invariant 0 <= r <= MAX_PROCESSES && forall p :: 0 <= p < r ==> used[p]
      {
        if !used[r] {
          return;
        }
        r := r + 1;
      }
      r := ERROR;
    }

    /** The pid found is the lowest one free in the reference table. */
    lemma FreePid(r: int)
      requires Core()
      requires r == ERROR ==> AllUsed(used)
      requires r != ERROR ==> LowestFree(used, r)
      ensures model.FreeFrom(0) == if r == ERROR then MAX_PROCESSES else r
    {
      forall p | 0 <= p < MAX_PROCESSES ensures used[p] <==> model.InUse(p) {
        UsedIffInUse(R(), model, p);
      }
    }

    /** get_curr_pcb */
    function CurrPcb(): int
      requires esp >= 0
      reads this
    {
      BitAnd(esp, PCB_8KB_MASK)
    }

    /** The second half of sys_execute: map the page, fill in the PCB, switch to the new program. After
        the iret the next kernel entry starts at tss.esp0. */
    method CreateProcess(newPid: int)
      requires |used| == |pcbs| == MAX_PROCESSES && |currPid| == |parPid| == NUM_TERMINALS
      requires 0 <= newPid < MAX_PROCESSES && 0 <= currProcess < NUM_TERMINALS && clock.Valid(used)
      requires esp >= 0 && 0 <= PidAt(CurrPcb()) < MAX_PROCESSES
      modifies this`used, this`pcbs, this`currPid, this`parPid, this`programFrame, this`esp0, this`esp, clock
      ensures used == old(used)[newPid := true] && clock.Valid(used)
      ensures var caller := old(PidAt(CurrPcb()));
              var parent := if newPid < NUM_TERMINALS || caller == newPid then newPid else old(pcbs)[caller].pid;
              && pcbs == old(pcbs)[newPid := Pcb(newPid, parent, old(CurrPcb()), old(esp), USER_ESP, 0)]
              && currPid == old(currPid)[currProcess := newPid] && parPid == old(parPid)[currProcess := parent]
      ensures programFrame == ProgramFrame(newPid) && esp0 == StackTop(newPid) && esp == StackTop(newPid)
      ensures old(Watch()).Valid() && Watch() == old(Watch()).Set(newPid, 0, 0)
    {
      programFrame := ProgramFrame(newPid);
      pcbs := pcbs[newPid := pcbs[newPid].(pid := newPid)];
      clock.Spawn(used, newPid);
      var parent := pcbs[PidAt(CurrPcb())].pid;
      if newPid < NUM_TERMINALS {
        parent := newPid;
      }
      pcbs := pcbs[newPid := Pcb(newPid, parent, CurrPcb(), esp, USER_ESP, 0)];
      esp0 := StackTop(newPid);
      used := used[newPid := true];
      currPid := currPid[currProcess := newPid];
      parPid := parPid[currProcess := parent];
      esp := esp0;
    }

    /** A root shell is its own parent. */
    method CreateRoot(p: int)
      requires |used| == |pcbs| == MAX_PROCESSES && |currPid| == |parPid| == NUM_TERMINALS
      requires 0 <= p < NUM_TERMINALS && 0 <= currProcess < NUM_TERMINALS && clock.Valid(used)
      requires esp >= 0 && 0 <= PidAt(CurrPcb()) < MAX_PROCESSES
      modifies this`used, this`pcbs, this`currPid, this`parPid, this`programFrame, this`esp0, this`esp, clock
      ensures used == old(used)[p := true] && clock.Valid(used)
      ensures |pcbs| == MAX_PROCESSES && pcbs[p].pid == p && pcbs[p].parPid == p && pcbs == old(pcbs)[p := pcbs[p]]
      ensures currPid == old(currPid)[currProcess := p] && parPid == old(parPid)[currProcess := p]
      ensures programFrame == ProgramFrame(p) && esp0 == StackTop(p) && esp == StackTop(p)
      ensures old(Watch()).Valid() && Watch() == old(Watch()).Set(p, 0, 0)
    {
      CreateProcess(p);
    }

    /** get_curr_pcb leads to the PCB of the running program. */
    lemma CurrPcbIsTop()
      requires Core() && model.threads[currProcess].Started()
      ensures var top := model.threads[currProcess].Top();
              && 0 <= top < MAX_PROCESSES && esp >= 0
              && CurrPcb() == PcbAddr(top) && PidAt(CurrPcb()) == top && pcbs[top].pid == top
    {
      TopContext(R(), model, currPid, parPid);
      MaskFindsPcb(model.threads[currProcess].Top(), esp);
    }

    lemma CurrPcbInTable()
      requires Inv()
      ensures esp >= 0 && 0 <= PidAt(CurrPcb()) < MAX_PROCESSES
    {
      if model.threads[currProcess].Started() { CurrPcbIsTop(); } else { MaskFindsPcb(0, esp); }
    }

    /** sys_execute after its executable check. It fails without any effect when the file is no
        executable or all pids are taken, and otherwise takes the lowest free pid. A program started
        before all three shells run gets a root's pid and is made its own parent; otherwise the table
        stays consistent. */
    method Execute(loadable: bool) returns (r: int)
      requires Inv() && (loadable ==> model.threads[currProcess].Started())
      modifies this, clock
      ensures r == ERROR <==> !loadable || AllUsed(old(used))
      ensures r == ERROR ==> unchanged(this) && unchanged(clock)
      ensures r != ERROR ==> LowestFree(old(used), r)
      ensures r != ERROR ==>
                && used == old(used)[r := true] && |pcbs| == MAX_PROCESSES
                && (pcbs[r].parPid == old(model.threads[currProcess].Top()) <==> old(model).AllStarted())
                && (!old(model).AllStarted() ==> r < NUM_TERMINALS && pcbs[r].parPid == r)
      ensures old(model).AllStarted() || !loadable ==> Inv() && model == old(model).Executed(loadable)
    {
      if !loadable {
        return ERROR;
      }
      r := ExecuteLoadable();
    }

    method ExecuteLoadable() returns (r: int)
      requires Inv() && model.threads[currProcess].Started()
      modifies this, clock
      ensures r == ERROR <==> AllUsed(old(used))
      ensures r == ERROR ==> unchanged(this) && unchanged(clock) && model.Executed(true) == model
      ensures r != ERROR ==> LowestFree(old(used), r) && used == old(used)[r := true] && |pcbs| == MAX_PROCESSES
      ensures r != ERROR ==>
                && (pcbs[r].parPid == old(model.threads[currProcess].Top()) <==> old(model).AllStarted())
                && (!old(model).AllStarted() ==> r < NUM_TERMINALS && pcbs[r].parPid == r)
                && (old(model).AllStarted() ==> Inv() && model == old(model).Executed(true))
    {
      r := Reserve();
      if r == ERROR {
        return;
      }
      Nest(r);
    }

    /** get_new_pid and enable_program_page in sys_execute: the page is switched before anything else. */
    method Reserve() returns (r: int)
      requires Inv() && model.threads[currProcess].Started()
      modifies this`programFrame
      ensures r == ERROR <==> AllUsed(used)
      ensures r == ERROR ==> unchanged(this) && model.FreeFrom(0) == MAX_PROCESSES
      ensures r != ERROR ==>
                LowestFree(used, r) && r == model.FreeFrom(0) && Core() && programFrame == ProgramFrame(r)
    {
      r := GetNewPid();
      FreePid(r);
      if r != ERROR {
        programFrame := ProgramFrame(r);
      }
    }

    /** The rest of sys_execute, once the program has been copied in. */
    method Nest(p: int)
      requires Core() && model.threads[currProcess].Started() && p == model.FreeFrom(0) < MAX_PROCESSES && !used[p]
      modifies this, clock
      ensures used == old(used)[p := true]
      ensures |pcbs| == MAX_PROCESSES
      ensures pcbs[p].parPid == old(model.threads[currProcess].Top()) <==> old(model).AllStarted()
      ensures !old(model).AllStarted() ==> p < NUM_TERMINALS && pcbs[p].parPid == p
      ensures old(model).AllStarted() ==> Inv() && model == old(model).Executed(true)
    {
      CurrPcbIsTop();
      ghost var s, before := model, R();
      NestedPidHigh(before, s, p);
      CreateProcess(p);
      if s.AllStarted() {
        PushTables(before, s, old(currPid), old(parPid), p, pcbs[p]);
        places := places[p := (currProcess, |s.threads[currProcess].chain|)];
        model := s.Executed(true);
        Established(before.With(p, true, pcbs[p], places[p]), s.Executed(true), old(currPid)[currProcess := p],
                    old(parPid)[currProcess := pcbs[p].parPid]);
      }
    }

    /** The PCBs once the interrupted program's stack pointer is kept where the first shell of terminal
        `next` is started: in the PCB numbered like its terminal. */
    ghost function Saved(next: int): seq<Pcb>
      requires 0 <= currProcess < |pcbs|
      reads this
    {
      if next == 0 then pcbs else pcbs[currProcess := pcbs[currProcess].(esp := esp)]
    }

    /** switch_running_process, as far as processes go. loads says whether "shell" is an executable. */
    method Tick(loads: bool)
      requires Inv()
      modifies this, clock
      ensures loads || old(currPid)[(old(currProcess) + 1) % NUM_TERMINALS] != -1 ==>
                Inv() && model == old(model).Ticked()
      ensures var next := (old(currProcess) + 1) % NUM_TERMINALS;
              !loads && old(currPid)[next] == -1 ==>
                && currProcess == next && pcbs == old(Saved((currProcess + 1) % NUM_TERMINALS))
                && unchanged(this`used, this`currPid, this`parPid, this`programFrame, this`esp0, this`esp, clock)
    {
      var next := (currProcess + 1) % NUM_TERMINALS;
      if currPid[next] == -1 {
        if loads {
          StartShell(next);
        } else {
          SkipShell(next);
        }
      } else {
        Switch(next);
      }
    }

    /** A first shell that cannot be executed: the turn passes on and nothing runs. */
    method SkipShell(next: int)
      requires |pcbs| == MAX_PROCESSES && 0 <= next < NUM_TERMINALS && 0 <= currProcess < NUM_TERMINALS
      modifies this`pcbs, this`currProcess
      ensures currProcess == next && pcbs == old(Saved(next)) && Watch() == old(Watch())
    {
      if next != 0 {
        pcbs := pcbs[currProcess := pcbs[currProcess].(esp := esp)];
      }
      currProcess := next;
    }

    /** The branch that starts a terminal's first shell. The interrupted program's stack pointer is saved
        in the PCB numbered like its terminal. */
    method StartShell(next: int)
      requires Inv() && next == (currProcess + 1) % NUM_TERMINALS && currPid[next] == -1
      modifies this, clock
      ensures Inv() && model == old(model).Ticked()
    {
      ghost var s, before := model, R();
      CurrPcbInTable();
      BootContext(next);
      NextRootIsFree(before, s);
      ghost var saved := Saved(next);
      SaveAndCreate(next);
      BootTables(before, s, old(currPid), old(parPid), pcbs[next]);
      places := places[next := (next, 0)];
      model := s.Ticked();
      Established(before.(pcbs := saved).With(next, true, pcbs[next], (next, 0)), s.Ticked(), old(currPid)[next := next],
                  old(parPid)[next := next]);
    }

    /** Where a first shell starts, the interrupted program is the only one on its terminal. */
    lemma BootContext(next: int)
      requires Inv() && next == (currProcess + 1) % NUM_TERMINALS && currPid[next] == -1
      ensures !model.threads[next].Started() && (next != 0 ==> esp == model.threads[currProcess].sp)
    {
      assert TerminalOk(pcbs, model, currPid, parPid, next);
      if model.threads[next].Started() { TopUsed(R(), model.threads, next); }
    }

    method SaveAndCreate(next: int)
      requires |used| == |pcbs| == MAX_PROCESSES && |currPid| == |parPid| == NUM_TERMINALS
      requires 0 <= next < NUM_TERMINALS && 0 <= currProcess < NUM_TERMINALS && clock.Valid(used)
      requires esp >= 0 && 0 <= PidAt(CurrPcb()) < MAX_PROCESSES
      requires LowestFree(used, next)
      modifies this, clock
      ensures model == old(model) && places == old(places) && currProcess == next
      ensures used == old(used)[next := true] && clock.Valid(used)
      ensures |pcbs| == MAX_PROCESSES && pcbs[next].pid == next && pcbs[next].parPid == next
      ensures pcbs == old(Saved(next))[next := pcbs[next]]
      ensures currPid == old(currPid)[next := next] && parPid == old(parPid)[next := next]
      ensures programFrame == ProgramFrame(next) && esp0 == StackTop(next) && esp == StackTop(next)
      ensures old(Watch()).Valid() && Watch() == old(Watch()).Set(next, 0, 0)
    {
      SkipShell(next);
      var r := GetNewPid();
      CreateRoot(r);
    }

    /** The ordinary branch: save the stack pointer, switch page and TSS, restore the other's. */
    method Switch(next: int)
      requires Inv() && next == (currProcess + 1) % NUM_TERMINALS && currPid[next] != -1
      modifies this`pcbs, this`programFrame, this`esp0, this`currProcess, this`esp, this`model
      ensures Inv() && model == old(model).Ticked()
    {
      ghost var s, before := model, R();
      SwitchContext(next);
      SwitchTables(before, s, currPid, parPid);
      SaveAndRestore(next);
      model := s.Ticked();
      Established(before.(pcbs := pcbs), s.Ticked(), currPid, parPid);
    }

    lemma SwitchContext(next: int)
      requires Inv() && next == (currProcess + 1) % NUM_TERMINALS && currPid[next] != -1
      ensures var th, other := model.threads[currProcess], model.threads[next];
              && th.Started() && currPid[currProcess] == th.Top() && 0 <= th.Top() < MAX_PROCESSES && esp == th.sp
              && other.Started() && currPid[next] == other.Top() && 0 <= other.Top() < MAX_PROCESSES
              && other.Top() != th.Top() && pcbs[other.Top()].esp == other.sp
    {
      OtherTops(R(), model);
      assert TerminalOk(pcbs, model, currPid, parPid, next);
      assert TerminalOk(pcbs, model, currPid, parPid, currProcess);
    }

    method SaveAndRestore(next: int)
      requires |pcbs| == MAX_PROCESSES && |currPid| == NUM_TERMINALS
      requires 0 <= next < NUM_TERMINALS && 0 <= currProcess < NUM_TERMINALS
      requires 0 <= currPid[currProcess] < MAX_PROCESSES && 0 <= currPid[next] < MAX_PROCESSES
      modifies this`pcbs, this`programFrame, this`esp0, this`currProcess, this`esp
      ensures var p, q := currPid[old(currProcess)], currPid[next];
              && pcbs == old(pcbs)[p := old(pcbs)[p].(esp := old(esp))] && currProcess == next
              && esp == pcbs[q].esp && esp0 == StackTop(q) && programFrame == ProgramFrame(q)
      ensures Watch() == old(Watch())
    {
      var pid := currPid[next];
      pcbs := pcbs[currPid[currProcess] := pcbs[currPid[currProcess]].(esp := esp)];
      programFrame := ProgramFrame(pid);
      esp0 := StackTop(pid);
      currProcess := next;
      esp := pcbs[currPid[next]].esp;
    }

    /** sys_halt. A nested program returns to its live parent; a root shell starts again under its own pid. */
    method Halt() returns (r: int)
      requires Inv()
      modifies this, clock
      ensures Inv() && model == old(model).Halted()
      ensures r == ERROR <==> !old(model).threads[currProcess].Started()
      ensures r == ERROR ==> unchanged(this) && unchanged(clock)
    {
      if currPid[currProcess] == -1 {
        return ERROR;
      }
      CurrPcbIsTop();
      var p := currPid[currProcess];
      EntryAt(R(), model.threads, currProcess, |model.threads[currProcess].chain| - 1);
      if pcbs[p].pid < NUM_TERMINALS {
        RestartRoot(p);
      } else {
        ReturnToParent(p);
      }
      r := 0;
    }

    /** The first part of sys_halt: TSS and page of the parent, the pid released, open clocks closed. */
    method Release(p: int)
      requires |used| == |pcbs| == MAX_PROCESSES && 0 <= p < MAX_PROCESSES && clock.Valid(used)
      modifies this`esp0, this`used, this`programFrame, clock
      ensures used == old(used)[p := false] && clock.Valid(used)
      ensures esp0 == StackTop(pcbs[p].parPid) && programFrame == ProgramFrame(pcbs[p].parPid)
      ensures Rtc.FreqsOf(clock.pcbs) == old(Rtc.FreqsOf(clock.pcbs))
      ensures clock.higherFreq == if pcbs[p].clockFds == 0 then old(clock.higherFreq)
                                  else Rtc.Highest(used, old(Rtc.FreqsOf(clock.pcbs)), MAX_PROCESSES)
    {
      esp0 := StackTop(pcbs[p].parPid);
      clock.FewerProcesses(used, p);
      used := used[p := false];
      programFrame := ProgramFrame(pcbs[p].parPid);
      CloseClocks(pcbs[p].clockFds);
    }

    /** The loop over the descriptors, as far as clocks go. */
    method CloseClocks(n: nat)
      requires clock.Valid(used)
      modifies clock
      ensures clock.Valid(used) && Rtc.FreqsOf(clock.pcbs) == old(Rtc.FreqsOf(clock.pcbs))
      ensures clock.higherFreq == if n == 0 then old(clock.higherFreq)
                                  else Rtc.Highest(used, old(Rtc.FreqsOf(clock.pcbs)), MAX_PROCESSES)
    {
      var i := 0;
      while i < n
        invariant 0 <= i <= n && clock.Valid(used) && Rtc.FreqsOf(clock.pcbs) == old(Rtc.FreqsOf(clock.pcbs))
        invariant clock.higherFreq == if i == 0 then old(clock.higherFreq)
                                      else Rtc.Highest(used, old(Rtc.FreqsOf(clock.pcbs)), MAX_PROCESSES)
      {
        clock.Close(used);
        i := i + 1;
      }
    }

    method RestartRoot(p: int)
      requires Inv() && model.threads[currProcess].Started() && p == currPid[currProcess] && 0 <= p < NUM_TERMINALS
      modifies this, clock
      ensures Inv() && model == old(model).Halted()
    {
      ghost var s, before := model, R();
      CurrPcbIsTop();
      RootOnTop(before, s, p);
      Restart(p);
      ghost var now := before.With(p, true, pcbs[p], (p, 0));
      ghost var h := s.Halted();
      RestartTables(before, s, old(currPid), old(parPid), pcbs[p], h);
      places := places[p := (p, 0)];
      model := h;
      Established(now, h, old(currPid)[p := p], old(parPid)[p := p]);
    }

    /** sys_halt of a root: its pid is released and at once taken again by the new shell. */
    method Restart(p: int)
      requires |used| == |pcbs| == MAX_PROCESSES && |currPid| == |parPid| == NUM_TERMINALS
      requires 0 <= p < NUM_TERMINALS && 0 <= currProcess < NUM_TERMINALS && clock.Valid(used)
      requires esp >= 0 && 0 <= PidAt(CurrPcb()) < MAX_PROCESSES && LowestFree(used[p := false], p)
      modifies this`used, this`pcbs, this`currPid, this`parPid, this`programFrame, this`esp0, this`esp, clock
      ensures used == old(used)[p := true] && clock.Valid(used)
      ensures |pcbs| == MAX_PROCESSES && pcbs[p].pid == p && pcbs[p].parPid == p && pcbs == old(pcbs)[p := pcbs[p]]
      ensures currPid == old(currPid)[currProcess := p] && parPid == old(parPid)[currProcess := p]
      ensures programFrame == ProgramFrame(p) && esp0 == StackTop(p) && esp == StackTop(p)
      ensures old(Watch()).Valid() && Watch() == WithoutClock(old(Watch()), p, old(used))
    {
      Release(p);
      var r := GetNewPid();
      assert r == p;
      CreateRoot(r);
    }

    method ReturnToParent(p: int)
      requires Inv() && model.threads[currProcess].Started()
      requires p == currPid[currProcess] && NUM_TERMINALS <= p < MAX_PROCESSES
      modifies this, clock
      ensures Inv() && model == old(model).Halted()
    {
      ghost var s, before := model, R();
      ReturnTables(before, s, currPid, parPid, p);
      ghost var q := PidAt(pcbs[p].parPcb);
      DropTo(p);
      model := s.Halted();
      WithoutClocks(before, Rep(before.used[p := false], before.pcbs[p := ZERO_PCB], before.places), s.Ended(), p);
      Established(Rep(before.used[p := false], before.pcbs[p := ZERO_PCB], before.places), s.Halted(),
                  old(currPid)[currProcess := q], old(parPid)[currProcess := before.pcbs[q].parPid]);
    }

    /** The rest of sys_halt: bookkeeping and stack pointer of the parent, the PCB cleared. */
    method DropTo(p: int)
      requires |used| == |pcbs| == MAX_PROCESSES && 0 <= p < MAX_PROCESSES && clock.Valid(used)
      requires |currPid| == |parPid| == NUM_TERMINALS && 0 <= currProcess < NUM_TERMINALS
      requires 0 <= PidAt(pcbs[p].parPcb) < MAX_PROCESSES
      modifies this`used, this`pcbs, this`currPid, this`parPid, this`programFrame, this`esp0, this`esp, clock
      ensures used == old(used)[p := false] && clock.Valid(used) && pcbs == old(pcbs)[p := ZERO_PCB]
      ensures old(Watch()).Valid() && Watch() == WithoutClock(old(Watch()), p, old(used))
      ensures var pcb, parent := old(pcbs)[p], old(pcbs)[PidAt(old(pcbs)[p].parPcb)];
              && currPid == old(currPid)[currProcess := parent.pid]
              && parPid == old(parPid)[currProcess := parent.parPid]
              && esp == pcb.parEsp && esp0 == StackTop(pcb.parPid) && programFrame == ProgramFrame(pcb.parPid)
    {
      Release(p);
      var pcb := pcbs[p];
      var parent := pcbs[PidAt(pcb.parPcb)];
      currPid := currPid[currProcess := parent.pid];
      parPid := parPid[currProcess := parent.parPid];
      esp := pcb.parEsp;
      pcbs := pcbs[p := ZERO_PCB];
      clock.Wipe(used, p);
    }

    /** The running program enters the kernel, or works there: the stack pointer moves within the stack
        that tss.esp0 names. */
    method Work(offset: nat)
      requires Inv()
      modifies this`esp, this`model
      ensures Inv() && model == old(model).Worked(offset)
    {
      if currPid[currProcess] != -1 && offset < KERNEL_STACK {
        WorkTables(R(), model, currPid, parPid, offset);
        esp := esp0 + 4 - KERNEL_STACK + offset;
        model := model.Worked(offset);
      }
    }

    lemma RunningPid()
      requires Inv()
      ensures var th, p := model.threads[model.turn], currPid[currProcess];
              if p == -1 then !th.Started()
              else 0 <= p < MAX_PROCESSES && used[p] && th.Started() && th.Top() == p
    {
      if model.threads[currProcess].Started() { TopUsed(R(), model.threads, currProcess); }
    }

    /** The PCB of the running program counts the clock descriptors the reference gives it. */
    lemma RunningFds()
      requires Inv() && model.threads[model.turn].Started()
      ensures var p := currPid[currProcess];
              0 <= p < MAX_PROCESSES && p == model.threads[model.turn].Top() && pcbs[p].clockFds == model.clocks.fds[p]
    {
      RunningPid();
      assert FdsOf(pcbs)[currPid[currProcess]] == pcbs[currPid[currProcess]].clockFds;
    }

    /** Whatever the running program calls, the kernel starts at the top of that program's own stack, finds
        its PCB from anywhere in that stack, and sees its own 4 MB of program memory. */
    ghost predicate EntersOwnStack()
      requires model.Valid()
      reads this
    {
      var th := model.threads[model.turn];
      th.Started() ==> StackOf(th.Top(), esp0) && programFrame * 0x1000 == 0x80_0000 + 0x40_0000 * th.Top()
    }

    lemma KernelEntry()
      requires Inv()
      ensures EntersOwnStack()
    {
      var th := model.threads[model.turn];
      if th.Started() {
        TopContext(R(), model, currPid, parPid);
        ProgramPage(th.Top());
        WholeStack(th.Top());
      }
    }

    /** rtc_open and the descriptor that goes with it. */
    method ClockOpen()
      requires Inv()
      modifies this`pcbs, this`model, clock
      ensures Inv() && model == old(model).ClockOpened()
    {
      var p := currPid[currProcess];
      RunningPid();
      if p == -1 {
        clock.Open(used, p);
      } else {
        OpenOne(p);
      }
    }

    method OpenOne(p: int)
      requires Inv() && p == currPid[currProcess] && 0 <= p < MAX_PROCESSES
      requires model.threads[model.turn].Started() && model.threads[model.turn].Top() == p
      modifies this`pcbs, this`model, clock
      ensures Inv() && model == old(model).ClockOpened()
    {
      ghost var s, s', n := model, model.ClockOpened(), pcbs[p].clockFds + 1;
      ghost var r' := R().(pcbs := pcbs[p := pcbs[p].(clockFds := n)]);
      assert s'.clocks == s.clocks.Set(p, 0, s.clocks.fds[p] + 1);
      ClockTables(R(), s, s', currPid, parPid, p, n);
      CountAndOpen(p);
      model := s';
      Established(r', s', currPid, parPid);
    }

    method CountAndOpen(p: int)
      requires clock.Valid(used) && |pcbs| == MAX_PROCESSES && 0 <= p < MAX_PROCESSES
      modifies this`pcbs, clock
      ensures clock.Valid(used) && pcbs == old(pcbs)[p := old(pcbs)[p].(clockFds := old(pcbs)[p].clockFds + 1)]
      ensures old(Watch()).Valid() && Watch() == old(Watch()).Set(p, 0, old(Watch()).fds[p] + 1)
    {
      pcbs := pcbs[p := pcbs[p].(clockFds := pcbs[p].clockFds + 1)];
      clock.Open(used, p);
    }

    /** sys_close on a clock descriptor. */
    method ClockClose()
      requires Inv()
      modifies this`pcbs, this`model, clock
      ensures Inv() && model == old(model).ClockClosed()
    {
      var p := currPid[currProcess];
      RunningPid();
      if p != -1 && pcbs[p].clockFds > 0 {
        CloseOne(p);
      }
    }

    method CloseOne(p: int)
      requires Inv() && p == currPid[currProcess] && 0 <= p < MAX_PROCESSES && pcbs[p].clockFds > 0
      requires model.threads[model.turn].Started() && model.threads[model.turn].Top() == p
      modifies this`pcbs, this`model, clock
      ensures Inv() && model == old(model).ClockClosed()
    {
      ghost var s, r, s' := model, R(), model.ClockClosed();
      ghost var pcb := pcbs[p].(clockFds := pcbs[p].clockFds - 1);
      assert FdsOf(pcbs)[p] == s.clocks.fds[p];
      CloseTables(r, s, s', currPid, parPid, p, pcb);
      CountAndClose(p, pcb);
      model := s';
      Established(r.(pcbs := r.pcbs[p := pcb]), s', currPid, parPid);
    }

    method CountAndClose(p: int, ghost pcb: Pcb)
      requires clock.Valid(used) && |pcbs| == MAX_PROCESSES && 0 <= p < MAX_PROCESSES && pcbs[p].clockFds > 0
      requires pcb == pcbs[p].(clockFds := pcbs[p].clockFds - 1)
      modifies this`pcbs, clock
      ensures clock.Valid(used) && pcbs == old(pcbs)[p := pcb]
      ensures old(Watch()).Valid() && old(Watch()).fds[p] > 0 && Watch() == ClosedClock(old(Watch()), p, used)
    {
      pcbs := pcbs[p := pcbs[p].(clockFds := pcbs[p].clockFds - 1)];
      clock.Close(used);
      assert Rtc.FreqsOf(clock.pcbs)[p := Rtc.FreqsOf(clock.pcbs)[p]] == Rtc.FreqsOf(clock.pcbs);
    }

    /** rtc_write by the running program. */
    method ClockWrite(freq: int) returns (r: int)
      requires Inv()
      modifies this`model, clock
      ensures Inv() && model == old(model).ClockWritten(freq)
      ensures r == if 0 <= freq && Rtc.IsFreq(freq) then 0 else ERROR
    {
      var p := currPid[currProcess];
      RunningPid();
      ghost var s := model;
      r := clock.Write(used, p, false, 4, freq);
      if p != -1 {
        model := s.ClockWritten(freq);
        ClocksFree(R(), s, currPid, parPid, model);
        WrittenClocks(s, p, freq);
        Established(R(), model, currPid, parPid);
      }
    }

    static lemma WrittenClocks(s: Table, p: int, freq: int)
      requires s.Valid() && 0 <= p < MAX_PROCESSES && s.threads[s.turn].Started() && s.threads[s.turn].Top() == p
      ensures var c := s.clocks;
              s.ClockWritten(freq).clocks == if freq < 0 || !Rtc.IsFreq(freq) then c
                                             else Clocks(c.freqs[p := freq], c.fds, Max(c.rate, freq))
    {
      assert s.clocks.fds[p := s.clocks.fds[p]] == s.clocks.fds;
    }

    method Apply(e: Event)
      requires Inv() && (e == Exec(true) ==> model.AllStarted())
      modifies this, clock
      ensures Inv() && model == old(model).Step(e) && EntersOwnStack()
    {
      match e {
        case Tick => Tick(true);
        case Exec(loadable) => ApplyExec(loadable);
        case Halt => var _ := Halt();
        case Work(offset) => Work(offset);
        case ClockOpen => ClockOpen();
        case ClockClose => ClockClose();
        case ClockWrite(freq) => var _ := ClockWrite(freq);
      }
      KernelEntry();
    }

    /** A step after k ticks. */
    method ApplyNext(e: Event, ghost k: nat)
      requires Inv() && Booted(model, k) && (e == Exec(true) ==> k >= NUM_TERMINALS)
      modifies this, clock
      ensures Inv() && model == old(model).Step(e) && Booted(model, k + if e.Tick? then 1 else 0)
    {
      StepBoots(model, e, k);
      Apply(e);
    }

    method ApplyExec(loadable: bool)
      requires Inv() && (loadable ==> model.AllStarted())
      modifies this, clock
      ensures Inv() && model == old(model).Executed(loadable)
    {
      var _ := Execute(loadable);
    }

    /** Every run of ticks, executes, halts, kernel work and clock calls is a run of three independent
        threads; chains, contexts, page, TSS and clock agree throughout. */
    method Run(events: seq<Event>)
      requires Inv() && Timely(model, events)
      modifies this, clock
      ensures Inv() && model == RunAll(old(model), events) && EntersOwnStack()
    {
      ghost var s := model;
      var i := 0;
      while i < |events|
        invariant 0 <= i <= |events| && Inv() && model == RunAll(s, events[..i])
      {
        OneMore(s, events, i);
        Apply(events[i]);
        i := i + 1;
      }
      assert events[..i] == events;
      KernelEntry();
    }

    /** Frequencies on the machine: after any run a process has the one it last wrote successfully since it
        last opened the clock or started, and the hardware serves it exactly. */
    method RunFrequencies(events: seq<Event>, p: int)
      requires Inv() && Timely(model, events) && 0 <= p < MAX_PROCESSES
      modifies this, clock
      ensures Inv() && model == RunAll(old(model), events)
      ensures clock.pcbs[p].freq == LastFreq(old(model), events, p, old(clock.pcbs)[p].freq)
      ensures used[p] ==> Rtc.Exact(clock.pcbs[p], clock.higherFreq)
    {
      ghost var s := model;
      assert s.clocks.freqs[p] == clock.pcbs[p].freq;
      Run(events);
      FreqIsLastWritten(s, events, p);
      assert model.clocks.freqs[p] == clock.pcbs[p].freq;
    }

    /** Balanced runs on the machine: whatever happens meanwhile, a terminal's bookkeeping and PCBs come
        back, and if it has its turn again, so do page and TSS; and the stack pointer, if only the
        nested programs worked in the kernel. */
    method BalancedRun(events: seq<Event>, t: int)
      requires Inv() && Timely(model, events) && 0 <= t < NUM_TERMINALS && model.threads[t].Started()
      requires Nested(MovesFor(model, events, t)) && Depth(MovesFor(model, events, t)) == 0
      modifies this, clock
      ensures Inv() && model == RunAll(old(model), events)
      ensures currPid[t] == old(currPid)[t] && parPid[t] == old(parPid)[t]
      ensures var chain := old(model).threads[t].chain;
              forall i :: 0 <= i < |chain| ==> SamePcb(old(R()), R(), chain, i)
      ensures currProcess == t == old(currProcess) ==>
                && programFrame == old(programFrame) && esp0 == old(esp0)
                && (ShiftsInside(MovesFor(old(model), events, t)) ==> esp == old(esp))
    {
      ghost var r, s, cp, pp := R(), model, currPid, parPid;
      BalancedRunRestores(s, events, t);
      Run(events);
      ChainDecidesTables(r, s, cp, pp, R(), model, currPid, parPid, t);
    }

    /** The first execute of a run from power-on, or one after timely others: it is recorded under its
        caller exactly if three ticks came before; after fewer it gets their number as its pid, and
        itself as its parent. */
    method RunThenExecute(events: seq<Event>) returns (r: int)
      requires Inv() && model == POWER_ON && ExecsAfterBoot(events) && Ticks(events) >= 1
      modifies this, clock
      ensures r != ERROR ==> 0 <= r < MAX_PROCESSES == |pcbs|
      ensures var s := RunAll(POWER_ON, events);
              && s.threads[s.turn].Started()
              && (r != ERROR ==> (pcbs[r].parPid == s.threads[s.turn].Top() <==> Ticks(events) >= NUM_TERMINALS))
      ensures Ticks(events) < NUM_TERMINALS ==> r == Ticks(events) && pcbs[r].parPid == r
    {
      TimelyIff(events);
      Run(events);
      assert events[..|events|] == events;
      BootedAfter(events, |events|);
      EarlyPid(Ticks(events));
      r := Execute(true);
    }

    /** After k ticks, fewer than three, the lowest free pid is k. */
    lemma EarlyPid(k: nat)
      requires Inv() && Booted(model, k) && k >= 1
      ensures model.threads[currProcess].Started()
      ensures k < NUM_TERMINALS ==> !model.AllStarted() && LowestFree(used, k)
      ensures k >= NUM_TERMINALS ==> model.AllStarted()
    {
      RootUsed(R(), model.threads, 0);
      RootUsed(R(), model.threads, 1);
      RootUsed(R(), model.threads, 2);
    }

    /** For example, a program executed after one tick gets pid 1 and is its own parent, although the
        shell that executed it is process 0. */
    static method EarlyExecute(esp: int) returns (table: ProcessTable, r: int)
      requires InStack(0, esp)
      ensures r == 1 && |table.pcbs| == MAX_PROCESSES && table.pcbs[1].parPid == 1
      ensures RunAll(POWER_ON, [Event.Tick]).threads[0] == Root(0)
    {
      var clock := new Rtc.Clock();
      table := new ProcessTable(clock, esp);
      assert [Event.Tick][..0] == [];
      r := table.RunThenExecute([Event.Tick]);
    }
  }

  lemma OneMore(s: Table, events: seq<Event>, i: nat)
    requires s.Valid() && i < |events|
    ensures RunAll(s, events[..i + 1]) == RunAll(s, events[..i]).Step(events[i])
    ensures Ticks(events[..i + 1]) == Ticks(events[..i]) + if events[i].Tick? then 1 else 0
  {
    assert events[..i + 1][..i] == events[..i];
  }

  /** Exactly the first k terminals have their shells. */
  ghost predicate Booted(s: Table, k: nat)
    requires s.Valid()
  {
    (k >= 1 <==> s.threads[0].Started()) && (k >= 2 <==> s.threads[1].Started()) && (k >= 3 <==> s.threads[2].Started())
  }

  lemma StepBoots(s: Table, e: Event, k: nat)
    requires s.Valid() && BootOrder(s) && Booted(s, k) && (e == Exec(true) ==> k >= NUM_TERMINALS)
    ensures BootOrder(s.Step(e)) && Booted(s.Step(e), k + if e.Tick? then 1 else 0)
  {
  }
}
