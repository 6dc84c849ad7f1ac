/** The reference behaviour of the process table: three independent threads of control, one per
    terminal, each a stack of nested programs with a kernel stack pointer of its own. Pages, the TSS,
    PCBs and saved registers do not appear here. */
module Threads {
  import opened Bytes
  import Rtc

  const KERNEL_TOP := 0x80_0000
  const KERNEL_STACK := 0x2000

  /** Kernel stack of process p: the p-th 8 KB block below 8 MB, with the PCB at its bottom. */
  function PcbAddr(p: int): int {
    KERNEL_TOP - (p + 1) * KERNEL_STACK
  }

  /** Where the processor starts on that stack when it enters the kernel (tss.esp0). */
  function StackTop(p: int): int {
    KERNEL_TOP - 4 - p * KERNEL_STACK
  }

  predicate InStack(p: int, esp: int) {
    PcbAddr(p) <= esp < PcbAddr(p) + KERNEL_STACK
  }

  /** A running program: its pid, and where on its parent's stack the parent waits. */
  datatype Program = Program(pid: int, parEsp: int)

  datatype Thread = Thread(chain: seq<Program>, sp: int) {
    predicate Started() {
      chain != []
    }

    function Top(): int
      requires Started()
    {
      chain[|chain| - 1].pid
    }
  }

  datatype Event =
    | Tick                     // the PIT handler
    | Exec(loadable: bool)     // sys_execute by the running program; loadable: the file is an executable
    | Halt                     // sys_halt by the running program
    | Work(offset: nat)        // the running program enters or works in the kernel; its stack pointer moves
    | ClockOpen | ClockClose   // rtc_open, rtc_close
    | ClockWrite(freq: int)    // rtc_write

  /** What programs want of the clock, by pid: frequencies and open descriptors; and its rate. */
  datatype Clocks = Clocks(freqs: seq<nat>, fds: seq<nat>, rate: nat) {
    predicate Valid() {
      |freqs| == |fds| == MAX_PROCESSES
    }

    function Set(p: int, freq: nat, n: nat): (c: Clocks)
      requires Valid()
      ensures c.Valid()
    {
      if 0 <= p < MAX_PROCESSES then Clocks(freqs[p := freq], fds[p := n], rate) else this
    }

    function FdsOf(p: int): nat
      requires Valid()
    {
      if 0 <= p < MAX_PROCESSES then fds[p] else 0
    }
  }

  datatype Table = Table(threads: seq<Thread>, turn: int, clocks: Clocks) {
    ghost predicate Valid() {
      |threads| == NUM_TERMINALS && 0 <= turn < NUM_TERMINALS && clocks.Valid()
    }

    predicate AllStarted()
      requires |threads| == NUM_TERMINALS
    {
      threads[0].Started() && threads[1].Started() && threads[2].Started()
    }

    predicate InUse(p: int)
      requires |threads| == NUM_TERMINALS
    {
      Runs(threads[0].chain, p) || Runs(threads[1].chain, p) || Runs(threads[2].chain, p)
    }

    /** The lowest unused pid from p on, or 6. */
    function FreeFrom(p: nat): (f: nat)
      requires |threads| == NUM_TERMINALS && p <= MAX_PROCESSES
      ensures p <= f <= MAX_PROCESSES && (f < MAX_PROCESSES ==> !InUse(f))
      ensures forall q :: p <= q < f ==> InUse(q)
      decreases MAX_PROCESSES - p
    {
      if p == MAX_PROCESSES || !InUse(p) then p else FreeFrom(p + 1)
    }

    /** The pids in use, as a table. */
    function Used(): (u: seq<bool>)
      requires |threads| == NUM_TERMINALS
      ensures |u| == MAX_PROCESSES
    {
      seq(MAX_PROCESSES, p requires 0 <= p < MAX_PROCESSES => InUse(p))
    }

    /** The clock brought down to the highest frequency still wanted. */
    function Slowed(): (s: Table)
      requires Valid()
      ensures s.Valid() && s.threads == threads && s.turn == turn
    {
      this.(clocks := clocks.(rate := Rtc.Highest(Used(), clocks.freqs, MAX_PROCESSES)))
    }

    /** Program p has been wiped out, with its wishes; closing its clocks has slowed the clock. */
    function Without(p: int): (s: Table)
      requires Valid()
      ensures s.Valid() && s.threads == threads && s.turn == turn
    {
      var s := this.(clocks := clocks.Set(p, 0, 0));
      if clocks.FdsOf(p) > 0 then s.Slowed() else s
    }

    function Set(t: int, thread: Thread): (s: Table)
      requires Valid() && 0 <= t < NUM_TERMINALS
      ensures s.Valid()
    {
      this.(threads := threads[t := thread])
    }

    /** The next thread gets its turn where it left off; one that never ran starts its root shell. */
    function Ticked(): (s: Table)
      requires Valid()
      ensures s.Valid()
    {
      var n := (turn + 1) % NUM_TERMINALS;
      var s := this.(turn := n);
      if threads[n].Started() then s else s.Set(n, Root(n)).(clocks := clocks.Set(n, 0, 0))
    }

    /** The running program is nested one deeper, under the lowest free pid, if that is possible. */
    function Executed(loadable: bool): (s: Table)
      requires Valid()
      ensures s.Valid()
    {
      var p, th := FreeFrom(0), threads[turn];
      if !loadable || p == MAX_PROCESSES then this
      else Set(turn, Thread(th.chain + [Program(p, th.sp)], StackTop(p))).(clocks := clocks.Set(p, 0, 0))
    }

    /** The running program ends: its parent goes on where it waited; a root shell starts over. */
    function Ended(): (s: Table)
      requires Valid()
      ensures s.Valid() && s.turn == turn && s.clocks == clocks
    {
      var th := threads[turn];
      if !th.Started() then this
      else if |th.chain| == 1 then Set(turn, Root(turn))
      else Set(turn, Thread(th.chain[..|th.chain| - 1], th.chain[|th.chain| - 1].parEsp))
    }

    /** The same with its wishes for the clock gone. */
    function Halted(): (s: Table)
      requires Valid()
      ensures s.Valid() && s.turn == turn && s.threads == Ended().threads
    {
      if !threads[turn].Started() then this else Ended().Without(threads[turn].Top())
    }

    function Worked(offset: nat): (s: Table)
      requires Valid()
      ensures s.Valid()
    {
      var th := threads[turn];
      if !th.Started() || offset >= KERNEL_STACK then this else Set(turn, th.(sp := PcbAddr(th.Top()) + offset))
    }

    /** Opening the clock forgets the program's frequency. */
    function ClockOpened(): (s: Table)
      requires Valid()
      ensures s.Valid() && s.threads == threads && s.turn == turn
    {
      var th := threads[turn];
      if !th.Started() then this else this.(clocks := clocks.Set(th.Top(), 0, clocks.FdsOf(th.Top()) + 1))
    }

    /** Closing it leaves the frequencies alone and slows the clock down if it can. */
    function ClockClosed(): (s: Table)
      requires Valid()
      ensures s.Valid() && s.threads == threads && s.turn == turn
    {
      var th := threads[turn];
      if !th.Started() || clocks.FdsOf(th.Top()) == 0 then this
      else
        var p := th.Top();
        this.(clocks := clocks.Set(p, clocks.freqs[p], clocks.FdsOf(p) - 1)).Slowed()
    }

    function ClockWritten(freq: int): (s: Table)
      requires Valid()
      ensures s.Valid() && s.threads == threads && s.turn == turn
    {
      var th := threads[turn];
      if !th.Started() || freq < 0 || !Rtc.IsFreq(freq) then this
      else this.(clocks := clocks.Set(th.Top(), freq, clocks.FdsOf(th.Top())).(rate := Max(clocks.rate, freq)))
    }

    function Step(e: Event): (s: Table)
      requires Valid()
      ensures s.Valid()
    {
      match e
      case Tick => Ticked()
      case Exec(loadable) => Executed(loadable)
      case Halt => Halted()
      case Work(offset) => Worked(offset)
      case ClockOpen => ClockOpened()
      case ClockClose => ClockClosed()
      case ClockWrite(freq) => ClockWritten(freq)
    }
  }

  predicate Runs(chain: seq<Program>, p: int) {
    exists i :: 0 <= i < |chain| && chain[i].pid == p
  }

  function Root(t: int): Thread {
    Thread([Program(t, 0)], StackTop(t))
  }

  function RunAll(s: Table, events: seq<Event>): (r: Table)
    requires s.Valid()
    ensures r.Valid()
  {
    if events == [] then s else RunAll(s, events[..|events| - 1]).Step(events[|events| - 1])
  }

  // ---- Balanced runs ----

  /** What one event does to the thread whose turn it is. */
  datatype Move = Push(pid: int) | Pop | Shift(sp: int)

  /** The move of event e on thread t, if any. */
  function MoveFor(s: Table, e: Event, t: int): Option<Move>
    requires s.Valid() && 0 <= t < NUM_TERMINALS
  {
    if t != s.turn then None
    else match e
         case Exec(loadable) => if loadable && s.FreeFrom(0) < MAX_PROCESSES then Some(Push(s.FreeFrom(0))) else None
         case Halt => if s.threads[t].Started() then Some(Pop) else None
         case Work(offset) =>
           if s.threads[t].Started() && offset < KERNEL_STACK then Some(Shift(s.Worked(offset).threads[t].sp)) else None
         case _ => None
  }

  function MovesFor(s: Table, events: seq<Event>, t: int): seq<Move>
    requires s.Valid() && 0 <= t < NUM_TERMINALS
  {
    if events == [] then []
    else
      var front := events[..|events| - 1];
      var m := MoveFor(RunAll(s, front), events[|events| - 1], t);
      if m.Some? then MovesFor(s, front, t) + [m.value] else MovesFor(s, front, t)
  }

  function Depth(moves: seq<Move>): int {
    if moves == [] then 0
    else Depth(moves[..|moves| - 1]) + match moves[|moves| - 1] case Push(_) => 1 case Pop => -1 case Shift(_) => 0
  }

  /** No halt reaches below the program that was on top at the start. */
  predicate Nested(moves: seq<Move>) {
    moves == [] || (Nested(moves[..|moves| - 1]) && Depth(moves) >= 0)
  }

  function Moved(th: Thread, t: int, m: Move): (r: Thread)
    requires th.Started()
    ensures r.Started()
  {
    match m
    case Push(pid) => Thread(th.chain + [Program(pid, th.sp)], StackTop(pid))
    case Pop =>
      if |th.chain| == 1 then Root(t) else Thread(th.chain[..|th.chain| - 1], th.chain[|th.chain| - 1].parEsp)
    case Shift(sp) => th.(sp := sp)
  }

  function MovedAll(th: Thread, t: int, moves: seq<Move>): (r: Thread)
    requires th.Started()
    ensures r.Started()
  {
    if moves == [] then th else Moved(MovedAll(th, t, moves[..|moves| - 1]), t, moves[|moves| - 1])
  }

  /** Whatever the interleaving, a thread's programs and stack pointer are the work of its own moves. */
  lemma {:induction false} ThreadsAreIndependent(s: Table, events: seq<Event>, t: int)
    requires s.Valid() && 0 <= t < NUM_TERMINALS && s.threads[t].Started()
    ensures RunAll(s, events).threads[t] == MovedAll(s.threads[t], t, MovesFor(s, events, t))
  {
    if events != [] {
      var front, e := events[..|events| - 1], events[|events| - 1];
      var before, moves := MovesFor(s, front, t), MovesFor(s, events, t);
      if moves != before { assert moves[..|moves| - 1] == before; }
      ThreadsAreIndependent(s, front, t);
      StepIsMove(RunAll(s, front), e, t);
    }
  }

  lemma StepIsMove(s: Table, e: Event, t: int)
    requires s.Valid() && 0 <= t < NUM_TERMINALS && s.threads[t].Started()
    ensures var m := MoveFor(s, e, t);
            s.Step(e).threads[t] == if m.Some? then Moved(s.threads[t], t, m.value) else s.threads[t]
  {
  }

  /** The stack pointer moves only while a nested program runs. */
  predicate ShiftsInside(moves: seq<Move>) {
    moves == [] ||
    (ShiftsInside(moves[..|moves| - 1]) && (moves[|moves| - 1].Shift? ==> Depth(moves) > 0))
  }

  /** A nested run keeps the programs below and the place where the caller waits. */
  lemma {:induction false} NestedMoves(th: Thread, t: int, moves: seq<Move>)
    requires th.Started() && Nested(moves)
    ensures var now := MovedAll(th, t, moves);
            && th.chain <= now.chain && |now.chain| == |th.chain| + Depth(moves)
            && (ShiftsInside(moves) ==>
                  if Depth(moves) == 0 then now.sp == th.sp else now.chain[|th.chain|].parEsp == th.sp)
  {
    if moves != [] {
      NestedMoves(th, t, moves[..|moves| - 1]);
    }
  }

  /** In a nested run, whatever the other threads do, the programs below stay as they were and the
      chain has grown by exactly the depth. */
  lemma NestedKeepsChain(s: Table, events: seq<Event>, t: int)
    requires s.Valid() && 0 <= t < NUM_TERMINALS && s.threads[t].Started() && Nested(MovesFor(s, events, t))
    ensures var was, now := s.threads[t].chain, RunAll(s, events).threads[t].chain;
            was <= now && |now| == |was| + Depth(MovesFor(s, events, t))
  {
    ThreadsAreIndependent(s, events, t);
    NestedMoves(s.threads[t], t, MovesFor(s, events, t));
  }

  /** Balanced runs: when the executes and halts of a thread match up, its chain of programs, with their
      pids and the places where their parents wait, is exactly what it was; and so is its stack pointer,
      if only the nested programs worked in the kernel. */
  lemma BalancedRunRestores(s: Table, events: seq<Event>, t: int)
    requires s.Valid() && 0 <= t < NUM_TERMINALS && s.threads[t].Started()
    requires Nested(MovesFor(s, events, t)) && Depth(MovesFor(s, events, t)) == 0
    ensures RunAll(s, events).threads[t].chain == s.threads[t].chain
    ensures ShiftsInside(MovesFor(s, events, t)) ==> RunAll(s, events).threads[t] == s.threads[t]
  {
    ThreadsAreIndependent(s, events, t);
    NestedMoves(s.threads[t], t, MovesFor(s, events, t));
  }

  /** Everything that happens between an execute and the halt that answers it happens inside. */
  lemma {:induction false} CallIsNested(p: int, inner: seq<Move>)
    requires Nested(inner)
    ensures var moves := [Push(p)] + inner;
            Depth(moves) == Depth(inner) + 1 && Nested(moves) && ShiftsInside(moves)
  {
    var moves := [Push(p)] + inner;
    if inner == [] {
      assert moves[..0] == [];
    } else {
      CallIsNested(p, inner[..|inner| - 1]);
      assert moves[..|moves| - 1] == [Push(p)] + inner[..|inner| - 1];
    }
  }

  /** An execute returns: once the program it started has halted, after any nested run of its own and
      any activity of the other threads, the caller stands exactly where it stood. */
  lemma ExecuteReturns(s: Table, events: seq<Event>, t: int, p: int, inner: seq<Move>)
    requires s.Valid() && 0 <= t < NUM_TERMINALS && s.threads[t].Started()
    requires Nested(inner) && Depth(inner) == 0 && MovesFor(s, events, t) == [Push(p)] + inner + [Pop]
    ensures RunAll(s, events).threads[t] == s.threads[t]
  {
    var moves := [Push(p)] + inner + [Pop];
    CallIsNested(p, inner);
    assert moves[..|moves| - 1] == [Push(p)] + inner;
    BalancedRunRestores(s, events, t);
  }

  // ---- Turns and the clock ----

  function TicksIn(events: seq<Event>): nat {
    if events == [] then 0 else TicksIn(events[..|events| - 1]) + if events[|events| - 1].Tick? then 1 else 0
  }

  lemma {:induction false} TurnsTaken(s: Table, events: seq<Event>)
    requires s.Valid()
    ensures RunAll(s, events).turn == Turned(s.turn, TicksIn(events))
  {
    if events != [] {
      TurnsTaken(s, events[..|events| - 1]);
      TurnStep(RunAll(s, events[..|events| - 1]), events[|events| - 1]);
    }
  }

  /** Turns go round: only ticks pass them on, each to the next of the three threads. */
  lemma RoundRobin(s: Table, events: seq<Event>)
    requires s.Valid()
    ensures RunAll(s, events).turn == (s.turn + TicksIn(events)) % 3
  {
    TurnsTaken(s, events);
    TurnedIs(s.turn, TicksIn(events));
  }

  lemma TurnStep(s: Table, e: Event)
    requires s.Valid()
    ensures s.Step(e).turn == if e.Tick? then (s.turn + 1) % 3 else s.turn
  {
  }

  /** The clock runs no faster than some live program wants, or at 2 Hz, and fast enough for all. */
  ghost predicate AsFastAsWanted(s: Table)
    requires s.Valid()
  {
    && s.clocks.rate >= 2 && (forall p :: 0 <= p < MAX_PROCESSES && s.InUse(p) ==> s.clocks.freqs[p] <= s.clocks.rate)
    && (s.clocks.rate == 2 || exists p :: 0 <= p < MAX_PROCESSES && s.InUse(p) && s.clocks.freqs[p] == s.clocks.rate)
  }

  lemma SlowedIsWanted(s: Table)
    requires s.Valid()
    ensures AsFastAsWanted(s.Slowed())
  {
    var u := s.Used();
    Rtc.HighestIsMax(u, s.clocks.freqs, MAX_PROCESSES);
    assert forall p :: 0 <= p < MAX_PROCESSES ==> u[p] == s.InUse(p) == s.Slowed().InUse(p);
  }

  /** The rate: an accepted write raises it if need be; closing the clock, or ending with it open, brings it
      down to what is wanted; nothing else changes it. */
  lemma RateFollows(s: Table, e: Event)
    requires s.Valid()
    ensures var th, now := s.threads[s.turn], s.Step(e);
            if !th.Started() then now.clocks.rate == s.clocks.rate
            else if e.ClockWrite? && e.freq >= 0 && Rtc.IsFreq(e.freq) then now.clocks.rate == Max(s.clocks.rate, e.freq)
            else if (e.ClockClose? || e.Halt?) && s.clocks.FdsOf(th.Top()) > 0 then AsFastAsWanted(now)
            else now.clocks.rate == s.clocks.rate
  {
    var th := s.threads[s.turn];
    if th.Started() && s.clocks.FdsOf(th.Top()) > 0 {
      var p := th.Top();
      SlowedIsWanted(s.(clocks := s.clocks.Set(p, s.clocks.freqs[p], s.clocks.FdsOf(p) - 1)));
      SlowedIsWanted(s.Ended().(clocks := s.clocks.Set(p, 0, 0)));
    }
  }

  /** The frequency event e gives to process p, if it concerns p's clock at all: what it writes, or 0 where
      it opens the clock, starts or ends. */
  function FreqFor(s: Table, e: Event, p: int): Option<nat>
    requires s.Valid()
  {
    var th, n, free := s.threads[s.turn], (s.turn + 1) % NUM_TERMINALS, s.FreeFrom(0);
    var mine := th.Started() && th.Top() == p;
    match e
    case Tick => if p == n && !s.threads[n].Started() then Some(0) else None
    case Exec(loadable) => if loadable && p == free < MAX_PROCESSES then Some(0) else None
    case Halt => if mine then Some(0) else None
    case ClockOpen => if mine then Some(0) else None
    case ClockWrite(freq) => if mine && 0 <= freq && Rtc.IsFreq(freq) then Some(freq) else None
    case _ => None
  }

  /** The last frequency a run gives to process p; `start` if it gives none. */
  function LastFreq(s: Table, events: seq<Event>, p: int, start: nat): nat
    requires s.Valid()
  {
    if events == [] then start
    else
      var front := events[..|events| - 1];
      var f := FreqFor(RunAll(s, front), events[|events| - 1], p);
      if f.Some? then f.value else LastFreq(s, front, p, start)
  }

  lemma StepSetsFreq(s: Table, e: Event, p: int)
    requires s.Valid() && 0 <= p < MAX_PROCESSES
    ensures var f := FreqFor(s, e, p); s.Step(e).clocks.freqs[p] == if f.Some? then f.value else s.clocks.freqs[p]
  {
  }

  /** Over every run a program's frequency is that of its last accepted write since it last opened the
      clock or started, and no other program's doing. */
  lemma {:induction false} FreqIsLastWritten(s: Table, events: seq<Event>, p: int)
    requires s.Valid() && 0 <= p < MAX_PROCESSES
    ensures RunAll(s, events).clocks.freqs[p] == LastFreq(s, events, p, s.clocks.freqs[p])
  {
    if events != [] {
      var front := events[..|events| - 1];
      FreqIsLastWritten(s, front, p);
      StepSetsFreq(RunAll(s, front), events[|events| - 1], p);
    }
  }
}
