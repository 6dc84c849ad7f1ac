/** The kernel as a whole: the multiplexer and the process table take every timer tick together, and
    agree on whose turn it is and which terminals run. */
module Kernel {
  import opened Bytes
  import opened InterruptController
  import opened Screen
  import Rtc
  import D = Desk
  import T = Threads
  import I = Isolation
  import M = Multiplexer
  import P = Processes

  /** One step: a tick, or a step of the terminals or of the processes alone. */
  datatype Event = Tick(banner: seq<Byte>) | Terminal(d: D.Event) | Process(p: T.Event)

  /** Ticks are common events, not private ones. */
  ghost predicate Separate(events: seq<Event>) {
    forall i :: 0 <= i < |events| ==>
      (events[i].Terminal? ==> !events[i].d.Tick?) && (events[i].Process? ==> !events[i].p.Tick?)
  }

  /** What the terminals see of a run. */
  function TerminalPart(events: seq<Event>): seq<D.Event> {
    if events == [] then []
    else
      TerminalPart(events[..|events| - 1]) +
      match events[|events| - 1]
      case Tick(banner) => [D.Event.Tick(banner)]
      case Terminal(d) => [d]
      case Process(_) => []
  }

  /** What the processes see of a run. */
  function ProcessPart(events: seq<Event>): seq<T.Event> {
    if events == [] then []
    else
      ProcessPart(events[..|events| - 1]) +
      match events[|events| - 1]
      case Tick(_) => [T.Event.Tick]
      case Terminal(_) => []
      case Process(p) => [p]
  }

  /** The parts of a run, one event after the other: a tick is in both, any other event in its own. */
  lemma PartsOfRun(a: seq<Event>, b: seq<Event>)
    ensures TerminalPart(a + b) == TerminalPart(a) + TerminalPart(b)
    ensures ProcessPart(a + b) == ProcessPart(a) + ProcessPart(b)
  {
    TerminalsOfRun(a, b);
    ProcessesOfRun(a, b);
  }

  lemma {:induction false} TerminalsOfRun(a: seq<Event>, b: seq<Event>)
    ensures TerminalPart(a + b) == TerminalPart(a) + TerminalPart(b)
    decreases |b|
  {
    if b == [] {
      assert a + b == a;
    } else {
      TerminalsOfRun(a, b[..|b| - 1]);
      assert (a + b)[..|a + b| - 1] == a + b[..|b| - 1];
    }
  }

  lemma {:induction false} ProcessesOfRun(a: seq<Event>, b: seq<Event>)
    ensures ProcessPart(a + b) == ProcessPart(a) + ProcessPart(b)
    decreases |b|
  {
    if b == [] {
      assert a + b == a;
    } else {
      ProcessesOfRun(a, b[..|b| - 1]);
      assert (a + b)[..|a + b| - 1] == a + b[..|b| - 1];
    }
  }

  lemma PartsOfOne(e: Event)
    ensures TerminalPart([e]) == match e case Tick(t) => [D.Event.Tick(t)] case Terminal(d) => [d] case Process(_) => []
    ensures ProcessPart([e]) == match e case Tick(_) => [T.Event.Tick] case Terminal(_) => [] case Process(p) => [p]
  {
    assert [e][..0] == [];
  }

  /** The terminals at power-on: terminal 0 on the displayed page, each other one on its backup page. */
  function Terminals(pages: seq<seq<Byte>>): (s: D.State)
    requires |pages| == 4 && forall i :: 0 <= i < 4 ==> |pages[i]| == PAGE
    ensures s.Valid()
  {
    I.PowerOn(seq(3, t requires 0 <= t < 3 => Console(pages[if t == 0 then 0 else t + 1], 0, 0)), 0)
  }

  class Kernel {
    const mux: M.Multiplexer
    const procs: P.ProcessTable

    constructor (mux: M.Multiplexer, procs: P.ProcessTable)
      ensures this.mux == mux && this.procs == procs
    {
      this.mux := mux;
      this.procs := procs;
    }

    /** Start-up: the interrupt controller, the devices' lines and empty tables. The boot stack ends at
        8 MB; the video pages hold anything. */
    static method Boot(pages: seq<seq<Byte>>, esp: int) returns (k: Kernel)
      requires |pages| == 4 && (forall i :: 0 <= i < 4 ==> |pages[i]| == PAGE) && T.InStack(0, esp)
      ensures fresh(k) && fresh(k.mux) && fresh(k.mux.pic) && fresh(k.procs) && fresh(k.procs.clock)
      ensures k.Agree() && k.mux.View() == Terminals(pages) && k.procs.model == P.POWER_ON
      ensures k.mux.pic.enabled == {PIT_IRQ, KEYBOARD_IRQ, CASCADE_IRQ, RTC_IRQ}
    {
      var pic := InitLines();
      var mux := new M.Multiplexer(pages, 0, 0, pic);
      var clock := new Rtc.Clock();
      var procs := new P.ProcessTable(clock, esp);
      k := new Kernel(mux, procs);
    }

    /** From power-on through any run. */
    static method BootAndRun(pages: seq<seq<Byte>>, esp: int, events: seq<Event>) returns (k: Kernel)
      requires |pages| == 4 && (forall i :: 0 <= i < 4 ==> |pages[i]| == PAGE) && T.InStack(0, esp)
      requires events != [] && events[0].Tick? && Separate(events) && P.ExecsAfterBoot(ProcessPart(events))
      ensures k.Inv()
      ensures k.mux.View() == D.RunAll(Terminals(pages), TerminalPart(events))
      ensures k.procs.model == T.RunAll(P.POWER_ON, ProcessPart(events))
    {
      k := Boot(pages, esp);
      k.Run(events);
    }

    static method InitLines() returns (pic: Pic)
      ensures fresh(pic) && pic.Valid() && pic.enabled == {PIT_IRQ, KEYBOARD_IRQ, CASCADE_IRQ, RTC_IRQ}
    {
      pic := new Pic();
      pic.EnableIrq(RTC_IRQ);
      pic.EnableIrq(KEYBOARD_IRQ);
      pic.EnableIrq(PIT_IRQ);
    }

    ghost predicate Agree()
      reads mux, mux.pic, procs, procs.clock
    {
      mux.WellFormed() && procs.Inv() && InStep(mux.View(), procs.model)
    }

    /** From the first tick on: the video page, the live cursor, the keyboard mask, the program page, the
        TSS and the kernel stack all belong to the terminal whose turn it is, and it runs a program. */
    ghost predicate Inv()
      reads mux, mux.pic, procs, procs.clock
    {
      Agree() && mux.Inv() && mux.booted[mux.currProcess]
    }

    method TakeTick(banner: seq<Byte>)
      requires Agree()
      modifies mux, mux.pic, procs, procs.clock
      ensures Inv()
      ensures mux.View() == old(mux.View()).Ticked(banner) && procs.model == old(procs.model).Ticked()
    {
      ghost var v, s := mux.View(), procs.model;
      TickInStep(v, s, banner);
      mux.TakeTick(banner);
      procs.Tick(true);
    }

    method TakeTerminal(d: D.Event)
      requires Inv() && !d.Tick?
      modifies mux, mux.pic
      ensures Inv() && mux.View() == old(mux.View()).Step(d)
    {
      TerminalInStep(mux.View(), procs.model, d);
      mux.Apply(d);
    }

    method TakeProcess(p: T.Event, ghost k: nat)
      requires Inv() && !p.Tick? && P.Booted(procs.model, k) && (p == T.Exec(true) ==> k >= NUM_TERMINALS)
      modifies procs, procs.clock
      ensures Inv() && procs.model == old(procs.model).Step(p) && P.Booted(procs.model, k)
    {
      ProcessInStep(mux.View(), procs.model, p);
      procs.ApplyNext(p, k);
    }

    /** Every run of the kernel from its first tick on is a run of three independent terminals and of
        three independent threads, in step with each other. */
    method Run(events: seq<Event>)
      requires Agree() && procs.model == P.POWER_ON
      requires events != [] && events[0].Tick? && Separate(events) && P.ExecsAfterBoot(ProcessPart(events))
      modifies mux, mux.pic, procs, procs.clock
      ensures Inv()
      ensures mux.View() == D.RunAll(old(mux.View()), TerminalPart(events))
      ensures procs.model == T.RunAll(old(procs.model), ProcessPart(events))
    {
      ghost var v, s := mux.View(), procs.model;
      PartsOneMore(v, s, events, 0);
      assert events[..0] == [];
      P.StepBoots(s, T.Event.Tick, 0);
      TakeTick(events[0].banner);
      Continue(events, 1, v, s);
      assert events[..|events|] == events;
    }

    /** Where the first i events lead from v and s. */
    ghost predicate Reached(events: seq<Event>, i: nat, v: D.State, s: T.Table)
      requires i <= |events| && v.Valid() && s.Valid()
      reads mux, mux.pic, procs, procs.clock
    {
      && Inv()
      && mux.View() == D.RunAll(v, TerminalPart(events[..i]))
      && procs.model == T.RunAll(s, ProcessPart(events[..i]))
      && P.Booted(procs.model, P.Ticks(ProcessPart(events[..i])))
    }

    /** The rest of a run after its first i events. */
    method Continue(events: seq<Event>, i: nat, ghost v: D.State, ghost s: T.Table)
      requires i <= |events| && Separate(events) && P.ExecsAfterBoot(ProcessPart(events))
      requires v.Valid() && s.Valid() && Reached(events, i, v, s)
      modifies mux, mux.pic, procs, procs.clock
      ensures Reached(events, |events|, v, s)
      decreases |events| - i
    {
      if i < |events| {
        Advance(events, i, v, s);
        Continue(events, i + 1, v, s);
      }
    }

    method Advance(events: seq<Event>, i: nat, ghost v: D.State, ghost s: T.Table)
      requires i < |events| && Separate(events) && P.ExecsAfterBoot(ProcessPart(events))
      requires v.Valid() && s.Valid() && Reached(events, i, v, s)
      modifies mux, mux.pic, procs, procs.clock
      ensures Reached(events, i + 1, v, s)
    {
      PartsOneMore(v, s, events, i);
      TakeNext(events[i], P.Ticks(ProcessPart(events[..i])));
    }

    method TakeNext(e: Event, ghost k: nat)
      requires Inv() && P.Booted(procs.model, k)
      requires e.Terminal? ==> !e.d.Tick?
      requires e.Process? ==> !e.p.Tick? && (e.p == T.Exec(true) ==> k >= NUM_TERMINALS)
      modifies mux, mux.pic, procs, procs.clock
      ensures Inv() && P.Booted(procs.model, k + if e.Tick? then 1 else 0)
      ensures mux.View() == TerminalStep(old(mux.View()), e) && procs.model == ProcessStep(old(procs.model), e)
    {
      match e
      case Tick(banner) =>
        P.StepBoots(procs.model, T.Event.Tick, k);
        TakeTick(banner);
      case Terminal(d) => TakeTerminal(d);
      case Process(p) => TakeProcess(p, k);
    }
  }

  function TerminalStep(v: D.State, e: Event): (r: D.State)
    requires v.Valid()
    ensures r.Valid()
  {
    match e
    case Tick(banner) => v.Ticked(banner)
    case Terminal(d) => v.Step(d)
    case Process(_) => v
  }

  function ProcessStep(s: T.Table, e: Event): (r: T.Table)
    requires s.Valid()
    ensures r.Valid()
  {
    match e
    case Tick(_) => s.Ticked()
    case Terminal(_) => s
    case Process(p) => s.Step(p)
  }

  /** One event more extends both parts by what that event is to them. */
  lemma PartsOneMore(v: D.State, s: T.Table, events: seq<Event>, i: nat)
    requires v.Valid() && s.Valid() && i < |events| && Separate(events) && P.ExecsAfterBoot(ProcessPart(events))
    ensures D.RunAll(v, TerminalPart(events[..i + 1])) == TerminalStep(D.RunAll(v, TerminalPart(events[..i])), events[i])
    ensures T.RunAll(s, ProcessPart(events[..i + 1])) == ProcessStep(T.RunAll(s, ProcessPart(events[..i])), events[i])
    ensures P.Ticks(ProcessPart(events[..i + 1])) == P.Ticks(ProcessPart(events[..i])) + if events[i].Tick? then 1 else 0
    ensures events[i].Process? && events[i].p == T.Exec(true) ==> P.Ticks(ProcessPart(events[..i])) >= NUM_TERMINALS
  {
    var now, next := events[..i], events[..i + 1];
    assert next[..i] == now;
    var a, b := TerminalPart(now), ProcessPart(now);
    assert !events[i].Process? ==> TerminalPart(next)[..|a|] == a;
    assert events[i].Process? ==> TerminalPart(next) == a;
    assert !events[i].Terminal? ==> ProcessPart(next)[..|b|] == b;
    assert events[i].Terminal? ==> ProcessPart(next) == b;
    if events[i].Process? {
      PartPrefix(events, i + 1);
      assert ProcessPart(events)[|b|] == events[i].p && ProcessPart(events)[..|b|] == b;
    }
  }

  lemma {:induction false} PartPrefix(events: seq<Event>, i: nat)
    requires i <= |events|
    ensures ProcessPart(events[..i]) <= ProcessPart(events)
    decreases |events|
  {
    if i == |events| {
      assert events[..i] == events;
    } else {
      var front := events[..|events| - 1];
      PartPrefix(front, i);
      assert front[..i] == events[..i];
    }
  }

  /** The same terminal has its turn on both sides, and the same terminals have started. */
  ghost predicate InStep(v: D.State, s: T.Table) {
    && v.Valid() && s.Valid() && v.turn == s.turn
    && v.started == [s.threads[0].Started(), s.threads[1].Started(), s.threads[2].Started()]
    && (v.started[v.turn] || !v.started[(v.turn + 1) % NUM_TERMINALS])
  }

  lemma TickInStep(v: D.State, s: T.Table, banner: seq<Byte>)
    requires InStep(v, s) && P.BootOrder(s)
    ensures InStep(v.Ticked(banner), s.Ticked()) && v.Ticked(banner).started[v.Ticked(banner).turn]
  {
  }

  lemma TerminalInStep(v: D.State, s: T.Table, d: D.Event)
    requires InStep(v, s) && !d.Tick?
    ensures InStep(v.Step(d), s)
  {
  }

  lemma ProcessInStep(v: D.State, s: T.Table, p: T.Event)
    requires InStep(v, s) && !p.Tick? && v.started[v.turn]
    ensures InStep(v, s.Step(p))
  {
  }
}
