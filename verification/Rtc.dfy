/** The virtualised real-time clock of rtc.c: one hardware rate, shared by all processes through
    divisors kept in their PCBs. */
module Rtc {
  import opened Bytes

  const RTC_START_FREQ := 2
  const RTC_MIN_FREQ := 2
  const RTC_MAX_FREQ := 1024
  const RTC_POW_OFFSET := 2
  const RTC_POW_MAX := 11
  const RTC_POW_START := 15

  // ---- Powers of two ----

  /** The exponent of a power of two, or of the largest one below. */
  function Log2(f: nat): (k: nat)
    requires f >= 1
    ensures Pow2(k) <= f < Pow2(k + 1)
  {
    if f == 1 then 0 else 1 + Log2(f / 2)
  }

  /** The test of rtc_write, f & (f - 1) == 0, holds exactly for powers of two. */
  lemma {:induction false} PowerOfTwoTest(f: nat)
    requires f >= 1
    ensures BitAnd(f, f - 1) == 0 <==> f == Pow2(Log2(f))
  {
    if f == 1 {
    } else if f % 2 == 0 {
      PowerOfTwoTest(f / 2);
      assert (f - 1) / 2 == f / 2 - 1;
    } else {
      assert (f - 1) / 2 == f / 2;
      BitAndSelf(f / 2);
    }
  }

  lemma {:induction false} PowOrder(a: nat, b: nat)
    ensures a < b ==> 2 * Pow2(a) <= Pow2(b)
  {
    if a < b && a + 1 < b { PowOrder(a, b - 1); }
  }

  lemma LogOfPow(k: nat)
    ensures Log2(Pow2(k)) == k
  {
    PowOrder(k, Log2(Pow2(k)));
    PowOrder(Log2(Pow2(k)), k);
  }

  /** Frequencies the clock can be set to. */
  predicate IsFreq(f: nat) {
    RTC_MIN_FREQ <= f <= RTC_MAX_FREQ && f == Pow2(Log2(f))
  }

  /** They are 2, 4, 8 and so on up to 1024. */
  lemma FreqsAre(f: nat)
    ensures IsFreq(f) <==> exists k :: 1 <= k <= 10 && f == Pow2(k)
  {
    assert Pow2(5) == 32;
    PowAdd(5, 5);
    if IsFreq(f) {
      var k := Log2(f);
      PowOrder(k, 1);
      PowOrder(10, k);
      assert f == Pow2(k) && 1 <= k <= 10;
    }
    if k :| 1 <= k <= 10 && f == Pow2(k) {
      LogOfPow(k);
      PowOrder(1, k);
      PowOrder(k, 10);
    }
  }

  /** A smaller frequency divides a larger one, so divisors are exact. */
  lemma ExactDivisor(h: nat, f: nat)
    requires IsFreq(h) && IsFreq(f) && f <= h
    ensures h / f >= 1 && (h / f) * f == h
  {
    var a, b := Log2(h), Log2(f);
    PowOrder(a, b);
    PowAdd(a - b, b);
    DivExact(h, Pow2(a - b), f);
  }

  lemma DivExact(h: nat, q: nat, f: nat)
    requires f >= 1 && h == q * f
    ensures h / f == q
  {
    var d := h / f;
    assert h == d * f + h % f;
    MulLess(d, q, f);
    MulLess(q, d, f);
  }

  lemma MulLess(a: nat, b: nat, f: nat)
    ensures a < b ==> a * f + f <= b * f
  {
    if a < b { assert (a + 1) * f <= b * f; }
  }

  /** The interrupt frequency of a rate setting, 32768 >> (rate - 1). */
  function RateHz(rate: nat): nat
    requires 1 <= rate <= 16
  {
    Pow2(16 - rate)
  }

  /** That is 32768 shifted right by rate - 1: a rate of 15 is 2 Hz, one of 6 is 1024 Hz. */
  lemma RateIsShift(rate: nat)
    requires 1 <= rate <= 16
    ensures RateHz(rate) == 32768 / Pow2(rate - 1)
    ensures RateHz(15) == 2 && RateHz(6) == 1024
  {
    assert Pow2(5) == 32;
    PowAdd(5, 5);
    PowAdd(10, 5);
    PowAdd(16 - rate, rate - 1);
    DivExact(32768, Pow2(16 - rate), Pow2(rate - 1));
  }

  /** rtc_set_frequency's search for the rate. */
  method RateFor(freq: nat) returns (rate: nat)
    ensures 1 <= rate <= 15
    ensures 2 <= freq < 2048 ==> RateHz(rate) <= freq < 2 * RateHz(rate)
    ensures IsFreq(freq) ==> RateHz(rate) == freq
  {
    rate := RTC_POW_START;
    var i := RTC_POW_OFFSET;
    assert Pow2(1) == 2;
    assert Pow2(11) == 2048 by { assert Pow2(4) == 16; PowAdd(4, 4); assert Pow2(3) == 8; PowAdd(8, 3); }
    while i <= RTC_POW_MAX
      invariant 2 <= i <= 12 && rate == 15
      invariant freq >= 2 ==> freq >= Pow2(i - 1)
    {
      if freq / Pow2(i) == 0 {
        Shifted(freq, Pow2(i));
        rate := rate - i + RTC_POW_OFFSET;
        if 2 <= freq { UniqueLog(freq, i - 1); }
        return;
      }
      Shifted(freq, Pow2(i));
      i := i + 1;
    }
  }

  lemma Shifted(freq: nat, p: nat)
    requires p >= 1
    ensures freq / p == 0 <==> freq < p
  {
    if freq < p { MulLess(0, freq / p, p); } else { MulLess(freq / p, 1, p); }
  }

  lemma UniqueLog(freq: nat, k: nat)
    requires freq >= 1 && Pow2(k) <= freq < Pow2(k + 1)
    ensures Log2(freq) == k
  {
    PowOrder(k + 1, Log2(freq));
    PowOrder(Log2(freq) + 1, k);
  }

  // ---- The shared clock ----

  /** The RTC fields of the PCBs, indexed by pid. */
  datatype Pcb = Pcb(freq: nat, count: nat, divisor: nat)

  /** What the divisors promise: a process with a frequency counts exact fractions of the real one. */
  ghost predicate Exact(p: Pcb, higher: nat) {
    p.freq > 0 ==> IsFreq(p.freq) && p.freq <= higher && p.divisor >= 1 && p.divisor * p.freq == higher
  }

  function FreqsOf(pcbs: seq<Pcb>): (f: seq<nat>)
    ensures |f| == |pcbs|
  {
    seq(|pcbs|, i requires 0 <= i < |pcbs| => pcbs[i].freq)
  }

  /** The highest of 2 and the frequencies of the live processes below k. */
  function Highest(used: seq<bool>, freqs: seq<nat>, k: nat): nat
    requires k <= |used| && k <= |freqs|
  {
    if k == 0 then RTC_START_FREQ
    else
      var h := Highest(used, freqs, k - 1);
      if used[k - 1] && freqs[k - 1] > h then freqs[k - 1] else h
  }

  /** It is at least 2 and every live frequency, and one of them. */
  lemma {:induction false} HighestIsMax(used: seq<bool>, freqs: seq<nat>, k: nat)
    requires k <= |used| && k <= |freqs|
    ensures var h := Highest(used, freqs, k);
            && h >= RTC_START_FREQ && (forall p :: 0 <= p < k && used[p] ==> freqs[p] <= h)
            && (h == RTC_START_FREQ || exists p :: 0 <= p < k && used[p] && freqs[p] == h)
  {
    if k > 0 { HighestIsMax(used, freqs, k - 1); }
  }

  /** A process without a frequency counts as little as one that is not there. */
  lemma {:induction false} HighestSkips(used: seq<bool>, freqs: seq<nat>, p: nat, live: bool, k: nat)
    requires k <= |used| == |freqs| && p < |used|
    ensures Highest(used[p := live], freqs[p := 0], k) == Highest(used[p := false], freqs, k)
  {
    if k > 0 { HighestSkips(used, freqs, p, live, k - 1); }
  }

  /** Operations of the other processes while one waits. */
  datatype Other =
    | Write(pid: int, freq: int) | Open(pid: int) | Close
    | Spawn(pid: int) | Exit(pid: int)
    | Reset(term: int)   // a reader on another terminal resets its own flag

  /** An interleaving seen from a waiting reader. */
  datatype Step = Reader | Interrupt | Others(op: Other)

  function Interrupts(schedule: seq<Step>): nat {
    if schedule == [] then 0
    else Interrupts(schedule[..|schedule| - 1]) + if schedule[|schedule| - 1].Interrupt? then 1 else 0
  }

  /** A waiting reader: its next action (0 reset the flag, 1 test it, 2 count down), its terminal's flag
      and the interrupts it still waits for. With none left it has returned. */
  datatype Wait = Wait(pc: int, flag: bool, left: int)

  function Waited(w: Wait, step: Step): Wait {
    if w.left == 0 then w else
    match step
    case Interrupt => w.(flag := true)
    case Others(_) => w
    case Reader =>
      if w.pc == 0 then Wait(1, false, w.left)
      else if w.pc == 1 then (if w.flag then w.(pc := 2) else w)
      else Wait(0, w.flag, w.left - 1)
  }

  function WaitAll(w: Wait, schedule: seq<Step>): Wait {
    if schedule == [] then w else Waited(WaitAll(w, schedule[..|schedule| - 1]), schedule[|schedule| - 1])
  }

  lemma {:induction false} ReturnedStays(w: Wait, schedule: seq<Step>, n: nat)
    requires n <= |schedule| && WaitAll(w, schedule[..n]).left == 0
    ensures WaitAll(w, schedule).left == 0
    decreases |schedule|
  {
    if n == |schedule| {
      assert schedule[..n] == schedule;
    } else {
      var front := schedule[..|schedule| - 1];
      assert front[..n] == schedule[..n];
      ReturnedStays(w, front, n);
    }
  }

  /** Safety: every interrupt a reader has counted, or is about to count, did happen. */
  lemma {:induction false} CountedHappened(flag: bool, d: nat, schedule: seq<Step>)
    ensures var w := WaitAll(Wait(0, flag, d), schedule);
            && 0 <= w.left <= d && 0 <= w.pc <= 2
            && Interrupts(schedule) >= d - w.left + if w.left > 0 && (w.pc == 2 || (w.pc == 1 && w.flag)) then 1 else 0
  {
    if schedule != [] {
      CountedHappened(flag, d, schedule[..|schedule| - 1]);
    }
  }

  /** How many rounds a schedule grants the reader, one after the other: it runs, an interrupt comes, and
      it runs twice more, with anything in between. stage counts the parts of the round under way. */
  datatype Grant = Grant(rounds: nat, stage: int)

  function Granted(schedule: seq<Step>): (g: Grant)
    ensures 0 <= g.stage <= 3
  {
    if schedule == [] then Grant(0, 0)
    else
      var g, step := Granted(schedule[..|schedule| - 1]), schedule[|schedule| - 1];
      if g.stage == 1 then (if step.Interrupt? then g.(stage := 2) else g)
      else if !step.Reader? then g
      else if g.stage == 3 then Grant(g.rounds + 1, 0)
      else g.(stage := g.stage + 1)
  }

  /** The reader keeps up with the rounds granted to it. */
  ghost predicate KeepsUp(w: Wait, g: Grant, d: nat) {
    && 0 <= w.pc <= 2 && 0 <= w.left
    && (w.left == 0 || w.left < d - g.rounds ||
        (w.left == d - g.rounds &&
         (g.stage == 1 ==> w.pc >= 1) && (g.stage == 2 ==> w.pc == 2 || (w.pc == 1 && w.flag)) &&
         (g.stage == 3 ==> w.pc == 2)))
  }

  lemma {:induction false} ReaderKeepsUp(flag: bool, d: nat, schedule: seq<Step>)
    ensures KeepsUp(WaitAll(Wait(0, flag, d), schedule), Granted(schedule), d)
  {
    if schedule != [] {
      ReaderKeepsUp(flag, d, schedule[..|schedule| - 1]);
    }
  }

  /** Progress: whatever else happens, a reader granted as many rounds as it waits for returns. */
  lemma RoundsSuffice(flag: bool, d: nat, schedule: seq<Step>)
    requires Granted(schedule).rounds >= d
    ensures WaitAll(Wait(0, flag, d), schedule).left == 0
  {
    ReaderKeepsUp(flag, d, schedule);
  }

  class Clock {
    var higherFreq: nat
    var rate: nat
    var flags: seq<bool>
    var pcbs: seq<Pcb>

    ghost predicate Valid(used: seq<bool>)
      reads this
    {
      && |used| == |pcbs| == MAX_PROCESSES && |flags| == NUM_TERMINALS
      && IsFreq(higherFreq)
      && 1 <= rate <= 15 && RateHz(rate) == higherFreq
      && forall p :: 0 <= p < MAX_PROCESSES && used[p] ==> Exact(pcbs[p], higherFreq)
    }

    /** init_rtc */
    constructor ()
      ensures Valid([false, false, false, false, false, false]) && higherFreq == RTC_START_FREQ
      ensures FreqsOf(pcbs) == [0, 0, 0, 0, 0, 0]
    {
      higherFreq := RTC_START_FREQ;
      var r := RateFor(RTC_START_FREQ);
      rate := r;
      flags := [false, false, false];
      var blank := Pcb(0, 0, 0);
      pcbs := [blank, blank, blank, blank, blank, blank];
      LogOfPow(1);
      assert Pow2(1) == 2;
    }

    /** Halting a process cannot break the promise to the others. */
    lemma FewerProcesses(used: seq<bool>, pid: int)
      requires Valid(used) && 0 <= pid < MAX_PROCESSES
      ensures Valid(used[pid := false])
    {
    }

    method SetFrequency(freq: nat)
      requires IsFreq(freq)
      modifies this`rate
      ensures 1 <= rate <= 15 && RateHz(rate) == freq
    {
      rate := RateFor(freq);
    }

    /** The loop of rtc_write and rtc_close that renews every live divisor. */
    method UpdateDivisors(used: seq<bool>)
      requires |used| == |pcbs| == MAX_PROCESSES && IsFreq(higherFreq)
      requires forall p :: 0 <= p < MAX_PROCESSES && used[p] && pcbs[p].freq > 0 ==>
                             IsFreq(pcbs[p].freq) && pcbs[p].freq <= higherFreq
      modifies this`pcbs
      ensures |pcbs| == MAX_PROCESSES
      ensures forall p :: 0 <= p < MAX_PROCESSES ==> pcbs[p] == old(pcbs[p]).(divisor := pcbs[p].divisor)
      ensures forall p :: 0 <= p < MAX_PROCESSES && used[p] ==> Exact(pcbs[p], higherFreq)
    {
      var i := 0;
      while i < MAX_PROCESSES
        invariant 0 <= i <= MAX_PROCESSES && |pcbs| == MAX_PROCESSES
        invariant forall p :: 0 <= p < MAX_PROCESSES ==> pcbs[p] == old(pcbs[p]).(divisor := pcbs[p].divisor)
        invariant forall p :: 0 <= p < i && used[p] ==> Exact(pcbs[p], higherFreq)
      {
        if used[i] && pcbs[i].freq > 0 {
          ExactDivisor(higherFreq, pcbs[i].freq);
          pcbs := pcbs[i := pcbs[i].(divisor := higherFreq / pcbs[i].freq)];
        }
        i := i + 1;
      }
    }

    /** rtc_open: the caller starts without a frequency of its own. */
    method Open(used: seq<bool>, pid: int)
      requires Valid(used) && (pid == -1 || 0 <= pid < MAX_PROCESSES)
      modifies this`rate, this`pcbs
      ensures Valid(used) && higherFreq == old(higherFreq)
      ensures pcbs == if pid == -1 then old(pcbs) else old(pcbs)[pid := old(pcbs)[pid].(freq := 0)]
      ensures FreqsOf(pcbs) == if pid == -1 then old(FreqsOf(pcbs)) else old(FreqsOf(pcbs))[pid := 0]
    {
      if pid == -1 {
        return;
      }
      pcbs := pcbs[pid := pcbs[pid].(freq := 0)];
      SetFrequency(higherFreq);
    }

    /** rtc_close: the clock drops to the highest frequency still wanted, and no lower than 2 Hz. */
    method Close(used: seq<bool>)
      requires Valid(used)
      modifies this`higherFreq, this`rate, this`pcbs
      ensures Valid(used) && FreqsOf(pcbs) == old(FreqsOf(pcbs))
      ensures higherFreq == Highest(used, FreqsOf(pcbs), MAX_PROCESSES)
      ensures forall p :: 0 <= p < MAX_PROCESSES ==> pcbs[p] == old(pcbs[p]).(divisor := pcbs[p].divisor)
    {
      var max := HighestFreq(used);
      HighestIsMax(used, FreqsOf(pcbs), MAX_PROCESSES);
      higherFreq := max;
      SetFrequency(higherFreq);
      UpdateDivisors(used);
    }

    /** Its search for the maximum. */
    method HighestFreq(used: seq<bool>) returns (max: nat)
      requires Valid(used)
      ensures IsFreq(max) && max == Highest(used, FreqsOf(pcbs), MAX_PROCESSES)
    {
      max := RTC_START_FREQ;
      LogOfPow(1);
      assert Pow2(1) == 2;
      var i := 0;
      while i < MAX_PROCESSES
        invariant 0 <= i <= MAX_PROCESSES && IsFreq(max) && max == Highest(used, FreqsOf(pcbs), i)
      {
        if used[i] && pcbs[i].freq > max {
          assert Exact(pcbs[i], higherFreq);
          max := pcbs[i].freq;
        }
        i := i + 1;
      }
    }

    /** rtc_write: four bytes holding a power of two from 2 to 1024; anything else is refused and
        changes nothing. */
    method Write(used: seq<bool>, pid: int, bufIsNull: bool, nbytes: int, freq: int) returns (r: int)
      requires Valid(used) && (pid == -1 || (0 <= pid < MAX_PROCESSES && used[pid]))
      modifies this`higherFreq, this`rate, this`pcbs
      ensures Valid(used)
      ensures r == 0 <==> !bufIsNull && nbytes == 4 && 0 <= freq && IsFreq(freq)
      ensures r == 0 || r == ERROR
      ensures r == 0 && pid != -1 ==> pcbs[pid].freq == freq && higherFreq == Max(old(higherFreq), freq)
      ensures r == ERROR || pid == -1 ==> pcbs == old(pcbs) && higherFreq == old(higherFreq)
      ensures FreqsOf(pcbs) == if r == ERROR || pid == -1 then old(FreqsOf(pcbs)) else old(FreqsOf(pcbs))[pid := freq]
      ensures forall p :: 0 <= p < MAX_PROCESSES && p != pid ==> pcbs[p] == old(pcbs[p]).(divisor := pcbs[p].divisor)
    {
      if bufIsNull || nbytes != 4 {
        return ERROR;
      }
      if freq > RTC_MAX_FREQ || freq < RTC_MIN_FREQ {
        return ERROR;
      }
      PowerOfTwoTest(freq);
      if BitAnd(freq, freq - 1) != 0 {
        return ERROR;
      }
      if pid == -1 {
        return 0;
      }
      pcbs := pcbs[pid := pcbs[pid].(freq := freq)];
      if freq > higherFreq {
        higherFreq := freq;
        UpdateDivisors(used);
      } else {
        ExactDivisor(higherFreq, freq);
        pcbs := pcbs[pid := pcbs[pid].(divisor := higherFreq / freq)];
      }
      SetFrequency(higherFreq);
      return 0;
    }

    /** sys_execute's initialisation of a new PCB. */
    method Spawn(used: seq<bool>, pid: int)
      requires Valid(used) && 0 <= pid < MAX_PROCESSES
      modifies this`pcbs
      ensures Valid(used[pid := true]) && pcbs == old(pcbs)[pid := Pcb(0, 0, 0)]
      ensures FreqsOf(pcbs) == old(FreqsOf(pcbs))[pid := 0]
    {
      pcbs := pcbs[pid := Pcb(0, 0, 0)];
    }

    /** sys_halt clears the PCB of a process that has ended. */
    method Wipe(used: seq<bool>, pid: int)
      requires Valid(used) && 0 <= pid < MAX_PROCESSES && !used[pid]
      modifies this`pcbs
      ensures Valid(used) && FreqsOf(pcbs) == old(FreqsOf(pcbs))[pid := 0]
    {
      pcbs := pcbs[pid := Pcb(0, 0, 0)];
    }

    /** RT_handler */
    method Interrupt()
      requires |flags| == NUM_TERMINALS
      modifies this`flags
      ensures flags == [true, true, true]
    {
      var i := 0;
      while i < NUM_TERMINALS
        invariant 0 <= i <= NUM_TERMINALS == |flags| && forall j :: 0 <= j < i ==> flags[j]
      {
        flags := flags[i := true];
        i := i + 1;
      }
    }

    /** What another process does while `pid` on terminal `term` waits. Ill-formed requests are none. */
    method Interfere(op: Other, used: seq<bool>, pid: int, term: int) returns (used': seq<bool>)
      requires Valid(used) && 0 <= pid < MAX_PROCESSES && used[pid] && 0 <= term < NUM_TERMINALS
      modifies this
      ensures Valid(used') && used'[pid]
      ensures pcbs[pid] == old(pcbs[pid]).(divisor := pcbs[pid].divisor) && flags[term] == old(flags[term])
    {
      used' := used;
      match op
      case Write(q, freq) =>
        if q != pid && 0 <= q < MAX_PROCESSES && used[q] {
          var _ := Write(used, q, false, 4, freq);
        }
      case Open(q) =>
        if q != pid && 0 <= q < MAX_PROCESSES && used[q] {
          Open(used, q);
        }
      case Close => Close(used);
      case Spawn(q) =>
        if 0 <= q < MAX_PROCESSES && !used[q] {
          Spawn(used, q);
          used' := used[q := true];
        }
      case Exit(q) =>
        if q != pid && 0 <= q < MAX_PROCESSES {
          FewerProcesses(used, q);
          used' := used[q := false];
        }
      case Reset(u) =>
        if u != term && 0 <= u < NUM_TERMINALS {
          flags := flags[u := false];
        }
    }

    /** rtc_read on terminal `term`, interleaved with interrupts and other processes as `schedule`
        says. Reader steps are its atomic actions: reset the flag, test it, count down. It never counts
        below zero; when it returns at least as many interrupts have happened as its divisor said at the
        start, whatever became of the divisor meanwhile; and it does return once it has been granted
        that many rounds. live is used_pids at the end. */
    method Read(used: seq<bool>, pid: int, term: int, schedule: seq<Step>)
      returns (done: bool, taken: nat, live: seq<bool>)
      requires Valid(used) && 0 <= pid < MAX_PROCESSES && used[pid] && 0 <= term < NUM_TERMINALS
      modifies this
      ensures Valid(live) && live[pid] && pcbs[pid].freq == old(pcbs[pid].freq)
      ensures taken <= |schedule| && (!done ==> taken == |schedule|)
      ensures old(pcbs[pid].freq) == 0 ==> done && taken == 0
      ensures pcbs[pid].freq > 0 ==>
                && (done <==> WaitAll(Wait(0, old(flags[term]), old(pcbs[pid].divisor)), schedule).left == 0)
                && (Granted(schedule).rounds >= old(pcbs[pid].divisor) ==> done)
      ensures done && pcbs[pid].freq > 0 ==>
                pcbs[pid].count == 0 && Interrupts(schedule[..taken]) >= old(pcbs[pid].divisor) >= 1
      ensures !done ==> 1 <= pcbs[pid].count <= old(pcbs[pid].divisor)
    {
      ghost var start := Wait(0, flags[term], pcbs[pid].divisor);
      taken, live := 0, used;
      if pcbs[pid].freq == 0 {
        return true, 0, used;
      }
      assert Exact(pcbs[pid], higherFreq);
      pcbs := pcbs[pid := pcbs[pid].(count := pcbs[pid].divisor)];
      ReaderKeepsUp(flags[term], start.left, schedule);
      var pc := 0;
      while taken < |schedule|
        invariant 0 <= taken <= |schedule| && Valid(live) && live[pid] && 0 <= pc <= 2
        invariant pcbs[pid].freq == old(pcbs[pid].freq) && pcbs[pid].count > 0
        invariant WaitAll(start, schedule[..taken]) == Wait(pc, flags[term], pcbs[pid].count)
      {
        assert schedule[..taken + 1][..taken] == schedule[..taken];
        pc, live := Advance(schedule[taken], pc, live, pid, term);
        taken := taken + 1;
        if pcbs[pid].count == 0 {
          CountedHappened(start.flag, start.left, schedule[..taken]);
          ReturnedStays(start, schedule, taken);
          return true, taken, live;
        }
      }
      assert schedule[..taken] == schedule;
      CountedHappened(start.flag, start.left, schedule);
      done := false;
    }

    /** One step of the interleaving; pc is the reader's next action. */
    method Advance(step: Step, pc: int, used: seq<bool>, pid: int, term: int) returns (pc': int, live: seq<bool>)
      requires Valid(used) && 0 <= pid < MAX_PROCESSES && used[pid] && 0 <= term < NUM_TERMINALS
      requires 0 <= pc <= 2 && pcbs[pid].count > 0
      modifies this
      ensures Valid(live) && live[pid] && pcbs[pid].freq == old(pcbs[pid].freq) && 0 <= pc' <= 2
      ensures Wait(pc', flags[term], pcbs[pid].count) == Waited(Wait(pc, old(flags[term]), old(pcbs[pid].count)), step)
    {
      pc', live := pc, used;
      match step
      case Interrupt => Interrupt();
      case Others(op) => live := Interfere(op, used, pid, term);
      case Reader =>
        if pc == 0 {
          flags := flags[term := false];
          pc' := 1;
        } else if pc == 1 {
          if flags[term] {
            pc' := 2;
          }
        } else {
          pcbs := pcbs[pid := pcbs[pid].(count := pcbs[pid].count - 1)];
          pc' := 0;
        }
    }
  }
}
