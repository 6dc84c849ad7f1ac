/** What the three terminals of module Desk promise their users, over every run. With
    Multiplexer.Run these are properties of the kernel. */
module Isolation {
  import opened Bytes
  import opened Screen
  import opened LineEditor
  import opened Desk

  /** An operation on one terminal. */
  datatype Op = Print(c: Byte) | Press(k: Key) | Clear | Start(banner: seq<Byte>) | AwaitLine | DropTyped

  /** What event e does to terminal t. Output goes to the terminal whose turn it is, keys only to the
      displayed terminal during its own turn. */
  function OpFor(s: State, e: Event, t: int): (o: Option<Op>)
    requires s.Valid() && 0 <= t < NUM_TERMINALS
    ensures forall c :: o == Some(Print(c)) <==> e == Write(c) && s.turn == t
    ensures o == Some(AwaitLine) <==> e == StartRead && s.turn == t
    ensures forall k :: o == Some(Press(k)) <==>
              e.Key? && s.turn == t == s.shown && !s.pending && Decode(s.mods, e.scancode) == Type(k)
    ensures o == Some(Clear) <==> e.Key? && s.turn == t == s.shown && !s.pending && Decode(s.mods, e.scancode) == Redraw
    ensures forall b :: o == Some(Start(b)) <==> e == Tick(b) && s.Next() == t && !s.started[t]
    ensures o.Some? && o.value.Press? ==> o.value.k.Valid()
    ensures o == Some(DropTyped) <==> e.FinishRead? && s.shown == t && s.terms[s.turn].edit.updated
  {
    match e
    case Timer => None
    case Tick(banner) => if t == s.Next() && !s.started[t] then Some(Start(banner)) else None
    case Write(c) => if t == s.turn then Some(Print(c)) else None
    case Key(scancode) =>
      if t != s.shown || !s.TakesKeys() then None else
      (match Decode(s.mods, scancode)
       case Type(k) => Some(Press(k))
       case Redraw => Some(Clear)
       case _ => None)
    case StartRead => if t == s.turn then Some(AwaitLine) else None
    case FinishRead => if t == s.shown && s.terms[s.turn].edit.updated then Some(DropTyped) else None
  }

  function Act(t: Term, o: Op): (r: Term)
    requires t.Valid() && (o.Press? ==> o.k.Valid())
    ensures r.Valid()
  {
    match o
    case Print(c) => t.Write(c)
    case Press(k) => t.Typed(k)
    case Clear => t.Redrawn()
    case Start(banner) => t.Started(banner)
    case AwaitLine => t.(edit := t.edit.(updated := false))
    case DropTyped => t.(edit := t.edit.(typed := []))
  }

  ghost predicate ValidOps(ops: seq<Op>) {
    forall i :: 0 <= i < |ops| ==> ops[i].Press? ==> ops[i].k.Valid()
  }

  function ActAll(t: Term, ops: seq<Op>): (r: Term)
    requires t.Valid() && ValidOps(ops)
    ensures r.Valid()
  {
    if ops == [] then t else Act(ActAll(t, ops[..|ops| - 1]), ops[|ops| - 1])
  }

  /** The operations a run addresses to terminal t, in order. */
  function OpsFor(s: State, events: seq<Event>, t: int): (ops: seq<Op>)
    requires s.Valid() && 0 <= t < NUM_TERMINALS
    ensures ValidOps(ops)
  {
    if events == [] then []
    else
      var front, e := events[..|events| - 1], events[|events| - 1];
      var o := OpFor(RunAll(s, front), e, t);
      if o.Some? then OpsFor(s, front, t) + [o.value] else OpsFor(s, front, t)
  }

  lemma StepIsolates(s: State, e: Event, t: int)
    requires s.Valid() && 0 <= t < NUM_TERMINALS
    ensures var o := OpFor(s, e, t);
            s.Step(e).terms[t] == if o.Some? then Act(s.terms[t], o.value) else s.terms[t]
  {
  }

  /** Terminal isolation: whatever the interleaving of ticks, switches, writes and keys, each terminal
      ends up as if it alone had executed the operations addressed to it. */
  lemma {:induction false} TerminalsAreIndependent(s: State, events: seq<Event>, t: int)
    requires s.Valid() && 0 <= t < NUM_TERMINALS
    ensures RunAll(s, events).terms[t] == ActAll(s.terms[t], OpsFor(s, events, t))
  {
    if events != [] {
      var front, e := events[..|events| - 1], events[|events| - 1];
      TerminalsAreIndependent(s, front, t);
      StepIsolates(RunAll(s, front), e, t);
      var ops, more := OpsFor(s, front, t), OpsFor(s, events, t);
      if more != ops { assert more[..|more| - 1] == ops; }
    }
  }

  // ---- Output across interleavings ----

  /** The text an operation adds to the screen: output and echo alike. */
  function Echo(t: Term, o: Op): seq<Byte> {
    match o
    case Print(c) => [c]
    case Press(Char(c)) => if |t.edit.line| >= BUF_SIZE - 1 then [] else [c]
    case Press(Enter) => [NEWLINE]
    case Press(Recall) => t.edit.last
    case _ => []
  }

  /** Operations that take nothing back: no erasing of a typed character and no shell start, which
      sends the cursor home. */
  ghost predicate Adds(t: Term, o: Op) {
    !o.Start? && (o == Press(Erase) || o == Press(Recall) ==> t.edit.line == [])
  }

  ghost predicate AllAdd(t: Term, ops: seq<Op>)
    requires t.Valid() && ValidOps(ops)
  {
    ops == [] || (AllAdd(t, ops[..|ops| - 1]) && Adds(ActAll(t, ops[..|ops| - 1]), ops[|ops| - 1]))
  }

  /** Everything written since the screen was last cleared, if `text` was on it at the start. */
  function TextAfter(t: Term, ops: seq<Op>, text: seq<Byte>): seq<Byte>
    requires t.Valid() && ValidOps(ops)
  {
    if ops == [] then text
    else
      var front, o := ops[..|ops| - 1], ops[|ops| - 1];
      var before := ActAll(t, front);
      if o.Clear? then before.edit.line else TextAfter(t, front, text) + Echo(before, o)
  }

  lemma EchoIsPut(t: Term, o: Op)
    requires t.Valid() && (o.Press? ==> o.k.Valid()) && Adds(t, o) && !o.Clear?
    ensures Act(t, o).console == PutAll(t.console, Echo(t, o))
  {
    assert forall c: Byte :: [c][..0] == [];
  }

  lemma {:induction false} ShowsMore(s: Console, text: seq<Byte>, more: seq<Byte>)
    requires Shows(s, Layout(text))
    ensures Shows(PutAll(s, more), Layout(text + more))
    decreases |more|
  {
    if more == [] {
      assert text + more == text;
    } else {
      var front, c := more[..|more| - 1], more[|more| - 1];
      ShowsMore(s, text, front);
      ShowsPutc(PutAll(s, front), Layout(text + front), c);
      assert (text + more)[..|text + more| - 1] == text + front;
    }
  }

  lemma {:induction false} RenderedAlone(t: Term, ops: seq<Op>, text: seq<Byte>)
    requires t.Valid() && ValidOps(ops) && AllAdd(t, ops) && Shows(t.console, Layout(text))
    ensures Shows(ActAll(t, ops).console, Layout(TextAfter(t, ops, text)))
  {
    if ops != [] {
      var front, o := ops[..|ops| - 1], ops[|ops| - 1];
      var before := ActAll(t, front);
      RenderedAlone(t, front, text);
      if o.Clear? {
        Rendering(before.console, before.edit.line);
      } else {
        EchoIsPut(before, o);
        ShowsMore(before.console, TextAfter(t, front, text), Echo(before, o));
      }
    }
  }

  /** Whatever else the machine does in between, a terminal shows the last 25 rows of the layout of
      exactly what was printed and echoed on it, from its last clearing on. */
  lemma OutputIsRendered(s: State, events: seq<Event>, t: int, text: seq<Byte>)
    requires s.Valid() && 0 <= t < NUM_TERMINALS && Shows(s.terms[t].console, Layout(text))
    requires AllAdd(s.terms[t], OpsFor(s, events, t))
    ensures Shows(RunAll(s, events).terms[t].console, Layout(TextAfter(s.terms[t], OpsFor(s, events, t), text)))
  {
    RenderedAlone(s.terms[t], OpsFor(s, events, t), text);
    TerminalsAreIndependent(s, events, t);
  }

  // ---- Input across interleavings ----

  /** The keys among a terminal's operations. */
  function KeysOf(ops: seq<Op>): (keys: seq<Key>)
    requires ValidOps(ops)
    ensures ValidKeys(keys)
  {
    if ops == [] then []
    else KeysOf(ops[..|ops| - 1]) + if ops[|ops| - 1].Press? then [ops[|ops| - 1].k] else []
  }

  /** Equal but for what reads reset. */
  ghost predicate SameLine(a: Edit, b: Edit) {
    a.line == b.line && a.last == b.last && a.written == b.written
  }

  lemma ActOnLine(t: Term, o: Op, e: Edit)
    requires t.Valid() && e.Valid() && (o.Press? ==> o.k.Valid()) && SameLine(t.edit, e)
    ensures SameLine(Act(t, o).edit, if o.Press? then e.Press(o.k) else e)
  {
  }

  lemma {:induction false} KeysAccumulate(t: Term, ops: seq<Op>)
    requires t.Valid() && ValidOps(ops)
    ensures SameLine(ActAll(t, ops).edit, PressAll(t.edit, KeysOf(ops)))
  {
    if ops != [] {
      var front, o := ops[..|ops| - 1], ops[|ops| - 1];
      KeysAccumulate(t, front);
      ActOnLine(ActAll(t, front), o, PressAll(t.edit, KeysOf(front)));
      if o.Press? {
        assert KeysOf(ops)[..|KeysOf(front)|] == KeysOf(front);
      } else {
        assert KeysOf(ops) == KeysOf(front);
      }
    }
  }

  /** The line of a terminal, its history and the count left for its reader are what the reference
      editor makes of the keys taken during its turns, whoever reads in between. */
  lemma LineIsEdited(s: State, events: seq<Event>, t: int)
    requires s.Valid() && 0 <= t < NUM_TERMINALS
    ensures SameLine(RunAll(s, events).terms[t].edit, PressAll(s.terms[t].edit, KeysOf(OpsFor(s, events, t))))
  {
    KeysAccumulate(s.terms[t], OpsFor(s, events, t));
    TerminalsAreIndependent(s, events, t);
  }

  /** Where an operation last occurs, or -1. */
  function LastOf(ops: seq<Op>, o: Op): (i: int)
    ensures -1 <= i < |ops| && (i >= 0 ==> ops[i] == o)
    ensures forall j :: i < j < |ops| ==> ops[j] != o
  {
    if ops == [] then -1 else if ops[|ops| - 1] == o then |ops| - 1 else LastOf(ops[..|ops| - 1], o)
  }

  /** The line a terminal held when Enter was last pressed on it. */
  function Entered(e: Edit, ops: seq<Op>): (line: seq<Byte>)
    requires e.Valid() && ValidOps(ops) && LastOf(ops, Press(Enter)) >= 0
    ensures ValidLine(line)
  {
    PressAll(e, KeysOf(ops[..LastOf(ops, Press(Enter))])).line
  }

  /** A reader is woken by an Enter since it began to wait; the line waiting for it is the one entered
      last, unless a read has dropped it since. */
  ghost predicate LineWaits(was: Edit, now: Edit, ops: seq<Op>)
    requires was.Valid() && ValidOps(ops)
  {
    var enter, await, drop := LastOf(ops, Press(Enter)), LastOf(ops, AwaitLine), LastOf(ops, DropTyped);
    && (now.updated <==> enter > await || (enter == await && was.updated))
    && (enter >= 0 ==> now.written == |Entered(was, ops)| + 1)
    && now.typed == if drop > enter then [] else if enter >= 0 then Entered(was, ops) else was.typed
  }

  /** What a reader sees of one operation. */
  lemma ActOnReader(t: Term, o: Op)
    requires t.Valid() && (o.Press? ==> o.k.Valid())
    ensures var was, now := t.edit, Act(t, o).edit;
            && now.updated == (o == Press(Enter) || (o != AwaitLine && was.updated))
            && now.written == (if o == Press(Enter) then |was.line| + 1 else was.written)
            && now.typed == if o == Press(Enter) then was.line else if o == DropTyped then [] else was.typed
  {
  }

  lemma {:induction false} WaitingAlone(t: Term, ops: seq<Op>)
    requires t.Valid() && ValidOps(ops)
    ensures LineWaits(t.edit, ActAll(t, ops).edit, ops)
  {
    if ops != [] {
      var front, o := ops[..|ops| - 1], ops[|ops| - 1];
      WaitingAlone(t, front);
      KeysAccumulate(t, front);
      ActOnReader(ActAll(t, front), o);
      WaitsMore(t.edit, ActAll(t, front).edit, ActAll(t, ops).edit, ops);
    }
  }

  lemma WaitsMore(was: Edit, before: Edit, now: Edit, ops: seq<Op>)
    requires was.Valid() && ops != [] && ValidOps(ops)
    requires LineWaits(was, before, ops[..|ops| - 1])
    requires before.line == PressAll(was, KeysOf(ops[..|ops| - 1])).line
    requires var o := ops[|ops| - 1];
             && now.updated == (o == Press(Enter) || (o != AwaitLine && before.updated))
             && now.written == (if o == Press(Enter) then |before.line| + 1 else before.written)
             && now.typed == if o == Press(Enter) then before.line else if o == DropTyped then [] else before.typed
    ensures LineWaits(was, now, ops)
  {
    EnteredMore(was, ops);
  }

  /** The line entered last is the one held now if the last operation is an Enter, and else the same as
      before that operation. */
  lemma EnteredMore(was: Edit, ops: seq<Op>)
    requires was.Valid() && ops != [] && ValidOps(ops)
    ensures var front, o := ops[..|ops| - 1], ops[|ops| - 1];
            && (o == Press(Enter) ==> Entered(was, ops) == PressAll(was, KeysOf(front)).line)
            && (o != Press(Enter) && LastOf(front, Press(Enter)) >= 0 ==> Entered(was, ops) == Entered(was, front))
  {
    var front, enter := ops[..|ops| - 1], LastOf(ops[..|ops| - 1], Press(Enter));
    if enter >= 0 { assert ops[..enter] == front[..enter]; }
  }

  /** Reads across any interleaving, its own and those of the other terminals. */
  lemma ReadAcrossRuns(s: State, events: seq<Event>, t: int)
    requires s.Valid() && 0 <= t < NUM_TERMINALS
    ensures LineWaits(s.terms[t].edit, RunAll(s, events).terms[t].edit, OpsFor(s, events, t))
  {
    WaitingAlone(s.terms[t], OpsFor(s, events, t));
    TerminalsAreIndependent(s, events, t);
  }

  function TypeText(t: Term, text: seq<Byte>): (r: Term)
    requires t.Valid() && forall i :: 0 <= i < |text| ==> Typable(text[i])
    ensures r.Valid()
  {
    if text == [] then t else TypeText(t, text[..|text| - 1]).Typed(Char(text[|text| - 1]))
  }

  function EraseText(t: Term, n: nat): (r: Term)
    requires t.Valid()
    ensures r.Valid()
    decreases n
  {
    if n == 0 then t else EraseText(t.Typed(Erase), n - 1)
  }

  lemma {:induction false} TypingEchoes(t: Term, text: seq<Byte>)
    requires t.Valid() && |t.edit.line| + |text| < BUF_SIZE && forall i :: 0 <= i < |text| ==> Typable(text[i])
    ensures TypeText(t, text) == Term(PutAll(t.console, text), t.edit.(line := t.edit.line + text))
  {
    if text == [] {
      assert t.edit.line + text == t.edit.line;
    } else {
      var front, c := text[..|text| - 1], text[|text| - 1];
      TypingEchoes(t, front);
      assert t.edit.line + front + [c] == t.edit.line + text;
    }
  }

  lemma {:induction false} ErasingBlanks(t: Term, n: nat)
    requires t.Valid() && n <= |t.edit.line|
    ensures EraseText(t, n) == Term(BackspaceAll(t.console, n), t.edit.(line := t.edit.line[..|t.edit.line| - n]))
    decreases n
  {
    var len := |t.edit.line|;
    if n == 0 {
      assert t.edit.line[..len] == t.edit.line;
    } else {
      ErasingBlanks(t.Typed(Erase), n - 1);
      assert t.edit.line[..len - 1][..len - n] == t.edit.line[..len - n];
    }
  }

  /** Typing any text the buffer has room for and erasing it again restores the line and leaves the
      screen blank exactly where the text stood, cursor included, across wraps and scrolls. */
  lemma TypeThenErase(t: Term, text: seq<Byte>)
    requires t.Valid() && |t.edit.line| + |text| < BUF_SIZE && forall i :: 0 <= i < |text| ==> Typable(text[i])
    ensures var r, p := EraseText(TypeText(t, text), |text|), t.console.Linear();
            var k := Scrolled(p, |text|);
            && r.edit == t.edit
            && COLS * k <= p && p - COLS * k + |text| <= COLS * ROWS
            && r.console.Linear() == p - COLS * k
            && r.console.mem == BlankCells(ScrollBy(t.console.mem, k), p - COLS * k, |text|)
  {
    TypedLineFits(t.console, |text|);
    EraseUndoesEcho(t.console, text);
    TypingEchoes(t, text);
    ErasingBlanks(TypeText(t, text), |text|);
    assert (t.edit.line + text)[..|t.edit.line|] == t.edit.line;
  }

  /** Up-arrow is erasing the whole line, key by key, and typing the last entered one. */
  lemma RecallIsRetyping(t: Term)
    requires t.Valid()
    ensures t.Typed(Recall) == TypeText(EraseText(t, |t.edit.line|), t.edit.last)
  {
    var e := EraseText(t, |t.edit.line|);
    ErasingBlanks(t, |t.edit.line|);
    assert e.edit.line == [];
    TypingEchoes(e, t.edit.last);
    assert [] + t.edit.last == t.edit.last;
  }

  /** A text written from the cursor on: its cells, on the screen scrolled by the rows it pushed off, and
      the cursor at its end. */
  ghost predicate WrittenFrom(was: Console, now: Console, text: seq<Byte>)
    requires was.Valid()
  {
    var p := was.Linear();
    var k := Scrolled(p, |text|);
    && COLS * k <= p && p - COLS * k + |text| <= COLS * ROWS
    && now.Linear() == p - COLS * k + |text|
    && now.mem == WriteCells(ScrollBy(was.mem, k), p - COLS * k, text)
  }

  /** n characters typed and erased again: blank cells in their place, the cursor back at their start. */
  ghost predicate BlankedFrom(was: Console, now: Console, n: nat)
    requires was.Valid()
  {
    var p := was.Linear();
    var k := Scrolled(p, n);
    && COLS * k <= p && p - COLS * k + n <= COLS * ROWS
    && now.Linear() == p - COLS * k
    && now.mem == BlankCells(ScrollBy(was.mem, k), p - COLS * k, n)
  }

  lemma TypedIsWritten(t: Term, text: seq<Byte>)
    requires t.Valid() && t.edit.line == [] && ValidLine(text)
    ensures TypeText(t, text).edit == t.edit.(line := text)
    ensures WrittenFrom(t.console, TypeText(t, text).console, text)
  {
    TypedLineFits(t.console, |text|);
    ScrolledIsLeast(t.console.Linear(), |text|);
    EchoFrom(t.console, text, Scrolled(t.console.Linear(), |text|));
    TypingEchoes(t, text);
    assert [] + text == text;
  }

  lemma ErasedIsBlank(t: Term, text: seq<Byte>)
    requires t.Valid() && t.edit.line == [] && ValidLine(text)
    ensures EraseText(TypeText(t, text), |text|).edit == t.edit
    ensures BlankedFrom(t.console, EraseText(TypeText(t, text), |text|).console, |text|)
  {
    TypeThenErase(t, text);
  }

  /** So typing any text on an empty line and pressing Up leaves the last entered line in the buffer and, on
      the screen, in place of the text: its cells are blanked, and the line is written from where the text
      began, across wraps and scrolls. */
  lemma TypeThenRecall(t: Term, text: seq<Byte>)
    requires t.Valid() && t.edit.line == [] && ValidLine(text)
    ensures var r, blanked := TypeText(t, text).Typed(Recall), EraseText(TypeText(t, text), |text|).console;
            && r.edit == t.edit.(line := t.edit.last)
            && BlankedFrom(t.console, blanked, |text|) && WrittenFrom(blanked, r.console, t.edit.last)
  {
    TypedIsWritten(t, text);
    RecallIsRetyping(TypeText(t, text));
    ErasedIsBlank(t, text);
    TypedIsWritten(EraseText(TypeText(t, text), |text|), t.edit.last);
  }

  // ---- The first shell of a terminal ----

  /** On a blank page the first tick of a terminal shows its banner, from the home position. */
  lemma BannerShown(s: State, banner: seq<Byte>, blank: Console)
    requires s.Valid() && !s.started[s.Next()] && blank.Valid()
    requires s.terms[s.Next()].console.mem == Cleared(blank).mem
    ensures Shows(s.Ticked(banner).terms[s.Next()].console, Layout(banner))
  {
    Rendering(blank, banner);
    assert s.terms[s.Next()].console.(x := 0, y := 0) == Cleared(blank);
  }

  /** On any page it overwrites the first cells, and leaves the others. */
  lemma BannerWritten(s: State, banner: seq<Byte>)
    requires s.Valid() && !s.started[s.Next()] && |banner| <= COLS * ROWS
    requires forall i :: 0 <= i < |banner| ==> !IsNewline(banner[i])
    ensures var was, now := s.terms[s.Next()].console, s.Ticked(banner).terms[s.Next()].console;
            now.mem == WriteCells(was.mem, 0, banner) && now.Linear() == |banner|
  {
    var home := s.terms[s.Next()].console.(x := 0, y := 0);
    EchoFrom(home, banner, 0);
    assert ScrollBy(home.mem, 0) == home.mem;
  }

  // ---- The typed buffer that a read clears ----

  lemma DeliveredDiffers(line: seq<Byte>, n: nat)
    requires ValidLine(line) && n >= 1
    ensures Delivered(line, n) == Delivered([], n) <==> line == [] || n == 1
  {
    if line != [] && n > 1 {
      assert Delivered(line, n)[0] == line[0] && Delivered([], n)[0] == NEWLINE;
    }
  }

  /** What a read of n bytes would get, once Enter has been pressed: the line then held, exactly when no
      read has finished since while this terminal was on display, or nothing is lost by it. The count
      returned is that of the entered line all the same. */
  ghost predicate ReadGetsEntered(was: Edit, now: Edit, ops: seq<Op>, n: nat)
    requires was.Valid() && ValidOps(ops) && n >= 1
  {
    LastOf(ops, Press(Enter)) >= 0 ==>
      && now.written == |Entered(was, ops)| + 1
      && (Delivered(now.typed, n) == Delivered(Entered(was, ops), n) <==>
            LastOf(ops, DropTyped) < LastOf(ops, Press(Enter)) || Entered(was, ops) == [] || n == 1)
  }

  lemma WaitingIsDelivered(was: Edit, now: Edit, ops: seq<Op>, n: nat)
    requires was.Valid() && ValidOps(ops) && n >= 1 && LineWaits(was, now, ops)
    ensures ReadGetsEntered(was, now, ops, n)
  {
    if LastOf(ops, Press(Enter)) >= 0 { DeliveredDiffers(Entered(was, ops), n); }
  }

  /** What a reader finally gets, in terms of the keys pressed on its terminal: it returns exactly if Enter
      was pressed since it began to wait, with the count of the line then held, and with that line under
      the condition above. */
  ghost predicate ReaderGets(was: Edit, ops: seq<Op>, n: nat, r: ReadResult, bytes: seq<Byte>)
    requires was.Valid() && ValidOps(ops) && n >= 1
  {
    var enter, await, drop := LastOf(ops, Press(Enter)), LastOf(ops, AwaitLine), LastOf(ops, DropTyped);
    && !r.Failed?
    && (r.Line? <==> enter > await || (enter == await && was.updated))
    && (r.Line? && enter >= 0 ==>
          && r.count == |Entered(was, ops)| + 1
          && HoldsLine(bytes, if drop < enter then Entered(was, ops) else [], n)
          && (HoldsLine(bytes, Entered(was, ops), n) <==> drop < enter || Entered(was, ops) == [] || n == 1))
  }

  lemma WaitingIsRead(was: Edit, now: Edit, ops: seq<Op>, n: nat, r: ReadResult, bytes: seq<Byte>)
    requires was.Valid() && ValidOps(ops) && n >= 1 && LineWaits(was, now, ops) && ReadOutcome(now, n, r, bytes)
    ensures ReaderGets(was, ops, n, r, bytes)
  {
    WaitingIsDelivered(was, now, ops, n);
  }

  lemma DeliveredAlone(t: Term, ops: seq<Op>, n: nat, was: Edit, now: Edit)
    requires t.Valid() && ValidOps(ops) && n >= 1 && was == t.edit && now == ActAll(t, ops).edit
    ensures ReadGetsEntered(was, now, ops, n)
  {
    WaitingAlone(t, ops);
    WaitingIsDelivered(was, now, ops, n);
  }

  /** After any run, a reader gets the line last entered on its terminal under exactly that condition. */
  lemma LineReachesReader(s: State, events: seq<Event>, t: int, n: nat, was: Edit, now: Edit, ops: seq<Op>)
    requires s.Valid() && 0 <= t < NUM_TERMINALS && n >= 1
    requires was == s.terms[t].edit && now == RunAll(s, events).terms[t].edit && ops == OpsFor(s, events, t)
    ensures ReadGetsEntered(was, now, ops, n)
  {
    TerminalsAreIndependent(s, events, t);
    DeliveredAlone(s.terms[t], ops, n, was, now);
  }

  /** The terminals at power-on, whatever the video memory holds. */
  function PowerOn(consoles: seq<Console>, shown: int): (s: State)
    requires |consoles| == NUM_TERMINALS && forall i :: 0 <= i < NUM_TERMINALS ==> consoles[i].Valid()
    requires 0 <= shown < NUM_TERMINALS
    ensures s.Valid()
  {
    var blank := Edit.Edit([], [], [], false, 0);
    State([Term(consoles[0], blank), Term(consoles[1], blank), Term(consoles[2], blank)], [false, false, false],
          shown, NUM_TERMINALS - 1, false, Modifiers(false, false, false, false))
  }

  const ENTER_DOWN := 0x1C
  const S_KEY_DOWN := 0x1F
  const F2_KEY_DOWN := 0x3C

  /** The three shells start, and terminal 0 has its turn again. */
  const BOOT: seq<Event> := [] + [Tick([])] + [Tick([])] + [Tick([])] + [Tick([])]
  /** Terminal 0 reads and gets an empty line. */
  const FIRST_LINE: seq<Event> := BOOT + [StartRead] + [Key(L_ALT_DOWN)] + [Key(ENTER_DOWN)]
  /** The user goes to terminal 1, which gets its turn. */
  const TO_SECOND: seq<Event> := FIRST_LINE + [Key(F2_KEY_DOWN)] + [Tick([])]
  /** The shell there reads, and the user enters "ls". */
  const TYPED_LS: seq<Event> := TO_SECOND + [StartRead] + [Key(L_KEY_DOWN)] + [Key(S_KEY_DOWN)] + [Key(ENTER_DOWN)]
  /** Before that shell has its turn again, terminal 0 finishes its read. */
  const LOSSY: seq<Event> := TYPED_LS + [Tick([])] + [Tick([])] + [FinishRead]

  /** What matters of the state a run leads to: who is shown, who has its turn, and two editors. */
  ghost predicate At(s: State, events: seq<Event>, shown: int, turn: int, alt: bool, first: Edit, second: Edit)
    requires s.Valid()
  {
    var r := RunAll(s, events);
    && r.shown == shown && r.turn == turn && r.mods == Modifiers(false, false, alt, false)
    && (shown == turn ==> !r.pending) && r.terms[0].edit == first && r.terms[1].edit == second
  }

  lemma RunMore(s: State, events: seq<Event>, e: Event)
    requires s.Valid()
    ensures RunAll(s, events + [e]) == RunAll(s, events).Step(e)
  {
    assert (events + [e])[..|events|] == events;
  }

  lemma TickKeepsEdits(s: State)
    requires s.Valid()
    ensures var r := s.Step(Tick([]));
            && r.shown == s.shown && r.turn == s.Next() && r.mods == s.mods && !r.pending
            && r.terms[0].edit == s.terms[0].edit && r.terms[1].edit == s.terms[1].edit
  {
  }

  lemma TickAt(s: State, events: seq<Event>, shown: int, turn: int, alt: bool, first: Edit, second: Edit)
    requires s.Valid() && At(s, events, shown, turn, alt, first, second)
    ensures At(s, events + [Tick([])], shown, (turn + 1) % NUM_TERMINALS, alt, first, second)
  {
    RunMore(s, events, Tick([]));
    TickKeepsEdits(RunAll(s, events));
  }

  /** A terminal whose flag is down starts a read. */
  lemma ReadAt(s: State, events: seq<Event>, turn: int, alt: bool, first: Edit, second: Edit)
    requires s.Valid() && At(s, events, turn, turn, alt, first, second) && 0 <= turn <= 1
    requires if turn == 0 then !first.updated else !second.updated
    ensures At(s, events + [StartRead], turn, turn, alt, first, second)
  {
    RunMore(s, events, StartRead);
  }

  lemma TypeAt(s: State, events: seq<Event>, turn: int, first: Edit, second: Edit, scancode: Byte, k: Key)
    requires s.Valid() && At(s, events, turn, turn, true, first, second) && 0 <= turn <= 1
    requires k.Valid() && Decode(Modifiers(false, false, true, false), scancode) == Type(k)
    ensures first.Valid() && second.Valid()
    ensures At(s, events + [Key(scancode)], turn, turn, true, if turn == 0 then first.Press(k) else first,
               if turn == 1 then second.Press(k) else second)
  {
    RunMore(s, events, Key(scancode));
  }

  lemma AltAt(s: State, events: seq<Event>, first: Edit, second: Edit)
    requires s.Valid() && At(s, events, 0, 0, false, first, second)
    ensures At(s, events + [Key(L_ALT_DOWN)], 0, 0, true, first, second)
  {
    RunMore(s, events, Key(L_ALT_DOWN));
  }

  lemma ShowAt(s: State, events: seq<Event>, first: Edit, second: Edit)
    requires s.Valid() && At(s, events, 0, 0, true, first, second)
    ensures At(s, events + [Key(F2_KEY_DOWN)], 1, 0, true, first, second)
  {
    RunMore(s, events, Key(F2_KEY_DOWN));
    KeysDecoded();
  }

  lemma FinishAt(s: State, events: seq<Event>, first: Edit, second: Edit)
    requires s.Valid() && At(s, events, 1, 0, true, first, second) && first.updated
    ensures At(s, events + [FinishRead], 1, 0, true, first, second.(typed := []))
  {
    RunMore(s, events, FinishRead);
  }

  lemma KeysDecoded()
    ensures var m := Modifiers(false, false, true, false);
            Decode(m, ENTER_DOWN) == Type(Enter) && Decode(m, F2_KEY_DOWN) == Show(1)
  {
    EnterDecoded(Modifiers(false, false, true, false));
    ShowDecoded(Modifiers(false, false, true, false));
  }

  lemma EnterDecoded(m: Modifiers)
    ensures Decode(m, ENTER_DOWN) == Type(Enter)
  {
    assert CharacterCode(m, ENTER_DOWN) == NEWLINE;
  }

  lemma ShowDecoded(m: Modifiers)
    requires m.alt
    ensures Decode(m, F2_KEY_DOWN) == Show(1)
  {
  }

  lemma LDecoded()
    ensures Decode(Modifiers(false, false, true, false), L_KEY_DOWN) == Type(Char(108))
  {
    HomeLetter(Modifiers(false, false, true, false), 8, 108);
  }

  lemma SDecoded()
    ensures Decode(Modifiers(false, false, true, false), S_KEY_DOWN) == Type(Char(115))
  {
    HomeLetter(Modifiers(false, false, true, false), 1, 115);
  }

  lemma HomeLetter(m: Modifiers, i: nat, c: Byte)
    requires i < 9 && !m.shift && !m.caps && !m.ctrl && 97 <= c <= 122
    requires c == [97, 115, 100, 102, 103, 104, 106, 107, 108, 59, 39, 96][i]
    ensures Decode(m, i + 30) == Type(Char(c))
  {
    HomeRowCodes(i);
    ShiftBeforeCaps(m);
    CharacterOf(m, i + 30);
    TypesCharacter(m, i + 30, c);
  }

  /** A line entered on the displayed terminal can be lost to a read on another: from power-on this run
      leaves terminal 1 with "ls" entered, its reader woken with a count of 3, and an empty line. */
  lemma UnreadLineLost(consoles: seq<Console>, n: nat)
    requires |consoles| == NUM_TERMINALS && (forall i :: 0 <= i < NUM_TERMINALS ==> consoles[i].Valid()) && n > 1
    ensures var e := RunAll(PowerOn(consoles, 0), LOSSY).terms[1].edit;
            && e.updated && e.written == 3 && e.last == [108, 115]
            && Delivered(e.typed, n) == Delivered([], n) != Delivered(e.last, n)
  {
    var s, e := PowerOn(consoles, 0), Edit.Edit([], [], [], false, 0);
    assert At(s, [], 0, 2, false, e, e);
    Boot(s, e);
    FirstLine(s, e);
    GoSecond(s, Edit.Edit([], [], [], true, 1), e);
    TypeLs(s, e);
    LoseLine(s, Edit.Edit([], [], [], true, 1), Edit.Edit([], [108, 115], [108, 115], true, 3));
    DeliveredDiffers([108, 115], n);
  }

  lemma Boot(s: State, e: Edit)
    requires s.Valid() && At(s, [], 0, 2, false, e, e)
    ensures At(s, BOOT, 0, 0, false, e, e)
  {
    TickAt(s, [], 0, 2, false, e, e);
    TickAt(s, [] + [Tick([])], 0, 0, false, e, e);
    TickAt(s, [] + [Tick([])] + [Tick([])], 0, 1, false, e, e);
    TickAt(s, [] + [Tick([])] + [Tick([])] + [Tick([])], 0, 2, false, e, e);
  }

  lemma FirstLine(s: State, e: Edit)
    requires s.Valid() && At(s, BOOT, 0, 0, false, e, e) && e == Edit.Edit([], [], [], false, 0)
    ensures At(s, FIRST_LINE, 0, 0, true, Edit.Edit([], [], [], true, 1), e)
  {
    KeysDecoded();
    ReadAt(s, BOOT, 0, false, e, e);
    AltAt(s, BOOT + [StartRead], e, e);
    TypeAt(s, BOOT + [StartRead] + [Key(L_ALT_DOWN)], 0, e, e, ENTER_DOWN, Enter);
  }

  lemma GoSecond(s: State, e: Edit, f: Edit)
    requires s.Valid() && At(s, FIRST_LINE, 0, 0, true, e, f)
    ensures At(s, TO_SECOND, 1, 1, true, e, f)
  {
    ShowAt(s, FIRST_LINE, e, f);
    TickAt(s, FIRST_LINE + [Key(F2_KEY_DOWN)], 1, 0, true, e, f);
  }

  lemma TypeLs(s: State, f: Edit)
    requires s.Valid() && At(s, TO_SECOND, 1, 1, true, Edit.Edit([], [], [], true, 1), f)
    requires f == Edit.Edit([], [], [], false, 0)
    ensures At(s, TYPED_LS, 1, 1, true, Edit.Edit([], [], [], true, 1), Edit.Edit([], [108, 115], [108, 115], true, 3))
  {
    KeysDecoded();
    LDecoded();
    SDecoded();
    var r, e := TO_SECOND, Edit.Edit([], [], [], true, 1);
    ReadAt(s, r, 1, true, e, f);
    r := r + [StartRead];
    TypeAt(s, r, 1, e, f, L_KEY_DOWN, Char(108));
    r := r + [Key(L_KEY_DOWN)];
    var l := f.Press(Char(108));
    TypeAt(s, r, 1, e, l, S_KEY_DOWN, Char(115));
    r := r + [Key(S_KEY_DOWN)];
    var ls := l.Press(Char(115));
    assert ls.line == [108, 115];
    TypeAt(s, r, 1, e, ls, ENTER_DOWN, Enter);
  }

  lemma LoseLine(s: State, e: Edit, f: Edit)
    requires s.Valid() && At(s, TYPED_LS, 1, 1, true, e, f) && e.updated
    ensures At(s, LOSSY, 1, 0, true, e, f.(typed := []))
  {
    TickAt(s, TYPED_LS, 1, 1, true, e, f);
    TickAt(s, TYPED_LS + [Tick([])], 1, 2, true, e, f);
    FinishAt(s, TYPED_LS + [Tick([])] + [Tick([])], e, f);
  }
}
