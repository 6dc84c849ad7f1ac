/** The reference behaviour of the three terminals: three consoles and line editors that share
    nothing, one of them displayed, served in turn. No page, mapping or saved cursor appears here. */
module Desk {
  import opened Bytes
  import opened Screen
  import opened LineEditor

  // Scancodes of keyboard.h
  const L_SHIFT_DOWN := 0x2A
  const L_SHIFT_UP := 0xAA
  const R_SHIFT_DOWN := 0x36
  const R_SHIFT_UP := 0xB6
  const L_CTRL_DOWN := 0x1D
  const L_CTRL_UP := 0x9D
  const L_ALT_DOWN := 0x38
  const L_ALT_UP := 0xB8
  const CAPS_DOWN := 0x3A
  const UP_ARROW_DOWN := 0x48
  const L_KEY_DOWN := 0x26
  const F1_KEY_DOWN := 0x3B
  const F3_KEY_DOWN := 0x3D

  datatype Modifiers = Modifiers(shift: bool, ctrl: bool, alt: bool, caps: bool)

  /** One of the keymaps, given by its three runs of printable keys. */
  datatype Keymap = Keymap(digits: string, upper: string, home: string, lower: string)

  const PLAIN := Keymap("1234567890-=", "qwertyuiop[]", "asdfghjkl;'`", "\\zxcvbnm,./")
  const SHIFTED := Keymap("!@#$%^&*()_+", "QWERTYUIOP{}", "ASDFGHJKL:\"~", "|ZXCVBNM<>?")
  const CAPS := Keymap("1234567890-=", "QWERTYUIOP[]", "ASDFGHJKL;'`", "\\ZXCVBNM,./")

  /** The ASCII code of a printable character of a keymap row. */
  function CharByte(s: string, i: int): (b: Byte)
    requires 0 <= i < |s|
    ensures b == 0 || 32 <= b < 127
  {
    if ' ' <= s[i] <= '~' then s[i] as int else 0
  }

  /** Entry i of a keymap array; 0 marks keys without a character. */
  function Lookup(m: Keymap, i: int): (b: Byte)
    requires |m.digits| == 12 && |m.upper| == 12 && |m.home| == 12 && |m.lower| == 11
    ensures b == 0 || b == 8 || b == 9 || b == NEWLINE || 32 <= b < 127
  {
    if 2 <= i < 14 then CharByte(m.digits, i - 2)
    else if i == 14 then 8
    else if i == 15 then 9
    else if 16 <= i < 28 then CharByte(m.upper, i - 16)
    else if i == 28 then NEWLINE
    else if 30 <= i < 42 then CharByte(m.home, i - 30)
    else if 43 <= i < 54 then CharByte(m.lower, i - 43)
    else if i == 55 then 42
    else if i == 57 then SPACE
    else if i == 74 then 45
    else if i == 78 then 43
    else 0
  }

  predicate IsLower(b: Byte) {
    97 <= b <= 122
  }

  ghost predicate CaseOnly(i: int) {
    var c := Lookup(PLAIN, i);
    if IsLower(c) then Lookup(CAPS, i) == Lookup(SHIFTED, i) == c - 32 else Lookup(CAPS, i) == c
  }

  lemma UpperRowCase(i: int)
    requires 16 <= i < 28
    ensures CaseOnly(i)
  {
  }

  lemma HomeRowCase(i: int)
    requires 30 <= i < 42
    ensures CaseOnly(i)
  {
  }

  lemma LowerRowCase(i: int)
    requires 43 <= i < 54
    ensures CaseOnly(i)
  {
  }

  /** Caps lock changes exactly the letters, to upper case, and shift agrees with it on them. */
  lemma KeymapsAgree(i: nat)
    requires i < 128
    ensures CaseOnly(i)
  {
    if 16 <= i < 28 {
      UpperRowCase(i);
    } else if 30 <= i < 42 {
      HomeRowCase(i);
    } else if 43 <= i < 54 {
      LowerRowCase(i);
    }
  }

  /** The keys with characters, by the codes they give without and with shift. */
  lemma DigitRowCodes(i: nat)
    requires i < 12
    ensures Lookup(PLAIN, i + 2) == [49, 50, 51, 52, 53, 54, 55, 56, 57, 48, 45, 61][i]
    ensures Lookup(SHIFTED, i + 2) == [33, 64, 35, 36, 37, 94, 38, 42, 40, 41, 95, 43][i]
  {
  }

  lemma UpperRowCodes(i: nat)
    requires i < 12
    ensures Lookup(PLAIN, i + 16) == [113, 119, 101, 114, 116, 121, 117, 105, 111, 112, 91, 93][i]
    ensures Lookup(SHIFTED, i + 16) == [81, 87, 69, 82, 84, 89, 85, 73, 79, 80, 123, 125][i]
  {
  }

  lemma HomeRowCodes(i: nat)
    requires i < 12
    ensures Lookup(PLAIN, i + 30) == [97, 115, 100, 102, 103, 104, 106, 107, 108, 59, 39, 96][i]
    ensures Lookup(SHIFTED, i + 30) == [65, 83, 68, 70, 71, 72, 74, 75, 76, 58, 34, 126][i]
  {
  }

  lemma LowerRowCodes(i: nat)
    requires i < 11
    ensures Lookup(PLAIN, i + 43) == [92, 122, 120, 99, 118, 98, 110, 109, 44, 46, 47][i]
    ensures Lookup(SHIFTED, i + 43) == [124, 90, 88, 67, 86, 66, 78, 77, 60, 62, 63][i]
  {
  }

  /** The other keys give the same code in every table, and most give none. */
  lemma OtherCodes(m: Keymap, i: nat)
    requires |m.digits| == 12 && |m.upper| == 12 && |m.home| == 12 && |m.lower| == 11
    requires !(2 <= i < 14) && !(16 <= i < 28) && !(30 <= i < 42) && !(43 <= i < 54)
    ensures Lookup(m, i) == if i == 14 then 8 else if i == 15 then 9 else if i == 28 then 10 else if i == 55 then 42
                            else if i == 57 then 32 else if i == 74 then 45 else if i == 78 then 43 else 0
  {
  }

  /** get_character_code */
  function CharacterCode(m: Modifiers, scancode: Byte): (b: Byte)
    ensures b == 0 || b == 8 || b == 9 || b == NEWLINE || 32 <= b < 127
  {
    Lookup(KeymapFor(m), scancode % 128)
  }

  function KeymapFor(m: Modifiers): (k: Keymap)
    ensures |k.digits| == 12 && |k.upper| == 12 && |k.home| == 12 && |k.lower| == 11
  {
    if m.shift then SHIFTED else if m.caps then CAPS else PLAIN
  }

  datatype Action = Hold(mods: Modifiers) | Type(key: Key) | Redraw | Show(n: int) | Ignore

  /** The modifier state after a modifier key or caps lock. */
  function Held(m: Modifiers, scancode: Byte): Option<Modifiers> {
    if scancode == L_SHIFT_DOWN || scancode == R_SHIFT_DOWN then Some(m.(shift := true))
    else if scancode == L_SHIFT_UP || scancode == R_SHIFT_UP then Some(m.(shift := false))
    else if scancode == L_CTRL_DOWN then Some(m.(ctrl := true))
    else if scancode == L_CTRL_UP then Some(m.(ctrl := false))
    else if scancode == L_ALT_DOWN then Some(m.(alt := true))
    else if scancode == L_ALT_UP then Some(m.(alt := false))
    else if scancode == CAPS_DOWN then Some(m.(caps := !m.caps))
    else None
  }

  /** What a scancode means to KB_handler. */
  function Decode(m: Modifiers, scancode: Byte): (a: Action)
    ensures a.Type? ==> a.key.Valid()
    ensures a.Show? ==> 0 <= a.n < NUM_TERMINALS
  {
    if Held(m, scancode).Some? then Hold(Held(m, scancode).value)
    else if scancode >= 128 then Ignore
    else if scancode == UP_ARROW_DOWN then Type(Recall)
    else if m.ctrl && scancode == L_KEY_DOWN then Redraw
    else if m.alt && F1_KEY_DOWN <= scancode <= F3_KEY_DOWN then Show(scancode - F1_KEY_DOWN)
    else
      var c := CharacterCode(m, scancode);
      if c == 8 then Type(Erase) else if c == NEWLINE then Type(Enter) else if c == NUL then Ignore else Type(Char(c))
  }

  /** Scancodes with a meaning of their own. */
  lemma SpecialCodes(m: Modifiers, n: nat)
    requires n < 3
    ensures Held(m, 0x2A) == Held(m, 0x36) == Some(m.(shift := true))
    ensures Held(m, 0xAA) == Held(m, 0xB6) == Some(m.(shift := false))
    ensures Held(m, 0x1D) == Some(m.(ctrl := true)) && Held(m, 0x9D) == Some(m.(ctrl := false))
    ensures Held(m, 0x38) == Some(m.(alt := true)) && Held(m, 0xB8) == Some(m.(alt := false))
    ensures Held(m, 0x3A) == Some(m.(caps := !m.caps))
    ensures Decode(m, 0x48) == Type(Recall)
    ensures m.ctrl ==> Decode(m, 0x26) == Redraw
    ensures m.alt ==> Decode(m, 0x3B + n) == Show(n)
  {
  }

  /** Shift decides before caps lock. */
  lemma ShiftBeforeCaps(m: Modifiers)
    ensures m.shift ==> KeymapFor(m) == SHIFTED
    ensures !m.shift ==> KeymapFor(m) == if m.caps then CAPS else PLAIN
  {
  }

  /** The character of a key is its entry in that table. */
  lemma CharacterOf(m: Modifiers, code: Byte)
    requires code < 128
    ensures CharacterCode(m, code) == Lookup(KeymapFor(m), code)
  {
    assert code % 128 == code;
  }

  /** What a key with no meaning of its own does: 8 erases, 10 enters, and a key without a code is ignored. */
  lemma TypesCharacter(m: Modifiers, code: Byte, c: Byte)
    requires code < 128 && Held(m, code).None? && code != 0x48 && c == CharacterCode(m, code)
    requires !(m.ctrl && code == 0x26) && !(m.alt && 0x3B <= code <= 0x3D)
    ensures Decode(m, code) == if c == 8 then Type(Erase) else if c == 10 then Type(Enter) else if c == 0 then Ignore
                               else Type(Char(c))
  {
  }

  /** Releases of other keys than the modifiers do nothing. */
  lemma ReleasesIgnored(m: Modifiers, code: Byte)
    requires code >= 128 && code !in {0xAA, 0xB6, 0x9D, 0xB8}
    ensures Decode(m, code) == Ignore
  {
  }

  /** One terminal: its own console and its own line editor. */
  datatype Term = Term(console: Console, edit: Edit) {
    ghost predicate Valid() {
      console.Valid() && edit.Valid()
    }

    function Write(c: Byte): (t: Term)
      requires Valid()
      ensures t.Valid()
    {
      this.(console := Put(console, c))
    }

    /** A key edits the line and echoes on the same terminal. */
    function Typed(k: Key): (t: Term)
      requires Valid() && k.Valid()
      ensures t.Valid()
    {
      var echo :=
        match k
        case Char(c) => if |edit.line| >= BUF_SIZE - 1 then console else Put(console, c)
        case Erase => if edit.line == [] then console else Backspace(console)
        case Enter => Put(console, NEWLINE)
        case Recall => PutAll(BackspaceAll(console, |edit.line|), edit.last);
      Term(echo, edit.Press(k))
    }

    /** Ctrl-L: a clear screen with the line being typed. */
    function Redrawn(): (t: Term)
      requires Valid()
      ensures t.Valid()
    {
      this.(console := PutAll(Cleared(console), edit.line))
    }

    /** A root shell starting up: the cursor goes home and the kernel prints its banner. */
    function Started(banner: seq<Byte>): (t: Term)
      requires Valid()
      ensures t.Valid()
    {
      this.(console := PutAll(console.(x := 0, y := 0), banner))
    }
  }

  datatype Event =
    | Timer                        // the PIT raises its line
    | Tick(banner: seq<Byte>)      // the PIT handler runs; the banner is printed if it starts a shell
    | Write(c: Byte)               // the running process, or the kernel on its behalf, prints a byte
    | Key(scancode: Byte)          // the keyboard raises its line
    | StartRead                    // terminal_read resets its flag
    | FinishRead                   // terminal_read, woken, takes the line and clears a typed buffer

  datatype State = State(terms: seq<Term>, started: seq<bool>, shown: int, turn: int, pending: bool, mods: Modifiers) {
    ghost predicate Valid() {
      && |terms| == NUM_TERMINALS && terms[0].Valid() && terms[1].Valid() && terms[2].Valid()
      && |started| == NUM_TERMINALS
      && 0 <= shown < NUM_TERMINALS && 0 <= turn < NUM_TERMINALS
    }

    function Next(): int {
      (turn + 1) % NUM_TERMINALS
    }

    function Update(t: int, term: Term): (s: State)
      requires Valid() && 0 <= t < NUM_TERMINALS && term.Valid()
      ensures s.Valid()
    {
      this.(terms := terms[t := term])
    }

    /** Keys are taken only while the displayed terminal has its turn and no tick is waiting. */
    predicate TakesKeys() {
      !pending && turn == shown
    }

    /** The next terminal gets its turn; if it never had one, its shell starts. */
    function Ticked(banner: seq<Byte>): (s: State)
      requires Valid()
      ensures s.Valid()
    {
      var s := this.(pending := false, turn := Next());
      if started[Next()] then s
      else s.Update(Next(), terms[Next()].Started(banner)).(started := started[Next() := true])
    }

    function Wrote(c: Byte): (s: State)
      requires Valid()
      ensures s.Valid()
    {
      Update(turn, terms[turn].Write(c))
    }

    function ReadStarted(): (s: State)
      requires Valid()
      ensures s.Valid()
    {
      Update(turn, terms[turn].(edit := terms[turn].edit.(updated := false)))
    }

    /** The typed buffer cleared after a read is that of the displayed terminal. */
    function ReadFinished(): (s: State)
      requires Valid()
      ensures s.Valid()
    {
      if terms[turn].edit.updated then Update(shown, terms[shown].(edit := terms[shown].edit.(typed := []))) else this
    }

    function Keyed(scancode: Byte): (s: State)
      requires Valid()
      ensures s.Valid()
    {
      if TakesKeys() then PressKey(Decode(mods, scancode)) else this
    }

    function Step(e: Event): (s: State)
      requires Valid()
      ensures s.Valid()
    {
      match e
      case Timer => this.(pending := true)
      case Tick(banner) => Ticked(banner)
      case Write(c) => Wrote(c)
      case Key(scancode) => Keyed(scancode)
      case StartRead => ReadStarted()
      case FinishRead => ReadFinished()
    }

    function PressKey(a: Action): (s: State)
      requires Valid() && (a.Type? ==> a.key.Valid()) && (a.Show? ==> 0 <= a.n < NUM_TERMINALS)
      ensures s.Valid()
    {
      match a
      case Hold(m) => this.(mods := m)
      case Type(k) => Update(shown, terms[shown].Typed(k))
      case Redraw => Update(shown, terms[shown].Redrawn())
      case Show(n) => if n == shown then this else this.(shown := n, pending := true)
      case Ignore => this
    }
  }

  /** The two ways a tick goes, as the scheduler computes them. */
  lemma TickedBranches(s: State, banner: seq<Byte>, runs: bool)
    requires s.Valid()
    ensures var n := s.Next();
            var b, r := s.started[n := s.started[n] || runs], s.(pending := false);
            && (s.started[n] ==> r.(turn := n) == s.Ticked(banner).(started := b))
            && (!s.started[n] ==>
                  r.(turn := n, started := b).Update(n, s.terms[n].Started(banner)) == s.Ticked(banner).(started := b))
  {
    var n := s.Next();
    if s.started[n] { assert s.started[n := true] == s.started; }
  }

  lemma TickedStarts(s: State, banner: seq<Byte>)
    requires s.Valid()
    ensures var r := s.Ticked(banner); r == r.(started := s.started[s.Next() := true])
  {
    var n := s.Next();
    if s.started[n] { assert s.started[n := true] == s.started; }
  }

  lemma UpdateTwice(s: State, t: int, a: Term, b: Term)
    requires s.Valid() && 0 <= t < NUM_TERMINALS && a.Valid() && b.Valid()
    ensures s.Update(t, a).Update(t, b) == s.Update(t, b) && s.Update(t, a).terms[t] == a
    ensures s.Update(t, s.terms[t]) == s
  {
    assert s.terms[t := a][t := b] == s.terms[t := b];
    assert s.terms[t := s.terms[t]] == s.terms;
  }

  function RunAll(s: State, events: seq<Event>): (r: State)
    requires s.Valid()
    ensures r.Valid()
  {
    if events == [] then s else RunAll(s, events[..|events| - 1]).Step(events[|events| - 1])
  }

  function TicksIn(events: seq<Event>): nat {
    if events == [] then 0 else TicksIn(events[..|events| - 1]) + if events[|events| - 1].Tick? then 1 else 0
  }

  lemma {:induction false} TurnsTaken(s: State, events: seq<Event>)
    requires s.Valid()
    ensures RunAll(s, events).turn == Turned(s.turn, TicksIn(events))
  {
    if events != [] {
      TurnsTaken(s, events[..|events| - 1]);
      TurnStep(RunAll(s, events[..|events| - 1]), events[|events| - 1]);
    }
  }

  /** Turns go round: only ticks pass them on, each to the next of the three terminals. */
  lemma RoundRobin(s: State, events: seq<Event>)
    requires s.Valid()
    ensures RunAll(s, events).turn == (s.turn + TicksIn(events)) % 3
  {
    TurnsTaken(s, events);
    TurnedIs(s.turn, TicksIn(events));
  }

  lemma TurnStep(s: State, e: Event)
    requires s.Valid()
    ensures s.Step(e).turn == if e.Tick? then (s.turn + 1) % 3 else s.turn
  {
  }

  /** The key asks for another terminal than the one shown, and is taken. */
  predicate Switches(s: State, e: Event) {
    e.Key? && s.TakesKeys() && Decode(s.mods, e.scancode).Show? && Decode(s.mods, e.scancode).n != s.shown
  }

  /** The terminal shown after a run: the one last asked for by a key taken. */
  function LastShown(s: State, events: seq<Event>): int
    requires s.Valid()
  {
    if events == [] then s.shown
    else
      var front, e := events[..|events| - 1], events[|events| - 1];
      if Switches(RunAll(s, front), e) then Decode(RunAll(s, front).mods, e.scancode).n else LastShown(s, front)
  }

  /** Whether the timer fired, or a terminal switch waited for it, since the last tick. */
  function TickDue(s: State, events: seq<Event>): bool
    requires s.Valid()
  {
    if events == [] then s.pending
    else
      var front, e := events[..|events| - 1], events[|events| - 1];
      !e.Tick? && (e.Timer? || Switches(RunAll(s, front), e) || TickDue(s, front))
  }

  lemma ShownStep(s: State, e: Event)
    requires s.Valid()
    ensures s.Step(e).shown == if Switches(s, e) then Decode(s.mods, e.scancode).n else s.shown
    ensures s.Step(e).pending == (!e.Tick? && (e.Timer? || Switches(s, e) || s.pending))
  {
  }

  /** Only function keys change the display, and a tick is pending exactly if one is due. */
  lemma {:induction false} DisplayAndTick(s: State, events: seq<Event>)
    requires s.Valid()
    ensures RunAll(s, events).shown == LastShown(s, events) && RunAll(s, events).pending == TickDue(s, events)
  {
    if events != [] {
      DisplayAndTick(s, events[..|events| - 1]);
      ShownStep(RunAll(s, events[..|events| - 1]), events[|events| - 1]);
    }
  }

  // ---- Modifier keys over any sequence of scancodes ----

  function HeldAfter(m: Modifiers, codes: seq<Byte>): Modifiers {
    if codes == [] then m
    else HeldBy(HeldAfter(m, codes[..|codes| - 1]), codes[|codes| - 1])
  }

  /** Whether the last of the codes that press or release a key pressed it; `start` if there is none. */
  function LastPressed(start: bool, codes: seq<Byte>, press: set<Byte>, release: set<Byte>): bool {
    if codes == [] then start
    else if codes[|codes| - 1] in press then true
    else if codes[|codes| - 1] in release then false
    else LastPressed(start, codes[..|codes| - 1], press, release)
  }

  function Presses(codes: seq<Byte>, c: Byte): nat {
    if codes == [] then 0 else Presses(codes[..|codes| - 1], c) + if codes[|codes| - 1] == c then 1 else 0
  }

  function HeldBy(m: Modifiers, c: Byte): Modifiers {
    var h := Held(m, c);
    if h.Some? then h.value else m
  }

  lemma HeldByOne(m: Modifiers, c: Byte)
    ensures var h := HeldBy(m, c);
            && h.shift == (c == L_SHIFT_DOWN || c == R_SHIFT_DOWN || (m.shift && c != L_SHIFT_UP && c != R_SHIFT_UP))
            && h.ctrl == (c == L_CTRL_DOWN || (m.ctrl && c != L_CTRL_UP))
            && h.alt == (c == L_ALT_DOWN || (m.alt && c != L_ALT_UP))
            && h.caps == (m.caps != (c == CAPS_DOWN))
  {
  }

  /** Modifiers m, held at the start, as the codes leave them: shift, control and alt are on exactly when
      their last event was a press, and caps lock has flipped once for each press. */
  ghost predicate Tracks(h: Modifiers, m: Modifiers, codes: seq<Byte>) {
    && h.shift == LastPressed(m.shift, codes, {L_SHIFT_DOWN, R_SHIFT_DOWN}, {L_SHIFT_UP, R_SHIFT_UP})
    && h.ctrl == LastPressed(m.ctrl, codes, {L_CTRL_DOWN}, {L_CTRL_UP})
    && h.alt == LastPressed(m.alt, codes, {L_ALT_DOWN}, {L_ALT_UP})
    && h.caps == if Presses(codes, CAPS_DOWN) % 2 == 1 then !m.caps else m.caps
  }

  lemma {:induction false} HeldTracksKeys(m: Modifiers, codes: seq<Byte>)
    ensures Tracks(HeldAfter(m, codes), m, codes)
  {
    if codes != [] {
      HeldTracksKeys(m, codes[..|codes| - 1]);
      TracksOneMore(HeldAfter(m, codes[..|codes| - 1]), m, codes);
    }
  }

  lemma TracksOneMore(h: Modifiers, m: Modifiers, codes: seq<Byte>)
    requires codes != [] && Tracks(h, m, codes[..|codes| - 1])
    ensures Tracks(HeldBy(h, codes[|codes| - 1]), m, codes)
  {
    HeldByOne(h, codes[|codes| - 1]);
  }

  /** The scancodes a run delivers to the keyboard handler. */
  function CodesTaken(s: State, events: seq<Event>): seq<Byte>
    requires s.Valid()
  {
    if events == [] then []
    else
      var front, e := events[..|events| - 1], events[|events| - 1];
      CodesTaken(s, front) + if e.Key? && RunAll(s, front).TakesKeys() then [e.scancode] else []
  }

  lemma ModsStep(s: State, e: Event)
    requires s.Valid()
    ensures s.Step(e).mods == if e.Key? && s.TakesKeys() then HeldBy(s.mods, e.scancode) else s.mods
  {
  }

  lemma {:induction false} ModsAreHeld(s: State, events: seq<Event>)
    requires s.Valid()
    ensures RunAll(s, events).mods == HeldAfter(s.mods, CodesTaken(s, events))
  {
    if events != [] {
      var front, e := events[..|events| - 1], events[|events| - 1];
      ModsAreHeld(s, front);
      ModsStep(RunAll(s, front), e);
      var before, codes := CodesTaken(s, front), CodesTaken(s, events);
      if e.Key? && RunAll(s, front).TakesKeys() {
        assert codes[..|codes| - 1] == before;
      } else {
        assert codes == before;
      }
    }
  }

  /** Over every run the modifiers are those of the keys taken, whatever terminals they were taken on. */
  lemma ModifiersTrackKeys(s: State, events: seq<Event>)
    requires s.Valid()
    ensures Tracks(RunAll(s, events).mods, s.mods, CodesTaken(s, events))
  {
    ModsAreHeld(s, events);
    HeldTracksKeys(s.mods, CodesTaken(s, events));
  }
}
