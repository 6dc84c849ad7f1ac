/** The scheduler's video and keyboard side: three terminals share one VGA page through page
    remapping, copying and masking of the keyboard line. Every step is proved to be the step of the
    reference terminals in module Desk. */
module Multiplexer {
  import opened Bytes
  import opened Screen
  import opened LineEditor
  import opened Desk
  import opened InterruptController
  import opened Isolation

  /** vid_id of the page the VGA displays. */
  const MAIN_VID := -1

  predicate OnGrid(p: (int, int)) {
    0 <= p.0 <= COLS && 0 <= p.1 < ROWS
  }

  /** The page holding terminal t's screen while terminal `shown` is on display: the displayed page or its
      backup page. */
  function PageIn(shown: int, t: int): int {
    if t == shown then 0 else t + 1
  }

  ghost predicate Shaped(pages: seq<seq<Byte>>, saved: seq<(int, int)>, edits: seq<Edit>) {
    && |pages| == 1 + NUM_TERMINALS && |pages[0]| == |pages[1]| == |pages[2]| == |pages[3]| == PAGE
    && |saved| == |edits| == NUM_TERMINALS
    && OnGrid(saved[0]) && OnGrid(saved[1]) && OnGrid(saved[2])
    && edits[0].Valid() && edits[1].Valid() && edits[2].Valid()
  }

  ghost function TermIn(pages: seq<seq<Byte>>, saved: seq<(int, int)>, edits: seq<Edit>, shown: int, t: int): (r: Term)
    requires Shaped(pages, saved, edits) && 0 <= t < NUM_TERMINALS
    ensures r.Valid()
  {
    Term(Console(pages[PageIn(shown, t)], saved[t].0, saved[t].1), edits[t])
  }

  /** The three terminals. */
  ghost function Screens(pages: seq<seq<Byte>>, saved: seq<(int, int)>, edits: seq<Edit>, shown: int): seq<Term>
    requires Shaped(pages, saved, edits)
  {
    [TermIn(pages, saved, edits, shown, 0), TermIn(pages, saved, edits, shown, 1), TermIn(pages, saved, edits, shown, 2)]
  }

  /** Changing one terminal's page and saved cursor changes that terminal alone. */
  lemma DrawnScreens(pages: seq<seq<Byte>>, saved: seq<(int, int)>, edits: seq<Edit>, shown: int, t: int, con: Console)
    requires Shaped(pages, saved, edits) && 0 <= t < NUM_TERMINALS && 0 <= shown < NUM_TERMINALS && con.Valid()
    ensures var pages', saved' := pages[PageIn(shown, t) := con.mem], saved[t := (con.x, con.y)];
            && Shaped(pages', saved', edits)
            && Screens(pages', saved', edits, shown) == Screens(pages, saved, edits, shown)[t := Term(con, edits[t])]
  {
  }

  class Multiplexer {
    const pic: Pic
    var currProcess: int              // terminal whose turn it is
    var currTer: int                  // terminal on display
    var onScreen: bool
    var frame: int                    // physical page behind virtual page VIDEO, counted from VIDEO
    var pages: seq<seq<Byte>>         // the displayed page and the three backup pages
    var screenX: int                  // live cursor
    var screenY: int
    var saved: seq<(int, int)>        // screen_x_save, screen_y_save
    var edits: seq<Edit>
    var booted: seq<bool>             // prog_curr_pid != -1
    var mods: Modifiers
    var tickPending: bool             // the PIT line is raised and not yet served

    ghost predicate WellFormed()
      reads this, pic
    {
      Shape() && pic.Valid() && PIT_IRQ in pic.enabled
    }

    ghost predicate Shape()
      reads this
    {
      && 0 <= currProcess < NUM_TERMINALS && 0 <= currTer < NUM_TERMINALS
      && Shaped(pages, saved, edits) && |booted| == NUM_TERMINALS
    }

    function PageOf(t: int): int
      reads this
    {
      PageIn(currTer, t)
    }

    ghost function TermOf(t: int): Term
      requires Shape() && 0 <= t < NUM_TERMINALS
      reads this
    {
      TermIn(pages, saved, edits, currTer, t)
    }

    /** The reference state this machine stands for. */
    ghost function View(): (s: State)
      requires Shape()
      reads this
      ensures s.Valid()
    {
      State(Screens(pages, saved, edits, currTer), booted, currTer, currProcess, tickPending, mods)
    }

    /** What holds from the first tick on: the mapping, the live cursor, the on_screen flag and the
        keyboard mask all belong to the terminal whose turn it is. After a terminal switch the last
        two are stale until the tick that is then pending. */
    ghost predicate Inv()
      reads this, pic
    {
      && WellFormed()
      && saved[currProcess] == (screenX, screenY)
      && frame == PageOf(currProcess)
      && (!tickPending ==> onScreen == (currProcess == currTer))
      && (!tickPending ==> (KEYBOARD_IRQ in pic.enabled <==> currProcess == currTer))
    }

    /** The machine after kernel start-up and before its first tick; key strokes in between may
        already have changed almost everything. */
    constructor (pages: seq<seq<Byte>>, shown: int, frame: int, pic: Pic)
      requires pic.Valid() && PIT_IRQ in pic.enabled && 0 <= shown < NUM_TERMINALS
      requires |pages| == 1 + NUM_TERMINALS && forall i :: 0 <= i <= NUM_TERMINALS ==> |pages[i]| == PAGE
      ensures WellFormed() && this.pic == pic
      ensures View() == PowerOn(seq(NUM_TERMINALS, t requires 0 <= t < NUM_TERMINALS =>
                                  Console(pages[if t == shown then 0 else t + 1], 0, 0)), shown)
    {
      this.pic := pic;
      this.pages := pages;
      this.frame := frame;
      currProcess, currTer := 2, shown;
      onScreen := false;
      screenX, screenY := 0, 0;
      saved := [(0, 0), (0, 0), (0, 0)];
      var blank := Edit.Edit([], [], [], false, 0);
      edits := [blank, blank, blank];
      booted := [false, false, false];
      mods := Modifiers(false, false, false, false);
      tickPending := false;
    }

    method SetCursor()
      requires 0 <= currProcess < |saved|
      modifies this`saved
      ensures saved == old(saved)[currProcess := (screenX, screenY)]
    {
      saved := saved[currProcess := (screenX, screenY)];
    }

    /** The console seen through the current mapping. */
    function Live(): Console
      requires 0 <= frame < |pages|
      reads this
    {
      Console(pages[frame], screenX, screenY)
    }

    lemma LiveIsTurn()
      requires Inv()
      ensures Live() == View().terms[currProcess].console
    {
    }

    /** A change made through the mapping, with the cursor saved if `save`: it lands on the screen of
        the terminal whose turn it is, whether or not that is on display. */
    method Draw(con: Console, save: bool)
      requires Inv() && con.Valid()
      modifies this`pages, this`screenX, this`screenY, this`saved
      ensures save ==> Inv()
      ensures save ==> View() == old(View()).Update(currProcess, old(View()).terms[currProcess].(console := con))
    {
      DrawnScreens(pages, saved, edits, currTer, currProcess, con);
      pages := pages[frame := con.mem];
      screenX, screenY := con.x, con.y;
      if save {
        SetCursor();
      }
    }

    method Putc(c: Byte)
      requires Inv()
      modifies this`pages, this`screenX, this`screenY, this`saved
      ensures Inv()
      ensures View() == old(View()).Wrote(c)
    {
      LiveIsTurn();
      var con := PutInPlace(Live(), c);
      Draw(con, true);
    }

    method PutText(text: seq<Byte>)
      requires Inv()
      modifies this`pages, this`screenX, this`screenY, this`saved
      ensures Inv()
      ensures var s := old(View()); var t := s.terms[currProcess];
              View() == s.Update(currProcess, t.(console := PutAll(t.console, text)))
    {
      ghost var s := View();
      ghost var t := s.terms[currProcess];
      UpdateTwice(s, currProcess, t, t);
      var i := 0;
      while i < |text|
        invariant 0 <= i <= |text| && Inv()
        invariant View() == s.Update(currProcess, t.(console := PutAll(t.console, text[..i])))
      {
        assert text[..i + 1][..i] == text[..i];
        ghost var before := t.(console := PutAll(t.console, text[..i]));
        UpdateTwice(s, currProcess, before, before.Write(text[i]));
        Putc(text[i]);
        i := i + 1;
      }
      assert text[..i] == text;
    }

    /** screen_backspace saves the cursor only when the terminal is on display. */
    method ScreenBackspace()
      requires Inv() && onScreen
      modifies this`pages, this`screenX, this`screenY, this`saved
      ensures Inv()
      ensures var s := old(View()); var t := s.terms[currProcess];
              View() == s.Update(currProcess, t.(console := Backspace(t.console)))
    {
      LiveIsTurn();
      var con := BackspaceInPlace(Live());
      Draw(con, onScreen);
    }

    method SetEdit(t: int, e: Edit)
      requires Inv() && 0 <= t < NUM_TERMINALS && e.Valid()
      modifies this`edits
      ensures Inv()
      ensures View() == old(View()).Update(t, old(View()).terms[t].(edit := e))
    {
      edits := edits[t := e];
    }

    /** A key in the buffers of the displayed terminal. */
    method EditKey(k: Key)
      requires Inv() && k.Valid()
      modifies this`edits
      ensures Inv()
      ensures var t := old(View()).terms[currTer]; View() == old(View()).Update(currTer, t.(edit := t.edit.Press(k)))
    {
      var e := PressInPlace(edits[currTer], k);
      SetEdit(currTer, e);
    }

    /** swap_vid_mem, change_vidmem and the focus change of switch_ter. tickInWait says whether the
        PIT raised its line during wait_slightly; the invariant survives exactly when it did. */
    method SwitchTer(n: int, tickInWait: bool)
      requires Inv() && View().TakesKeys() && 0 <= n < NUM_TERMINALS && n != currTer
      modifies this`pages, this`frame, this`currTer, this`tickPending
      ensures WellFormed() && View() == old(View()).(shown := n, pending := tickInWait)
      ensures Inv() <==> tickInWait
    {
      var was := currTer;
      pages := pages[was + 1 := pages[frame]];
      pages := pages[frame := pages[n + 1]];
      frame := 1 + was;
      currTer := n;
      tickPending := tickPending || tickInWait;
    }

    /** switch_running_process, as far as video, cursor and keyboard go. shellRuns says whether the
        sys_execute of a terminal's first shell succeeds; banner is what it prints. Any well-formed
        state will do, so the first tick establishes the invariant. */
    method Tick(banner: seq<Byte>, shellRuns: bool)
      requires WellFormed() && (booted[currProcess] || !booted[(currProcess + 1) % NUM_TERMINALS])
      modifies this, pic
      ensures Inv() && booted == old(booted)[currProcess := old(booted)[currProcess] || shellRuns]
      ensures View() == old(View()).Ticked(banner).(started := booted)
    {
      ghost var s := View();
      TickedBranches(s, banner, shellRuns);
      var next, vidId := BeginTick();
      ghost var routed := View();
      SwitchTo(next, vidId, banner, shellRuns);
      assert View() == if s.started[next] then routed.(turn := next)
                       else routed.(turn := next, started := booted).Update(next, routed.terms[next].Started(banner));
    }

    /** The tick is taken and the next terminal chosen. */
    method BeginTick() returns (next: int, vidId: int)
      requires WellFormed()
      modifies this`tickPending, this`onScreen, pic
      ensures WellFormed() && next == (currProcess + 1) % NUM_TERMINALS && vidId == PageOf(next) - 1 && !tickPending
      ensures onScreen == (next == currTer) && (KEYBOARD_IRQ in pic.enabled <==> next == currTer)
      ensures View() == old(View()).(pending := false)
    {
      tickPending := false;
      next := (currProcess + 1) % NUM_TERMINALS;
      vidId := Route(next);
    }

    /** The part of switch_running_process after the routing decisions. */
    method SwitchTo(next: int, vidId: int, banner: seq<Byte>, shellRuns: bool)
      requires WellFormed() && 0 <= next < NUM_TERMINALS && vidId == PageOf(next) - 1 && !tickPending
      requires onScreen == (next == currTer) && (KEYBOARD_IRQ in pic.enabled <==> next == currTer)
      requires booted[currProcess] || !booted[next]
      modifies this`frame, this`currProcess, this`pages, this`screenX, this`screenY, this`saved
      modifies this`booted, this`onScreen
      ensures Inv() && currProcess == next && booted == old(booted)[next := old(booted)[next] || shellRuns]
      ensures var s := old(View());
              View() == if old(booted)[next] then s.(turn := next)
                        else s.(turn := next, started := booted).Update(next, s.terms[next].Started(banner))
    {
      if !booted[next] {
        StartShell(next, vidId, banner, shellRuns);
        if shellRuns {
          return;
        }
      }
      if !booted[currProcess] {
        return;
      }
      Resume(next, vidId);
    }

    /** A tick whose shells all start. */
    method TakeTick(banner: seq<Byte>)
      requires WellFormed() && (booted[currProcess] || !booted[(currProcess + 1) % NUM_TERMINALS])
      modifies this, pic
      ensures Inv() && booted[currProcess] && View() == old(View()).Ticked(banner)
    {
      ghost var s := View();
      TickedStarts(s, banner);
      Tick(banner, true);
    }

    /** The choice of video page and of the keyboard mask for the next terminal. */
    method Route(next: int) returns (vidId: int)
      requires WellFormed() && 0 <= next < NUM_TERMINALS
      modifies this`onScreen, pic
      ensures WellFormed() && vidId == PageOf(next) - 1
      ensures onScreen == (next == currTer) && (KEYBOARD_IRQ in pic.enabled <==> next == currTer)
    {
      vidId := next;
      onScreen := false;
      pic.DisableIrq(KEYBOARD_IRQ);
      if next == currTer {
        vidId := MAIN_VID;
        onScreen := true;
        pic.EnableIrq(KEYBOARD_IRQ);
      }
    }

    /** The branch that starts a terminal's first shell, up to what its sys_execute prints. */
    method Start(next: int, vidId: int, banner: seq<Byte>)
      requires WellFormed() && 0 <= next < NUM_TERMINALS && vidId == PageOf(next) - 1 && !tickPending
      requires onScreen == (next == currTer) && (KEYBOARD_IRQ in pic.enabled <==> next == currTer)
      modifies this`frame, this`currProcess, this`pages, this`screenX, this`screenY, this`saved
      ensures Inv()
      ensures View() == old(View()).(turn := next).Update(next, old(View()).terms[next].Started(banner))
    {
      ghost var s, term := View().(turn := next), View().terms[next];
      HomeCursor(next, vidId);
      PutText(banner);
      UpdateTwice(s, next, term.(console := term.console.(x := 0, y := 0)), term.Started(banner));
    }

    /** The mapping of the next terminal, and reset_cursor on it. */
    method HomeCursor(next: int, vidId: int)
      requires WellFormed() && 0 <= next < NUM_TERMINALS && vidId == PageOf(next) - 1 && !tickPending
      requires onScreen == (next == currTer) && (KEYBOARD_IRQ in pic.enabled <==> next == currTer)
      modifies this`frame, this`currProcess, this`screenX, this`screenY, this`saved
      ensures Inv()
      ensures var s, term := old(View()).(turn := next), old(View()).terms[next];
              View() == s.Update(next, term.(console := term.console.(x := 0, y := 0)))
    {
      DrawnScreens(pages, saved, edits, currTer, next, Console(pages[1 + vidId], 0, 0));
      assert pages[1 + vidId := pages[1 + vidId]] == pages;
      MapHome(next, vidId);
    }

    method MapHome(next: int, vidId: int)
      requires 0 <= next < |saved|
      modifies this`frame, this`currProcess, this`screenX, this`screenY, this`saved
      ensures frame == 1 + vidId && currProcess == next && saved == old(saved)[next := (0, 0)]
      ensures screenX == screenY == 0
    {
      frame := 1 + vidId;
      currProcess := next;
      screenX, screenY := 0, 0;
      SetCursor();
    }

    method StartShell(next: int, vidId: int, banner: seq<Byte>, shellRuns: bool)
      requires WellFormed() && 0 <= next < NUM_TERMINALS && vidId == PageOf(next) - 1 && !tickPending && !booted[next]
      requires onScreen == (next == currTer) && (KEYBOARD_IRQ in pic.enabled <==> next == currTer)
      modifies this`frame, this`currProcess, this`pages, this`screenX, this`screenY, this`saved, this`booted
      ensures Inv() && booted == old(booted)[next := shellRuns]
      ensures var s := old(View());
              View() == s.(turn := next, started := booted).Update(next, s.terms[next].Started(banner))
    {
      Start(next, vidId, banner);
      booted := booted[next := shellRuns];
    }

    /** The ordinary branch: mapping and cursor of the next terminal. */
    method Resume(next: int, vidId: int)
      requires WellFormed() && 0 <= next < NUM_TERMINALS && vidId == PageOf(next) - 1 && !tickPending
      requires KEYBOARD_IRQ in pic.enabled <==> next == currTer
      modifies this`frame, this`currProcess, this`screenX, this`screenY, this`onScreen
      ensures Inv()
      ensures View() == old(View()).(turn := next)
    {
      frame := 1 + vidId;
      screenX, screenY := saved[next].0, saved[next].1;
      onScreen := next == currTer;
      currProcess := next;
    }

    /** The raised interrupt lines when the keyboard has a scancode to deliver. */
    function Raised(): set<int>
      reads this
    {
      {KEYBOARD_IRQ} + if tickPending then {PIT_IRQ} else {}
    }

    /** The keyboard is served exactly when the displayed terminal has its turn and no tick is waiting:
        a waiting tick always comes first. */
    lemma KeyboardServedIff()
      requires Inv()
      ensures pic.Serves(KEYBOARD_IRQ, Raised()) <==> View().TakesKeys()
    {
      assert pic.Unmasked(PIT_IRQ);
    }

    // ---- Keyboard handlers. They act on terminals[curr_ter] but echo through the mapping. ----

    method KeyBackspace()
      requires Inv() && View().TakesKeys()
      modifies this`pages, this`screenX, this`screenY, this`saved, this`edits
      ensures Inv() && View() == old(View()).PressKey(Type(Erase))
    {
      ghost var s, t := View(), View().terms[currTer];
      UpdateTwice(s, currTer, t, t);
      if edits[currTer].line != [] {
        UpdateTwice(s, currTer, t.(console := Backspace(t.console)), t.Typed(Erase));
        ScreenBackspace();
        EditKey(Erase);
      }
    }

    method PrintChar(c: Byte)
      requires Inv() && View().TakesKeys() && Typable(c)
      modifies this`pages, this`screenX, this`screenY, this`saved, this`edits
      ensures Inv() && View() == old(View()).PressKey(Type(Char(c)))
    {
      ghost var s, t := View(), View().terms[currTer];
      UpdateTwice(s, currTer, t, t);
      if |edits[currTer].line| >= BUF_SIZE - 1 {
        return;
      }
      UpdateTwice(s, currTer, t.(edit := t.edit.Press(Char(c))), t.Typed(Char(c)));
      EditKey(Char(c));
      Putc(c);
    }

    method EnterKey()
      requires Inv() && View().TakesKeys()
      modifies this`pages, this`screenX, this`screenY, this`saved, this`edits
      ensures Inv() && View() == old(View()).PressKey(Type(Enter))
    {
      ghost var s, t := View(), View().terms[currTer];
      UpdateTwice(s, currTer, t.(edit := t.edit.Press(Enter)), t.Typed(Enter));
      EditKey(Enter);
      Putc(NEWLINE);
    }

    /** The Up-arrow branch of KB_handler. */
    method UpArrow()
      requires Inv() && View().TakesKeys()
      modifies this`pages, this`screenX, this`screenY, this`saved, this`edits
      ensures Inv() && View() == old(View()).PressKey(Type(Recall))
    {
      ghost var s, t := View(), View().terms[currTer];
      var bLen := |edits[currTer].line|;
      EraseLine(bLen);
      ghost var erased := Partly(t, bLen);
      ghost var recalled := erased.(edit := erased.edit.Press(Recall));
      UpdateTwice(s, currTer, erased, recalled);
      EditKey(Recall);
      UpdateTwice(s, currTer, recalled, t.Typed(Recall));
      PutText(edits[currTer].line);
    }

    /** Its erasing loop. */
    method EraseLine(n: nat)
      requires Inv() && View().TakesKeys() && n == |edits[currTer].line|
      modifies this`pages, this`screenX, this`screenY, this`saved, this`edits
      ensures Inv()
      ensures View() == old(View()).Update(currTer, Partly(old(View()).terms[currTer], n))
    {
      ghost var s, t := View(), View().terms[currTer];
      assert t.edit.line[..n] == t.edit.line;
      UpdateTwice(s, currTer, t, t);
      var i := 0;
      while i < n
        invariant 0 <= i <= n && Inv()
        invariant View() == s.Update(currTer, Partly(t, i))
      {
        PartlyMore(s, currTer, t, i);
        KeyBackspace();
        i := i + 1;
      }
    }

    /** A terminal with the last i characters of its line erased. */
    static ghost function Partly(t: Term, i: nat): (r: Term)
      requires t.Valid() && i <= |t.edit.line|
      ensures r.Valid()
    {
      Term(BackspaceAll(t.console, i), t.edit.(line := t.edit.line[..|t.edit.line| - i]))
    }

    static lemma PartlyMore(s: State, n: int, t: Term, i: nat)
      requires s.Valid() && 0 <= n < NUM_TERMINALS && s.shown == n && t.Valid() && i < |t.edit.line|
      ensures s.Update(n, Partly(t, i)).PressKey(Type(Erase)) == s.Update(n, Partly(t, i + 1))
    {
      BackspaceMore(t.console, i);
      var left := |t.edit.line| - i;
      assert t.edit.line[..left][..left - 1] == t.edit.line[..left - 1];
      UpdateTwice(s, n, Partly(t, i), Partly(t, i + 1));
    }

    method ControlL()
      requires Inv() && View().TakesKeys()
      modifies this`pages, this`screenX, this`screenY, this`saved, this`edits
      ensures Inv() && View() == old(View()).PressKey(Redraw)
    {
      ghost var s, t := View(), View().terms[currTer];
      LiveIsTurn();
      var con := ClearInPlace(Live());
      Draw(con, true);
      UpdateTwice(s, currTer, t.(console := Cleared(t.console)), t.Redrawn());
      PutText(edits[currTer].line);
    }

    /** The key asks for another terminal. */
    ghost predicate Switches(scancode: Byte)
      reads this
    {
      var a := Decode(mods, scancode);
      a.Show? && a.n != currTer
    }

    /** What a key leads to when a tick may or may not come up during wait_slightly. */
    ghost function KeyResult(scancode: Byte, ticked: bool): State
      requires Inv() && View().TakesKeys()
      reads this, pic
    {
      if Switches(scancode) && !ticked then View().(shown := Decode(mods, scancode).n)
      else View().PressKey(Decode(mods, scancode))
    }

    /** KB_handler, entered when the controller serves the keyboard line. ticked says whether the PIT
        raises its line during wait_slightly; a terminal switch breaks the invariant exactly when not. */
    method KbHandler(scancode: Byte, ticked: bool)
      requires Inv() && pic.Serves(KEYBOARD_IRQ, Raised())
      modifies this`pages, this`screenX, this`screenY, this`saved, this`edits, this`mods
      modifies this`frame, this`currTer, this`tickPending
      ensures WellFormed() && (Inv() <==> ticked || !old(Switches(scancode)))
      ensures old(View()).TakesKeys() && View() == old(KeyResult(scancode, ticked))
    {
      KeyboardServedIff();
      if scancode == UP_ARROW_DOWN {
        UpArrow();
      }
      if Held(mods, scancode).Some? {
        HoldKey(Held(mods, scancode).value);
      } else if scancode < 128 {
        KeyDown(scancode, ticked);
      }
    }

    method HoldKey(m: Modifiers)
      requires Inv()
      modifies this`mods
      ensures Inv() && View() == old(View()).PressKey(Hold(m))
    {
      mods := m;
    }

    /** What a key that is not a modifier means, in the handler's order. */
    static lemma KeyMeaning(m: Modifiers, scancode: Byte)
      requires scancode < 128 && Held(m, scancode).None?
      ensures var a, c := Decode(m, scancode), CharacterCode(m, scancode);
              if scancode == UP_ARROW_DOWN then c == NUL
              else if m.ctrl && scancode == L_KEY_DOWN then a == Redraw
              else if m.alt && F1_KEY_DOWN <= scancode <= F3_KEY_DOWN then a == Show(scancode - F1_KEY_DOWN)
              else if c == NUL then a == Ignore
              else a == Type(if c == 8 then Erase else if c == NEWLINE then Enter else Char(c))
    {
    }

    /** A key that is not a modifier goes down; the Up arrow has nothing left to do here. */
    method KeyDown(scancode: Byte, ticked: bool)
      requires Inv() && View().TakesKeys() && scancode < 128 && Held(mods, scancode).None?
      modifies this`pages, this`screenX, this`screenY, this`saved, this`edits
      modifies this`frame, this`currTer, this`tickPending
      ensures WellFormed() && (Inv() <==> ticked || !old(Switches(scancode)))
      ensures View() == if scancode == UP_ARROW_DOWN then old(View()) else old(KeyResult(scancode, ticked))
    {
      var c := CharacterCode(mods, scancode);
      KeyMeaning(mods, scancode);
      if mods.ctrl && scancode == L_KEY_DOWN {
        ControlL();
      } else if mods.alt && F1_KEY_DOWN <= scancode <= F3_KEY_DOWN {
        FunctionKey(scancode - F1_KEY_DOWN, ticked);
      } else if c != NUL {
        CharacterKey(c);
      }
    }

    /** Alt and a function key. */
    method FunctionKey(n: int, ticked: bool)
      requires Inv() && View().TakesKeys() && 0 <= n < NUM_TERMINALS
      modifies this`pages, this`frame, this`currTer, this`tickPending
      ensures WellFormed() && (Inv() <==> ticked || n == old(currTer))
      ensures View() == if ticked || n == old(currTer) then old(View()).PressKey(Show(n)) else old(View()).(shown := n)
    {
      if currTer != n {
        SwitchTer(n, ticked);
      }
    }

    method CharacterKey(c: Byte)
      requires Inv() && View().TakesKeys() && c != NUL && c != CARRIAGE_RETURN
      modifies this`pages, this`screenX, this`screenY, this`saved, this`edits
      ensures Inv()
      ensures View() == old(View()).PressKey(Type(if c == 8 then Erase else if c == NEWLINE then Enter else Char(c)))
    {
      if c == 8 {
        KeyBackspace();
      } else if c == NEWLINE {
        EnterKey();
      } else {
        PrintChar(c);
      }
    }

    method StartRead()
      requires Inv()
      modifies this`edits
      ensures Inv() && View() == old(View()).ReadStarted()
    {
      SetEdit(currProcess, edits[currProcess].(updated := false));
    }

    /** terminal_read's test of the flag and, once it is set, its end: the line is copied out, and
        clear_buffer acts on the displayed terminal. */
    method FinishRead(nbytes: nat) returns (r: ReadResult, bytes: seq<Byte>)
      requires Inv() && nbytes >= 1
      modifies this`edits
      ensures Inv() && View() == old(View()).ReadFinished()
      ensures ReadOutcome(old(View()).terms[currProcess].edit, Min(nbytes, BUF_SIZE), r, bytes)
    {
      r, bytes := ReadOut(edits[currProcess], nbytes);
      if edits[currProcess].updated {
        SetEdit(currTer, edits[currTer].(typed := []));
      }
    }

    /** A scancode arrives: its handler runs if and when the controller serves the line. wait_slightly
        spins longer than a PIT period, so a terminal switch leaves a tick pending. */
    method KeyArrives(scancode: Byte)
      requires Inv()
      modifies this`pages, this`screenX, this`screenY, this`saved, this`edits, this`mods
      modifies this`frame, this`currTer, this`tickPending
      ensures Inv() && View() == old(View()).Keyed(scancode)
    {
      KeyboardServedIff();
      if pic.Serves(KEYBOARD_IRQ, Raised()) {
        KbHandler(scancode, true);
      }
    }

    method TimerFires()
      requires Inv()
      modifies this`tickPending
      ensures Inv() && View() == old(View()).(pending := true)
    {
      tickPending := true;
    }

    method Apply(e: Event)
      requires Inv() && booted[currProcess]
      modifies this, pic
      ensures Inv() && booted[currProcess] && View() == old(View()).Step(e)
    {
      match e
      case Timer => TimerFires();
      case Tick(banner) => TakeTick(banner);
      case Write(c) => Putc(c);
      case Key(scancode) => KeyArrives(scancode);
      case StartRead => StartRead();
      case FinishRead => var _, _ := FinishRead(BUF_SIZE);
    }

    /** Every run from the first tick on is a run of the three independent terminals. */
    method Run(events: seq<Event>)
      requires WellFormed() && View().started == [false, false, false]
      requires events != [] && events[0].Tick?
      modifies this, pic
      ensures Inv() && View() == RunAll(old(View()), events)
    {
      ghost var s := View();
      TakeTick(events[0].banner);
      assert events[..1][..0] == [];
      var i := 1;
      while i < |events|
        invariant 1 <= i <= |events| && Inv() && booted[currProcess] && View() == RunAll(s, events[..i])
      {
        OneMore(s, events, i);
        Apply(events[i]);
        i := i + 1;
      }
      assert events[..i] == events;
    }

    /** Terminal isolation on the machine: after every run from the first tick on, the page, the saved
        cursor and the buffers of each terminal are the work of the operations addressed to it. */
    method RunIsolated(events: seq<Event>)
      requires WellFormed() && View().started == [false, false, false]
      requires events != [] && events[0].Tick?
      modifies this, pic
      ensures Inv()
      ensures forall t :: 0 <= t < NUM_TERMINALS ==>
                TermOf(t) == ActAll(old(View()).terms[t], OpsFor(old(View()), events, t))
    {
      ghost var s := View();
      Run(events);
      TerminalsAreIndependent(s, events, 0);
      TerminalsAreIndependent(s, events, 1);
      TerminalsAreIndependent(s, events, 2);
    }

    /** Reading on the machine: after every run from the first tick on, the program whose turn it is and that
        waits in terminal_read gets what the keys pressed on its terminal say. */
    method RunThenRead(events: seq<Event>, nbytes: nat) returns (r: ReadResult, bytes: seq<Byte>)
      requires WellFormed() && View().started == [false, false, false]
      requires events != [] && events[0].Tick? && nbytes >= 1
      modifies this, pic
      ensures Inv() && currProcess == RunAll(old(View()), events).turn
      ensures ReaderGets(old(View()).terms[currProcess].edit, OpsFor(old(View()), events, currProcess),
                         Min(nbytes, BUF_SIZE), r, bytes)
    {
      ghost var s := View();
      Run(events);
      ghost var now, t := View().terms[currProcess].edit, currProcess;
      ReadAcrossRuns(s, events, t);
      r, bytes := FinishRead(nbytes);
      WaitingIsRead(s.terms[t].edit, now, OpsFor(s, events, t), Min(nbytes, BUF_SIZE), r, bytes);
    }
  }

  lemma OneMore(s: State, events: seq<Event>, i: nat)
    requires s.Valid() && i < |events|
    ensures RunAll(s, events[..i + 1]) == RunAll(s, events[..i]).Step(events[i])
  {
    assert events[..i + 1][..i] == events[..i];
  }
}
