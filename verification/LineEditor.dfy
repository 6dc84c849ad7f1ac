/** The per-terminal keyboard buffers of keyboard.c and the line-at-a-time terminal_read. */
module LineEditor {
  import opened Bytes
  import Memory
  import Strings

  const BUF_SIZE := 128

  /** What a key does to the line being edited. */
  datatype Key = Char(c: Byte) | Erase | Enter | Recall {
    /** Characters that reach print_char are neither NUL nor one of the keys handled apart. */
    predicate Valid() {
      Char? ==> Typable(c)
    }
  }

  predicate Typable(c: Byte) {
    c != NUL && c != 8 && c != NEWLINE && c != CARRIAGE_RETURN
  }

  ghost predicate ValidLine(s: seq<Byte>) {
    |s| < BUF_SIZE && forall i :: 0 <= i < |s| ==> Typable(s[i])
  }

  /** The reference editor: the line being typed, the line last entered, the line waiting to be
      read, and the flag and byte count left for terminal_read. */
  datatype Edit = Edit(line: seq<Byte>, last: seq<Byte>, typed: seq<Byte>, updated: bool, written: int) {
    ghost predicate Valid() {
      ValidLine(line) && ValidLine(last) && ValidLine(typed)
    }

    function Press(k: Key): (e: Edit)
      requires Valid() && k.Valid()
      ensures e.Valid()
    {
      match k
      case Char(c) => if |line| >= BUF_SIZE - 1 then this else this.(line := line + [c])
      case Erase => if line == [] then this else this.(line := line[..|line| - 1])
      case Enter => Edit([], line, line, true, |line| + 1)
      case Recall => this.(line := last)
    }
  }

  ghost predicate ValidKeys(keys: seq<Key>) {
    forall i :: 0 <= i < |keys| ==> keys[i].Valid()
  }

  function PressAll(e: Edit, keys: seq<Key>): (r: Edit)
    requires e.Valid() && ValidKeys(keys)
    ensures r.Valid()
  {
    if keys == [] then e else PressAll(e, keys[..|keys| - 1]).Press(keys[|keys| - 1])
  }

  /** A line in a 128-byte buffer, followed only by zeros. */
  function Zeroed(s: seq<Byte>): (r: seq<Byte>)
    requires |s| <= BUF_SIZE
    ensures |r| == BUF_SIZE
  {
    seq(BUF_SIZE, i requires 0 <= i < BUF_SIZE => if i < |s| then s[i] else NUL)
  }

  lemma ZeroedString(s: seq<Byte>)
    requires ValidLine(s)
    ensures CStr(Zeroed(s)) == s
  {
    assert Zeroed(s)[..|s|] == s;
    CStrUnique(Zeroed(s), |s|);
  }

  /** enter_key's first loop. */
  method ZeroTail(buf: array<Byte>, from: nat)
    requires buf.Length == BUF_SIZE && from <= BUF_SIZE
    modifies buf
    ensures buf[..] == Zeroed(old(buf[..from]))
  {
    var i := from;
    while i < BUF_SIZE
      invariant from <= i <= BUF_SIZE
      invariant forall j :: 0 <= j < BUF_SIZE ==> buf[j] == if from <= j < i then NUL else old(buf[j])
    {
      buf[i] := NUL;
      i := i + 1;
    }
  }

  /** enter_key's second loop: the typed line goes to both other buffers and is cleared. */
  method MoveLine(typing: array<Byte>, typed: array<Byte>, history: array<Byte>)
    requires typing.Length == typed.Length == history.Length == BUF_SIZE
    requires typing != typed && typing != history && typed != history
    modifies typing, typed, history
    ensures typed[..] == old(typing[..]) && history[..] == old(typing[..]) && typing[..] == Zeroed([])
  {
    var i := 0;
    while i < BUF_SIZE
      invariant 0 <= i <= BUF_SIZE
      invariant forall j :: 0 <= j < i ==> typed[j] == history[j] == old(typing[j])
      invariant forall j :: 0 <= j < BUF_SIZE ==> typing[j] == if j < i then NUL else old(typing[j])
    {
      typed[i] := typing[i];
      history[i] := typing[i];
      typing[i] := NUL;
      i := i + 1;
    }
  }

  /** The copy loop of the Up-arrow branch. */
  method CopyLine(dest: array<Byte>, src: array<Byte>)
    requires dest.Length == src.Length == BUF_SIZE && dest != src
    modifies dest
    ensures dest[..] == src[..]
  {
    var i := 0;
    while i < BUF_SIZE
      invariant 0 <= i <= BUF_SIZE && forall j :: 0 <= j < i ==> dest[j] == src[j]
    {
      dest[i] := src[i];
      i := i + 1;
    }
  }

  method LineBuffer(line: seq<Byte>) returns (buf: array<Byte>)
    requires |line| <= BUF_SIZE
    ensures fresh(buf) && buf.Length == BUF_SIZE && buf[..] == Zeroed(line)
  {
    buf := new Byte[BUF_SIZE](i requires 0 <= i < BUF_SIZE => if i < |line| then line[i] else NUL);
  }

  /** The in-place code at work on buffers given by their contents. */
  method PressInPlace(e: Edit, k: Key) returns (r: Edit)
    requires e.Valid() && k.Valid()
    ensures r == e.Press(k)
  {
    var buffers := new TerminalState(e);
    buffers.Press(k);
    r := buffers.Result();
  }

  /** The buffers of terminal_state_t, updated in place. */
  class TerminalState {
    const typing: array<Byte>
    const typed: array<Byte>
    const history: array<Byte>
    var bufferUpdated: bool
    var writtenBytes: int
    var bufLen: int

    ghost predicate Valid()
      reads this, typing, typed, history
    {
      && typing.Length == typed.Length == history.Length == BUF_SIZE
      && typing != typed && typing != history && typed != history
      && 0 <= bufLen < BUF_SIZE
      && View().Valid()
      && typing[..] == Zeroed(View().line) && typed[..] == Zeroed(View().typed) && history[..] == Zeroed(View().last)
    }

    ghost function View(): Edit
      requires 0 <= bufLen <= typing.Length
      reads this, typing, typed, history
    {
      Edit(typing[..bufLen], CStr(history[..]), CStr(typed[..]), bufferUpdated, writtenBytes)
    }

    constructor (e: Edit)
      requires e.Valid()
      ensures Valid() && View() == e
      ensures fresh(typing) && fresh(typed) && fresh(history)
    {
      var a := LineBuffer(e.line);
      var b := LineBuffer(e.typed);
      var c := LineBuffer(e.last);
      typing, typed, history := a, b, c;
      bufferUpdated, writtenBytes, bufLen := e.updated, e.written, |e.line|;
      new;
      ZeroedString(e.typed);
      ZeroedString(e.last);
      assert typing[..bufLen] == e.line;
    }

    method Result() returns (r: Edit)
      requires Valid()
      ensures r == View()
    {
      r := Edit(typing[..bufLen], CStr(history[..]), CStr(typed[..]), bufferUpdated, writtenBytes);
    }

    method PrintChar(c: Byte)
      requires Valid() && Typable(c)
      modifies this, typing
      ensures Valid() && View() == old(View()).Press(Char(c))
    {
      if bufLen >= BUF_SIZE - 1 {
        return;
      }
      typing[bufLen] := c;
      bufLen := bufLen + 1;
      assert typing[..bufLen] == old(typing[..bufLen]) + [c];
    }

    method Backspace()
      requires Valid()
      modifies this, typing
      ensures Valid() && View() == old(View()).Press(Erase)
    {
      if bufLen != 0 {
        bufLen := bufLen - 1;
        typing[bufLen] := NUL;
        assert typing[..bufLen] == old(typing[..bufLen])[..bufLen];
      }
    }

    method EnterKey()
      requires Valid()
      modifies this, typing, typed, history
      ensures Valid() && View() == old(View()).Press(Enter)
    {
      ghost var line := typing[..bufLen];
      ZeroTail(typing, bufLen);
      MoveLine(typing, typed, history);
      writtenBytes := bufLen + 1;
      bufLen := 0;
      bufferUpdated := true;
      ZeroedString(line);
    }

    /** The Up-arrow branch of KB_handler: erase what is typed, then take over the history buffer. */
    method RecallHistory()
      requires Valid()
      modifies this, typing
      ensures Valid() && View() == old(View()).Press(Recall)
    {
      ghost var before := View();
      var n := bufLen;
      var i := 0;
      while i < n
        invariant 0 <= i <= n && bufLen == n - i && Valid()
        invariant View() == before.(line := before.line[..n - i])
      {
        Backspace();
        i := i + 1;
      }
      CopyLine(typing, history);
      ZeroedString(before.last);
      assert history[|before.last|] == NUL;
      bufLen := Strings.Strlen(history[..]);
      assert typing[..bufLen] == history[..][..bufLen];
    }

    method Press(k: Key)
      requires Valid() && k.Valid()
      modifies this, typing, typed, history
      ensures Valid() && View() == old(View()).Press(k)
    {
      match k
      case Char(c) => PrintChar(c);
      case Erase => Backspace();
      case Enter => EnterKey();
      case Recall => RecallHistory();
    }

    /** All keystrokes of one burst. */
    method PressBurst(keys: seq<Key>)
      requires Valid() && ValidKeys(keys)
      modifies this, typing, typed, history
      ensures Valid() && View() == PressAll(old(View()), keys)
    {
      var i := 0;
      while i < |keys|
        invariant 0 <= i <= |keys| && Valid()
        invariant View() == PressAll(old(View()), keys[..i])
      {
        Press(keys[i]);
        assert keys[..i + 1][..i] == keys[..i];
        i := i + 1;
      }
      assert keys[..i] == keys;
    }

    /** terminal_read. Each burst holds the keys that arrive between two tests of the flag; if the
        bursts end first the caller is still waiting. clear_buffer acts on the displayed terminal, so the
        line stays if that is another one. */
    method TerminalRead(buf: array?<Byte>, nbytes: int, bursts: seq<seq<Key>>, shown: bool) returns (r: ReadResult)
      requires Valid() && nbytes >= 1 && forall i :: 0 <= i < |bursts| ==> ValidKeys(bursts[i])
      requires buf != null ==> buf.Length >= Min(nbytes, BUF_SIZE)
      requires buf != typing && buf != typed && buf != history
      modifies this, typing, typed, history, buf
      ensures Valid()
      ensures buf == null ==> r == Failed && View() == old(View())
      ensures var e, n := Poll(old(View()).(updated := false), bursts), Min(nbytes, BUF_SIZE);
              buf != null ==>
                if e.updated
                then
                  && r == Line(e.written) && View() == (if shown then e.(typed := []) else e)
                  && HoldsLine(buf[..n], e.typed, n) && buf[n..] == old(buf[n..])
                else r == Waiting && View() == e && buf[..] == old(buf[..])
    {
      if buf == null {
        return Failed;
      }
      var n := if nbytes > BUF_SIZE then BUF_SIZE else nbytes;
      WaitForEnter(bursts);
      if !bufferUpdated {
        return Waiting;
      }
      Deliver(buf, n, shown);
      r := Line(writtenBytes);
    }

    /** The wait loop: the flag is reset and then tested after every burst of keys. */
    method WaitForEnter(bursts: seq<seq<Key>>)
      requires Valid() && forall i :: 0 <= i < |bursts| ==> ValidKeys(bursts[i])
      modifies this, typing, typed, history
      ensures Valid() && View() == Poll(old(View()).(updated := false), bursts)
    {
      bufferUpdated := false;
      ghost var start := View();
      var i := 0;
      while !bufferUpdated && i < |bursts|
        invariant 0 <= i <= |bursts| && Valid()
        invariant Poll(start, bursts) == Poll(View(), bursts[i..])
      {
        assert bursts[i..][1..] == bursts[i + 1..];
        PressBurst(bursts[i]);
        i := i + 1;
      }
    }

    /** The tail of terminal_read: copy out, clear the typed buffer. */
    method Deliver(buf: array<Byte>, n: nat, shown: bool)
      requires Valid() && 1 <= n <= BUF_SIZE && buf.Length >= n
      requires buf != typing && buf != typed && buf != history
      modifies typed, buf
      ensures Valid() && View() == if shown then old(View()).(typed := []) else old(View())
      ensures buf[..] == Delivered(old(View()).typed, n) + old(buf[n..])
    {
      var line := FinalBuffer(typed, n, View().typed);
      if shown {
        ClearTyped();
      }
      Memory.MemcpyTo(buf, line);
    }

    /** clear_buffer on this terminal. */
    method ClearTyped()
      requires Valid()
      modifies typed
      ensures Valid() && View() == old(View()).(typed := [])
    {
      ZeroTail(typed, 0);
      ZeroedString([]);
      assert typed[..0] == [];
    }
  }

  /** terminal_read's temporary copy, cut to n bytes, with its first NUL turned into a newline. */
  method FinalBuffer(typed: array<Byte>, n: nat, ghost line: seq<Byte>) returns (out: seq<Byte>)
    requires 1 <= n <= BUF_SIZE && ValidLine(line) && typed[..] == Zeroed(line)
    ensures out == Delivered(line, n)
  {
    var fin := new Byte[n](i requires 0 <= i < n && typed.Length == BUF_SIZE reads typed => typed[i]);
    fin[n - 1] := NUL;
    ghost var cut := Min(|line|, n - 1);
    var i := 0;
    while fin[i] != NUL
      invariant 0 <= i <= cut
      invariant forall j :: 0 <= j < n ==> fin[j] == if j < cut then line[j] else NUL
      decreases n - i
    {
      i := i + 1;
    }
    fin[i] := NEWLINE;
    out := fin[..];
  }

  datatype ReadResult = Failed | Waiting | Line(count: int)

  /** n bytes that hold a line cut to n - 1 characters, then a newline, then zeros. */
  ghost predicate HoldsLine(bytes: seq<Byte>, line: seq<Byte>, n: nat)
    requires n >= 1
  {
    var m := Min(|line|, n - 1);
    && |bytes| == n && bytes[..m] == line[..m] && bytes[m] == NEWLINE
    && forall j :: m < j < n ==> bytes[j] == NUL
  }

  /** The outcome of a test of the flag by a reader of n bytes. */
  ghost predicate ReadOutcome(e: Edit, n: nat, r: ReadResult, bytes: seq<Byte>)
    requires n >= 1
  {
    if e.updated then r == Line(e.written) && HoldsLine(bytes, e.typed, n) && bytes == Delivered(e.typed, n)
    else r == Waiting && bytes == []
  }

  method ReadOut(e: Edit, nbytes: nat) returns (r: ReadResult, bytes: seq<Byte>)
    requires e.Valid() && nbytes >= 1
    ensures ReadOutcome(e, Min(nbytes, BUF_SIZE), r, bytes)
  {
    if !e.updated {
      return Waiting, [];
    }
    r := Line(e.written);
    var typed := LineBuffer(e.typed);
    bytes := FinalBuffer(typed, if nbytes > BUF_SIZE then BUF_SIZE else nbytes, e.typed);
  }

  /** What a read of n bytes delivers: the line cut to n - 1 characters, a newline, and zeros. */
  function Delivered(line: seq<Byte>, n: nat): (r: seq<Byte>)
    requires 1 <= n
    ensures HoldsLine(r, line, n)
  {
    seq(n, i requires 0 <= i < n => DeliveredByte(line, Min(|line|, n - 1), i))
  }

  function DeliveredByte(line: seq<Byte>, cut: int, i: nat): Byte
    requires cut <= |line|
  {
    if i < cut then line[i] else if i == cut then NEWLINE else NUL
  }

  /** The editor when the flag is first seen set, or after all bursts. */
  ghost function Poll(e: Edit, bursts: seq<seq<Key>>): (r: Edit)
    requires e.Valid() && forall i :: 0 <= i < |bursts| ==> ValidKeys(bursts[i])
    ensures r.Valid()
    decreases |bursts|
  {
    if e.updated || bursts == [] then e else Poll(PressAll(e, bursts[0]), bursts[1..])
  }

  /** The position of the last Enter, or -1. */
  function LastEnter(keys: seq<Key>): (i: int)
    ensures -1 <= i < |keys| && (i >= 0 ==> keys[i] == Enter)
    ensures forall j :: i < j < |keys| ==> keys[j] != Enter
  {
    if keys == [] then -1 else if keys[|keys| - 1] == Enter then |keys| - 1 else LastEnter(keys[..|keys| - 1])
  }

  /** Keys leave for the reader exactly the line as it stood at the last Enter, with its length. */
  lemma {:induction false} EnteredLine(e: Edit, keys: seq<Key>)
    requires e.Valid() && ValidKeys(keys)
    ensures var i, r := LastEnter(keys), PressAll(e, keys);
            if i == -1 then r == e.(line := r.line)
            else r.updated && r.typed == r.last == PressAll(e, keys[..i]).line && r.written == |r.typed| + 1
  {
    if keys != [] {
      var front, k := keys[..|keys| - 1], keys[|keys| - 1];
      if k != Enter {
        EnteredLine(e, front);
        OnlyLine(PressAll(e, front), k);
        var i := LastEnter(front);
        if i >= 0 { assert keys[..i] == front[..i]; }
      }
    }
  }

  /** Enter starts an empty line, and Up-arrow brings back the line as it stood at the last Enter. */
  lemma EnterThenRecall(e: Edit, keys: seq<Key>)
    requires e.Valid() && ValidKeys(keys)
    ensures ValidKeys(keys + [Enter]) && ValidKeys(keys + [Recall])
    ensures PressAll(e, keys + [Enter]).line == [] && PressAll(e, keys + [Enter]).last == PressAll(e, keys).line
    ensures var i := LastEnter(keys);
            PressAll(e, keys + [Recall]).line == if i == -1 then e.last else PressAll(e, keys[..i]).line
  {
    EnteredLine(e, keys);
    assert (keys + [Enter])[..|keys|] == keys && (keys + [Recall])[..|keys|] == keys;
  }

  lemma OnlyLine(e: Edit, k: Key)
    requires e.Valid() && k.Valid() && k != Enter
    ensures e.Press(k) == e.(line := e.Press(k).line)
  {
  }

  /** The keys up to the Enter that wakes a reader: all bursts before the first with an Enter, and
      that burst up to its last Enter. */
  function KeysToWake(bursts: seq<seq<Key>>): Option<seq<Key>> {
    if bursts == [] then None
    else if LastEnter(bursts[0]) >= 0 then Some(bursts[0][..LastEnter(bursts[0])])
    else match KeysToWake(bursts[1..])
         case None => None
         case Some(keys) => Some(bursts[0] + keys)
  }

  /** A waiting read is woken exactly when an Enter arrives, and then delivers the line the reference
      editor holds at that Enter. */
  lemma {:induction false} ReadDeliversEntered(e: Edit, bursts: seq<seq<Key>>)
    requires e.Valid() && !e.updated && forall i :: 0 <= i < |bursts| ==> ValidKeys(bursts[i])
    ensures var r, wake := Poll(e, bursts), KeysToWake(bursts);
            match wake
            case None => !r.updated
            case Some(keys) =>
              && ValidKeys(keys) && r.updated
              && r.typed == PressAll(e, keys).line && r.written == |r.typed| + 1
    decreases |bursts|
  {
    if bursts != [] {
      EnteredLine(e, bursts[0]);
      if LastEnter(bursts[0]) == -1 {
        ReadDeliversEntered(PressAll(e, bursts[0]), bursts[1..]);
        var wake := KeysToWake(bursts[1..]);
        if wake.Some? { PressConcat(e, bursts[0], wake.value); }
      } else {
        assert bursts[0][..LastEnter(bursts[0])] <= bursts[0];
      }
    }
  }

  lemma {:induction false} PressConcat(e: Edit, a: seq<Key>, b: seq<Key>)
    requires e.Valid() && ValidKeys(a) && ValidKeys(b)
    ensures PressAll(e, a + b) == PressAll(PressAll(e, a), b)
    decreases |b|
  {
    if b == [] {
      assert a + b == a;
    } else {
      PressConcat(e, a, b[..|b| - 1]);
      assert (a + b)[..|a + b| - 1] == a + b[..|b| - 1];
    }
  }

  /** For example, three characters read with two bytes: the count is 4, and two bytes were delivered. */
  lemma CountTooHigh()
    ensures Edit([108, 115, 33], [], [], false, 0).Press(Enter).written == 4
    ensures Delivered([108, 115, 33], 2) == [108, NEWLINE]
  {
  }

  /** The count terminal_read returns is the length of what it delivered, newline included, exactly
      when the line fits; otherwise it is larger. */
  lemma CountMatches(line: seq<Byte>, n: nat, p: nat)
    requires ValidLine(line) && 1 <= n && p < n && Delivered(line, n)[p] == NEWLINE
    ensures p + 1 == |line| + 1 <==> |line| < n
    ensures |line| >= n ==> |line| + 1 > n
  {
    assert forall i :: 0 <= i < |line| ==> line[i] != NEWLINE;
  }
}
