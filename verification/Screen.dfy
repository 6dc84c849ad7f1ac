/** The text console of lib.c: putc, scroll_up, screen_backspace and clear on one 4096-byte video
    page, whose first 4000 bytes are 25 x 80 cells of a character and an attribute. */
module Screen {
  import opened Bytes

  const COLS := 80
  const ROWS := 25
  const ATTRIB: Byte := 7
  const PAGE := 4096
  const SCREEN_BYTES := 4000

  /** A video page and the cursor on it. Column 80 means that the next character wraps. */
  datatype Console = Console(mem: seq<Byte>, x: int, y: int) {
    ghost predicate Valid() {
      |mem| == PAGE && 0 <= x <= COLS && 0 <= y < ROWS
    }

    /** Cursor position in reading order; (80, y) and (0, y + 1) coincide. */
    function Linear(): int {
      COLS * y + x
    }
  }

  predicate IsNewline(c: Byte) {
    c == NEWLINE || c == CARRIAGE_RETURN
  }

  function BlankByte(i: int): Byte {
    if i % 2 == 0 then SPACE else ATTRIB
  }

  /** The page moved up by k rows, blank rows entering at the bottom. */
  function ScrollBy(m: seq<Byte>, k: nat): seq<Byte>
    requires |m| == PAGE
  {
    seq(PAGE, i requires 0 <= i < PAGE =>
      if i >= SCREEN_BYTES then m[i] else if i + 160 * k < SCREEN_BYTES then m[i + 160 * k] else BlankByte(i))
  }

  /** The page with text stored from cell p on. */
  function WriteCells(m: seq<Byte>, p: nat, text: seq<Byte>): seq<Byte>
    requires |m| == PAGE && p + |text| <= COLS * ROWS
  {
    seq(PAGE, i requires 0 <= i < PAGE =>
      if 2 * p <= i < 2 * (p + |text|) then (if i % 2 == 0 then text[i / 2 - p] else ATTRIB) else m[i])
  }

  /** The page with n cells from p on blanked. */
  function BlankCells(m: seq<Byte>, p: nat, n: nat): seq<Byte>
    requires |m| == PAGE && p + n <= COLS * ROWS
  {
    seq(PAGE, i requires 0 <= i < PAGE => if 2 * p <= i < 2 * (p + n) then BlankByte(i) else m[i])
  }

  function LineFeed(s: Console): (r: Console)
    requires s.Valid()
    ensures r.Valid()
  {
    if s.y + 1 == ROWS then Console(ScrollBy(s.mem, 1), 0, s.y) else Console(s.mem, 0, s.y + 1)
  }

  function Put(s: Console, c: Byte): (r: Console)
    requires s.Valid()
    ensures r.Valid() && r.mem[SCREEN_BYTES..] == s.mem[SCREEN_BYTES..]
  {
    if IsNewline(c) then LineFeed(s) else
    var w := if s.x == COLS then LineFeed(s) else s;
    Console(WriteCells(w.mem, w.Linear(), [c]), w.x + 1, w.y)
  }

  function PutAll(s: Console, text: seq<Byte>): (r: Console)
    requires s.Valid()
    ensures r.Valid() && r.mem[SCREEN_BYTES..] == s.mem[SCREEN_BYTES..]
  {
    if text == [] then s else Put(PutAll(s, text[..|text| - 1]), text[|text| - 1])
  }

  function Backspace(s: Console): (r: Console)
    requires s.Valid()
    ensures r.Valid() && r.mem[SCREEN_BYTES..] == s.mem[SCREEN_BYTES..]
  {
    if s.x == 0 && s.y == 0 then s else
    var x, y := if s.x == 0 then COLS - 1 else s.x - 1, if s.x == 0 then s.y - 1 else s.y;
    Console(BlankCells(s.mem, COLS * y + x, 1), x, y)
  }

  function BackspaceAll(s: Console, n: nat): (r: Console)
    requires s.Valid()
    ensures r.Valid() && r.mem[SCREEN_BYTES..] == s.mem[SCREEN_BYTES..]
    decreases n
  {
    if n == 0 then s else BackspaceAll(Backspace(s), n - 1)
  }

  lemma {:induction false} BackspaceMore(s: Console, n: nat)
    requires s.Valid()
    ensures BackspaceAll(s, n + 1) == Backspace(BackspaceAll(s, n))
    decreases n
  {
    if n > 0 { BackspaceMore(Backspace(s), n - 1); }
  }

  /** clear() and reset_cursor(). */
  function Cleared(s: Console): (r: Console)
    requires s.Valid()
    ensures r.Valid()
  {
    Console(BlankCells(s.mem, 0, COLS * ROWS), 0, 0)
  }

  // ---- The in-place code ----

  class VideoConsole {
    const video: array<Byte>
    var screenX: int
    var screenY: int

    ghost predicate Valid()
      reads this, video
    {
      View().Valid()
    }

    ghost function View(): Console
      reads this, video
    {
      Console(video[..], screenX, screenY)
    }

    constructor (page: array<Byte>, x: int, y: int)
      requires Console(page[..], x, y).Valid()
      ensures Valid() && video == page && View() == Console(page[..], x, y)
    {
      video := page;
      screenX, screenY := x, y;
    }

    method Result() returns (r: Console)
      ensures r == View()
    {
      r := Console(video[..], screenX, screenY);
    }

    method Clear()
      requires Valid()
      modifies video
      ensures View() == Console(BlankCells(old(video[..]), 0, COLS * ROWS), old(screenX), old(screenY))
    {
      var i := 0;
      while i < ROWS * COLS
        invariant 0 <= i <= ROWS * COLS && video[..] == BlankCells(old(video[..]), 0, i)
      {
        video[2 * i] := SPACE;
        video[2 * i + 1] := ATTRIB;
        i := i + 1;
      }
    }

    /** The page with its first k cells taken from the row below. */
    static ghost function Shifted(m: seq<Byte>, k: nat): seq<Byte>
      requires |m| == PAGE && k <= COLS * (ROWS - 1)
    {
      seq(PAGE, i requires 0 <= i < PAGE => if i < 2 * k then m[i + 160] else m[i])
    }

    /** The inner loop of scroll_up: row y takes the contents of row y + 1. */
    method ShiftRow(y: nat, ghost was: seq<Byte>)
      requires Valid() && y < ROWS - 1 && |was| == PAGE && video[..] == Shifted(was, COLS * y)
      modifies video
      ensures video[..] == Shifted(was, COLS * y + COLS)
    {
      var x := 0;
      while x < COLS
        invariant 0 <= x <= COLS && video[..] == Shifted(was, COLS * y + x)
      {
        video[2 * (COLS * y + x)] := video[2 * (COLS * (y + 1) + x)];
        video[2 * (COLS * y + x) + 1] := video[2 * (COLS * (y + 1) + x) + 1];
        x := x + 1;
      }
    }

    /** The last loop of scroll_up: the bottom row is blanked. */
    method BlankRow(y: nat)
      requires Valid() && y < ROWS
      modifies video
      ensures video[..] == BlankCells(old(video[..]), COLS * y, COLS)
    {
      var x := 0;
      while x < COLS
        invariant 0 <= x <= COLS && video[..] == BlankCells(old(video[..]), COLS * y, x)
      {
        video[2 * (COLS * y + x)] := SPACE;
        video[2 * (COLS * y + x) + 1] := ATTRIB;
        x := x + 1;
      }
    }

    method ScrollUp()
      requires Valid()
      modifies video
      ensures View() == Console(ScrollBy(old(video[..]), 1), old(screenX), old(screenY))
    {
      ghost var was := video[..];
      var y := 0;
      while y < ROWS - 1
        invariant 0 <= y <= ROWS - 1 && video[..] == Shifted(was, COLS * y)
      {
        ShiftRow(y, was);
        y := y + 1;
      }
      BlankRow(ROWS - 1);
    }

    method Putc(c: Byte)
      requires Valid()
      modifies this, video
      ensures Valid() && View() == Put(old(View()), c)
    {
      if c == NEWLINE || c == CARRIAGE_RETURN {
        NextRow();
      } else {
        if screenX == COLS {
          NextRow();
        }
        ghost var m := video[..];
        var cell := COLS * screenY + screenX;
        video[2 * cell] := c;
        video[2 * cell + 1] := ATTRIB;
        assert video[..] == WriteCells(m, cell, [c]);
        screenX := screenX + 1;
      }
    }

    /** The row step both branches of putc share. */
    method NextRow()
      requires Valid()
      modifies this, video
      ensures Valid() && View() == LineFeed(old(View()))
    {
      screenY := screenY + 1;
      if screenY == ROWS {
        screenY := screenY - 1;
        ScrollUp();
      }
      screenX := 0;
    }

    method ScreenBackspace()
      requires Valid()
      modifies this, video
      ensures Valid() && View() == Backspace(old(View()))
    {
      if screenX == 0 {
        if screenY == 0 {
          return;
        }
        screenY := screenY - 1;
        screenX := COLS;
      }
      screenX := screenX - 1;
      var cell := COLS * screenY + screenX;
      video[2 * cell] := SPACE;
      video[2 * cell + 1] := ATTRIB;
    }
  }

  /** The in-place code at work on a page given by its contents. */
  method Attach(s: Console) returns (v: VideoConsole)
    requires s.Valid()
    ensures fresh(v) && fresh(v.video) && v.Valid() && v.View() == s
  {
    var page := new Byte[PAGE](i requires 0 <= i < PAGE => s.mem[i]);
    assert page[..] == s.mem;
    v := new VideoConsole(page, s.x, s.y);
  }

  method PutInPlace(s: Console, c: Byte) returns (r: Console)
    requires s.Valid()
    ensures r == Put(s, c)
  {
    var v := Attach(s);
    v.Putc(c);
    r := v.Result();
  }

  method BackspaceInPlace(s: Console) returns (r: Console)
    requires s.Valid()
    ensures r == Backspace(s)
  {
    var v := Attach(s);
    v.ScreenBackspace();
    r := v.Result();
  }

  /** clear and reset_cursor */
  method ClearInPlace(s: Console) returns (r: Console)
    requires s.Valid()
    ensures r == Cleared(s)
  {
    var v := Attach(s);
    v.Clear();
    v.screenX, v.screenY := 0, 0;
    r := v.Result();
  }

  // ---- Rendering: the screen is the tail of the text's layout ----

  /** Appends one character to a layout: a newline opens a row, and so does a character that finds
      the last row full. */
  function AddChar(rows: seq<seq<Byte>>, c: Byte): (r: seq<seq<Byte>>)
    requires rows != []
    ensures r != []
  {
    var n := |rows| - 1;
    if IsNewline(c) then rows + [[]]
    else if |rows[n]| == COLS then rows + [[c]]
    else rows[..n] + [rows[n] + [c]]
  }

  /** The lazily wrapped layout of a text as rows of at most 80 characters. */
  function Layout(text: seq<Byte>): (r: seq<seq<Byte>>)
    ensures r != []
  {
    if text == [] then [[]] else AddChar(Layout(text[..|text| - 1]), text[|text| - 1])
  }

  /** The character of visible cell (r, j) when the last 25 rows are shown, blank where there is none. */
  function VisibleChar(rows: seq<seq<Byte>>, r: nat, j: nat): Byte {
    var row := Max(0, |rows| - ROWS) + r;
    if row < |rows| && j < |rows[row]| then rows[row][j] else SPACE
  }

  /** The two bytes of cell (r, j). */
  function Cell(m: seq<Byte>, r: nat, j: nat): (Byte, Byte)
    requires |m| == PAGE && r < ROWS && j < COLS
  {
    (m[2 * (COLS * r + j)], m[2 * (COLS * r + j) + 1])
  }

  /** The console displays the last 25 rows, padded with blanks, with the cursor at their end. */
  ghost predicate Shows(s: Console, rows: seq<seq<Byte>>) {
    && s.Valid() && rows != [] && |rows[|rows| - 1]| <= COLS
    && s.x == |rows[|rows| - 1]| && s.y == |rows| - 1 - Max(0, |rows| - ROWS)
    && forall r: nat, j: nat | r < ROWS && j < COLS :: Cell(s.mem, r, j) == (VisibleChar(rows, r, j), ATTRIB)
  }

  lemma ShowsLineFeed(s: Console, rows: seq<seq<Byte>>)
    requires Shows(s, rows)
    ensures Shows(LineFeed(s), rows + [[]])
  {
    forall r: nat, j: nat | r < ROWS && j < COLS
      ensures Cell(LineFeed(s).mem, r, j) == (VisibleChar(rows + [[]], r, j), ATTRIB)
    {
      if s.y + 1 == ROWS && r + 1 < ROWS {
        assert Cell(LineFeed(s).mem, r, j) == Cell(s.mem, r + 1, j);
      } else if s.y + 1 < ROWS {
        assert Cell(LineFeed(s).mem, r, j) == Cell(s.mem, r, j);
      }
    }
  }

  lemma ShowsWrite(s: Console, rows: seq<seq<Byte>>, c: Byte)
    requires Shows(s, rows) && s.x < COLS && !IsNewline(c)
    ensures Shows(Console(WriteCells(s.mem, s.Linear(), [c]), s.x + 1, s.y), AddChar(rows, c))
  {
    var m := WriteCells(s.mem, s.Linear(), [c]);
    forall r: nat, j: nat | r < ROWS && j < COLS
      ensures Cell(m, r, j) == (VisibleChar(AddChar(rows, c), r, j), ATTRIB)
    {
      assert Cell(s.mem, r, j) == (VisibleChar(rows, r, j), ATTRIB);
      OneCell(s, c, r, j);
    }
  }

  lemma OneCell(s: Console, c: Byte, r: nat, j: nat)
    requires s.Valid() && s.x < COLS && r < ROWS && j < COLS
    ensures Cell(WriteCells(s.mem, s.Linear(), [c]), r, j)
         == if r == s.y && j == s.x then (c, ATTRIB) else Cell(s.mem, r, j)
  {
    assert COLS * r + j == s.Linear() <==> r == s.y && j == s.x;
  }

  lemma ShowsPutc(s: Console, rows: seq<seq<Byte>>, c: Byte)
    requires Shows(s, rows)
    ensures Shows(Put(s, c), AddChar(rows, c))
  {
    if IsNewline(c) {
      ShowsLineFeed(s, rows);
    } else if s.x == COLS {
      ShowsLineFeed(s, rows);
      ShowsWrite(LineFeed(s), rows + [[]], c);
      assert (rows + [[]])[..|rows|] == rows && [] + [c] == [c];
    } else {
      ShowsWrite(s, rows, c);
    }
  }

  /** Writing any text on a cleared screen shows the last 25 rows of its layout. */
  lemma {:induction false} Rendering(s: Console, text: seq<Byte>)
    requires s.Valid()
    ensures Shows(PutAll(Cleared(s), text), Layout(text))
  {
    if text != [] {
      Rendering(s, text[..|text| - 1]);
      ShowsPutc(PutAll(Cleared(s), text[..|text| - 1]), Layout(text[..|text| - 1]), text[|text| - 1]);
    }
  }

  /** A newline or carriage return goes to column 0 of the next row; from the last row the screen moves up
      one row and a blank one enters. */
  lemma PutcEndsRow(s: Console, c: Byte, r: nat, j: nat)
    requires s.Valid() && (c == 10 || c == 13) && r < ROWS && j < COLS
    ensures var p := Put(s, c);
            && p.x == 0 && p.y == Min(s.y + 1, 24)
            && (s.y < 24 ==> p.mem == s.mem)
            && (s.y == 24 ==> Cell(p.mem, r, j) == if r < 24 then Cell(s.mem, r + 1, j) else (32, 7))
  {
  }

  /** Every other byte is stored at the cursor, with the attribute 7, and the cursor moves on; past column
      79 the row is ended first. Nothing else changes. */
  lemma PutcStores(s: Console, c: Byte, r: nat, j: nat)
    requires s.Valid() && c != 10 && c != 13 && r < ROWS && j < COLS
    ensures var w, p := if s.x == 80 then Put(s, 10) else s, Put(s, c);
            && p.x == w.x + 1 && p.y == w.y
            && Cell(p.mem, r, j) == if r == w.y && j == w.x then (c, 7) else Cell(w.mem, r, j)
  {
    OneCell(if s.x == 80 then Put(s, 10) else s, c, r, j);
  }

  /** At the home position a backspace does nothing; anywhere else it blanks the cell before the cursor and
      goes there. */
  lemma BackspaceBlanks(s: Console, r: nat, j: nat)
    requires s.Valid() && r < ROWS && j < COLS
    ensures s.x == 0 && s.y == 0 ==> Backspace(s) == s
    ensures s.x > 0 || s.y > 0 ==>
              var p, x, y := Backspace(s), if s.x == 0 then 79 else s.x - 1, if s.x == 0 then s.y - 1 else s.y;
              p.x == x && p.y == y && Cell(p.mem, r, j) == if r == y && j == x then (32, 7) else Cell(s.mem, r, j)
  {
    var x, y := if s.x == 0 then 79 else s.x - 1, if s.x == 0 then s.y - 1 else s.y;
    assert 80 * r + j == 80 * y + x <==> r == y && j == x;
  }

  lemma AddBelow(above: seq<seq<Byte>>, rows: seq<seq<Byte>>, c: Byte)
    requires rows != []
    ensures AddChar(above + rows, c) == above + AddChar(rows, c)
  {
    var n := |rows| - 1;
    assert (above + rows)[..|above| + n] == above + rows[..n];
  }

  /** A newline or carriage return splits the layout. */
  lemma {:induction false} LayoutSplits(a: seq<Byte>, c: Byte, b: seq<Byte>)
    requires c == 10 || c == 13
    ensures Layout(a + [c] + b) == Layout(a) + Layout(b)
    decreases |b|
  {
    if b == [] {
      assert a + [c] + b == a + [c];
      LayoutMore(a, c);
    } else {
      var front, d := b[..|b| - 1], b[|b| - 1];
      LayoutSplits(a, c, front);
      assert a + [c] + b == a + [c] + front + [d];
      LayoutMore(a + [c] + front, d);
      AddBelow(Layout(a), Layout(front), d);
    }
  }

  lemma LayoutMore(text: seq<Byte>, c: Byte)
    ensures Layout(text + [c]) == AddChar(Layout(text), c)
  {
    assert (text + [c])[..|text|] == text;
  }

  /** A text in pieces of 80, the last one shorter. */
  function Pieces(text: seq<Byte>): seq<seq<Byte>> {
    if |text| <= 80 then [text] else [text[..80]] + Pieces(text[80..])
  }

  lemma {:induction false} PiecesMore(text: seq<Byte>, c: Byte)
    requires c != 10 && c != 13
    ensures Pieces(text) != [] && AddChar(Pieces(text), c) == Pieces(text + [c])
  {
    if |text| > 80 {
      PiecesMore(text[80..], c);
      assert (text + [c])[..80] == text[..80] && (text + [c])[80..] == text[80..] + [c];
      AddBelow([text[..80]], Pieces(text[80..]), c);
    } else if |text| == 80 {
      assert (text + [c])[..80] == text && (text + [c])[80..] == [c];
    }
  }

  /** Without any, the rows are the text in pieces of 80. */
  lemma {:induction false} LayoutWraps(text: seq<Byte>)
    requires forall k :: 0 <= k < |text| ==> text[k] != 10 && text[k] != 13
    ensures Layout(text) == Pieces(text)
  {
    if text != [] {
      var front := text[..|text| - 1];
      LayoutWraps(front);
      PiecesMore(front, text[|text| - 1]);
      assert front + [text[|text| - 1]] == text;
    }
  }

  function Flatten(rows: seq<seq<Byte>>): seq<Byte> {
    if rows == [] then [] else Flatten(rows[..|rows| - 1]) + rows[|rows| - 1]
  }

  function Printed(text: seq<Byte>): seq<Byte> {
    if text == [] then []
    else Printed(text[..|text| - 1]) + if IsNewline(text[|text| - 1]) then [] else [text[|text| - 1]]
  }

  /** The layout keeps every printed character, in order, in rows of at most 80. */
  lemma {:induction false} LayoutKeepsText(text: seq<Byte>)
    ensures Flatten(Layout(text)) == Printed(text)
    ensures forall i :: 0 <= i < |Layout(text)| ==> |Layout(text)[i]| <= COLS
  {
    if text == [] {
      assert Flatten([[]]) == Flatten([[]][..0]) + [];
    } else {
      var front, c := text[..|text| - 1], text[|text| - 1];
      LayoutKeepsText(front);
      var rows, more := Layout(front), AddChar(Layout(front), c);
      var n := |rows| - 1;
      if IsNewline(c) || |rows[n]| == COLS {
        assert more[..n + 1] == rows;
      } else {
        assert more[..n] == rows[..n];
      }
    }
  }

  // ---- Erasing undoes echoing ----

  /** Rows scrolled off while n characters are written from linear position p. */
  function Scrolled(p: nat, n: nat): nat {
    if p + n <= COLS * ROWS then 0 else (p + n - COLS * ROWS + COLS - 1) / COLS
  }

  /** k is the least number of rows to scroll so that the text ends on the screen. */
  ghost predicate LeastScroll(p: nat, n: nat, k: nat) {
    p + n - COLS * k <= COLS * ROWS && (k > 0 ==> p + n - COLS * (k - 1) > COLS * ROWS)
  }

  lemma ScrolledIsLeast(p: nat, n: nat)
    ensures LeastScroll(p, n, Scrolled(p, n))
  {
  }

  lemma PutcLinear(s: Console, c: Byte)
    requires s.Valid() && !IsNewline(c)
    ensures var p, r := s.Linear(), Put(s, c);
            if p == COLS * ROWS
            then r.Linear() == p - COLS + 1 && r.mem == WriteCells(ScrollBy(s.mem, 1), p - COLS, [c])
            else r.Linear() == p + 1 && r.mem == WriteCells(s.mem, p, [c])
  {
  }

  lemma ScrollWritten(m: seq<Byte>, k: nat, p: nat, text: seq<Byte>)
    requires |m| == PAGE && COLS <= p && p + |text| <= COLS * ROWS
    ensures ScrollBy(WriteCells(ScrollBy(m, k), p, text), 1) == WriteCells(ScrollBy(m, k + 1), p - COLS, text)
  {
  }

  lemma WriteMore(m: seq<Byte>, p: nat, text: seq<Byte>, c: Byte)
    requires |m| == PAGE && p + |text| < COLS * ROWS
    ensures WriteCells(WriteCells(m, p, text), p + |text|, [c]) == WriteCells(m, p, text + [c])
  {
  }

  lemma WriteNothing(m: seq<Byte>, p: nat)
    requires |m| == PAGE && p <= COLS * ROWS
    ensures WriteCells(ScrollBy(m, 0), p, []) == m
  {
  }

  /** Where the echoed text lies and where the cursor ends, as long as the text fits the screen. */
  lemma {:induction false} EchoFrom(s: Console, text: seq<Byte>, k: nat)
    requires s.Valid() && forall i :: 0 <= i < |text| ==> !IsNewline(text[i])
    requires LeastScroll(s.Linear(), |text|, k) && COLS * k <= s.Linear()
    ensures PutAll(s, text).Linear() == s.Linear() - COLS * k + |text|
    ensures PutAll(s, text).mem == WriteCells(ScrollBy(s.mem, k), s.Linear() - COLS * k, text)
  {
    if text == [] {
      WriteNothing(s.mem, s.Linear());
    } else {
      var front, c := text[..|text| - 1], text[|text| - 1];
      var j := if LeastScroll(s.Linear(), |front|, k) then k else k - 1;
      EchoFrom(s, front, j);
      EchoOneMore(s, PutAll(s, front), front, c, j);
      assert front + [c] == text;
    }
  }

  lemma EchoOneMore(s: Console, e: Console, front: seq<Byte>, c: Byte, k: nat)
    requires s.Valid() && e.Valid() && !IsNewline(c)
    requires 0 <= s.Linear() - COLS * k && s.Linear() - COLS * k + |front| == e.Linear() <= COLS * ROWS
    requires e.mem == WriteCells(ScrollBy(s.mem, k), s.Linear() - COLS * k, front)
    requires e.Linear() == COLS * ROWS ==> COLS * (k + 1) <= s.Linear()
    ensures var k' := if e.Linear() == COLS * ROWS then k + 1 else k;
            var p := s.Linear() - COLS * k';
            && p + |front| + 1 == Put(e, c).Linear() <= COLS * ROWS
            && Put(e, c).mem == WriteCells(ScrollBy(s.mem, k'), p, front + [c])
  {
    PutcLinear(e, c);
    var p := s.Linear() - COLS * k;
    if e.Linear() == COLS * ROWS {
      ScrollWritten(s.mem, k, p, front);
      WriteMore(ScrollBy(s.mem, k + 1), p - COLS, front, c);
    } else {
      WriteMore(ScrollBy(s.mem, k), p, front, c);
    }
  }

  lemma {:induction false} EraseFrom(s: Console, n: nat)
    requires s.Valid() && n <= s.Linear()
    ensures BackspaceAll(s, n).Linear() == s.Linear() - n
    ensures BackspaceAll(s, n).mem == BlankCells(s.mem, s.Linear() - n, n)
    decreases n
  {
    if n > 0 {
      EraseFrom(Backspace(s), n - 1);
    }
  }

  /** Echoing a text and backspacing over it blanks exactly the cells it occupied, on the screen
      scrolled by the rows the text pushed off, and returns the cursor to where it started. */
  lemma EraseUndoesEcho(s: Console, text: seq<Byte>)
    requires s.Valid() && forall i :: 0 <= i < |text| ==> !IsNewline(text[i])
    requires COLS * Scrolled(s.Linear(), |text|) <= s.Linear()
    ensures var k, r := Scrolled(s.Linear(), |text|), BackspaceAll(PutAll(s, text), |text|);
            && r.Linear() == s.Linear() - COLS * k && r.Linear() + |text| <= COLS * ROWS
            && r.mem == BlankCells(ScrollBy(s.mem, k), s.Linear() - COLS * k, |text|)
  {
    ScrolledIsLeast(s.Linear(), |text|);
    EchoFrom(s, text, Scrolled(s.Linear(), |text|));
    EraseFrom(PutAll(s, text), |text|);
  }

  /** A line of the keyboard buffer, at most 127 characters, always fits. */
  lemma TypedLineFits(s: Console, n: nat)
    requires s.Valid() && n <= 127
    ensures COLS * Scrolled(s.Linear(), n) <= s.Linear()
  {
  }
}
