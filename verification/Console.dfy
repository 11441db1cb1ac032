/**
  The 80x25 text console (src/screen.c) as a window on an unbounded terminal.
 */
module Console {
  import opened Words
  import opened Numerals
  import opened CStrings

  const WIDTH: nat := 80
  const HEIGHT: nat := 25
  const CELLS: nat := 2000

  const BACKSPACE: char8 := 8
  const TAB: char8 := 9
  const NEWLINE: char8 := 10
  const RETURN: char8 := 13
  const SPACE: char8 := 32

  /** White on black: the attribute byte is 15, shifted over the character. */
  const ATTRIBUTE: int := 0xF00
  const BLANK: int := 0xF20

  /** c | attribute, for a character that is not negative. */
  function Cell(c: char8): int { ATTRIBUTE + c }

  // ----- The unbounded terminal

  /** A grid with no last row, blank where nothing was written, and a cursor. */
  datatype Terminal = Terminal(cells: map<(nat, nat), int>, x: nat, row: nat)

  const CLEARED := Terminal(map[], 0, 0)

  function At(t: Terminal, row: nat, x: nat): int {
    if (row, x) in t.cells then t.cells[(row, x)] else BLANK
  }

  /** One character: controls move the cursor, printable ones are written, others are ignored. */
  function Put(t: Terminal, c: char8): Terminal {
    Wrap(
      if c == BACKSPACE && t.x != 0 then t.(x := t.x - 1)
      else if c == TAB then t.(x := (t.x + 8) / 8 * 8)
      else if c == RETURN then t.(x := 0)
      else if c == NEWLINE then t.(x := 0, row := t.row + 1)
      else if c >= SPACE then t.(cells := t.cells[(t.row, t.x) := Cell(c)], x := t.x + 1)
      else t)
  }

  function Wrap(t: Terminal): Terminal {
    if t.x >= WIDTH then t.(x := 0, row := t.row + 1) else t
  }

  function Write(t: Terminal, s: text): Terminal
    decreases |s|
  {
    if s == [] then t else Write(Put(t, s[0]), s[1..])
  }

  lemma {:induction false} WriteConcat(t: Terminal, a: text, b: text)
    ensures Write(t, a + b) == Write(Write(t, a), b)
    decreases |a|
  {
    if a == [] {
      assert a + b == b;
    } else {
      assert (a + b)[1..] == a[1..] + b;
      WriteConcat(Put(t, a[0]), a[1..], b);
    }
  }

  /** The cursor stays in the columns and nothing is written below its row. */
  ghost predicate WellFormed(t: Terminal) {
    t.x < WIDTH && forall p :: p in t.cells ==> p.0 <= t.row && p.1 < WIDTH
  }

  lemma {:induction false} WriteWellFormed(t: Terminal, s: text)
    requires WellFormed(t)
    ensures WellFormed(Write(t, s)) && t.row <= Write(t, s).row
    decreases |s|
  {
    if s != [] { WriteWellFormed(Put(t, s[0]), s[1..]); }
  }

  ghost predicate Plain(s: text) { forall i :: 0 <= i < |s| ==> SPACE <= s[i] }

  /** The cursor as a position counted from the top left, row by row. */
  function Linear(t: Terminal): nat { t.row * WIDTH + t.x }

  function CellAt(t: Terminal, p: nat): int { At(t, p / WIDTH, p % WIDTH) }

  /** Plain text lands cell after cell from the cursor on, and touches no other cell. */
  lemma {:induction false} PlainTextLands(t: Terminal, s: text)
    requires WellFormed(t) && Plain(s)
    ensures Linear(Write(t, s)) == Linear(t) + |s| && WellFormed(Write(t, s))
    ensures forall p: nat :: CellAt(Write(t, s), p) == (if Linear(t) <= p < Linear(t) + |s| then Cell(s[p - Linear(t)]) else CellAt(t, p))
    decreases |s|
  {
    if s != [] {
      var t1 := Put(t, s[0]);
      PutPlain(t, s[0]);
      PlainTextLands(t1, s[1..]);
    }
  }

  lemma PutPlain(t: Terminal, c: char8)
    requires WellFormed(t) && SPACE <= c
    ensures WellFormed(Put(t, c)) && Linear(Put(t, c)) == Linear(t) + 1
    ensures forall p: nat :: CellAt(Put(t, c), p) == (if p == Linear(t) then Cell(c) else CellAt(t, p))
  {
    forall p: nat ensures CellAt(Put(t, c), p) == (if p == Linear(t) then Cell(c) else CellAt(t, p)) {
      assert p == Linear(t) <==> p / WIDTH == t.row && p % WIDTH == t.x;
    }
  }

  /**
    What the other characters do: no cell changes, and the cursor goes to the first cell of
    the next row (newline) or of its own row (return), to the next multiple of 8 (tab), or one
    cell back in its row (backspace); any other one moves nothing. Rows being 80 wide, a tab
    behind column 71 ends on the next row.
   */
  lemma ControlMoves(t: Terminal, c: char8)
    requires WellFormed(t) && c < SPACE
    ensures WellFormed(Put(t, c)) && forall p: nat :: CellAt(Put(t, c), p) == CellAt(t, p)
    ensures var p := Linear(Put(t, c));
            && (c == NEWLINE ==> p == (t.row + 1) * WIDTH)
            && (c == RETURN ==> p == t.row * WIDTH)
            && (c == TAB ==> p % 8 == 0 && Linear(t) < p <= Linear(t) + 8)
            && (c == BACKSPACE ==> p == if Linear(t) % WIDTH == 0 then Linear(t) else Linear(t) - 1)
            && (c !in {NEWLINE, RETURN, TAB, BACKSPACE} ==> p == Linear(t))
  {
    assert Put(t, c).cells == t.cells;
    if c == TAB { TabStop(t.row, t.x); }
    assert Linear(t) % WIDTH == t.x;
  }

  lemma TabStop(row: nat, x: nat)
    ensures var stop := row * WIDTH + (x + 8) / 8 * 8;
            stop % 8 == 0 && row * WIDTH + x < stop <= row * WIDTH + x + 8
  {
    assert row * WIDTH + (x + 8) / 8 * 8 == (row * 10 + (x + 8) / 8) * 8;
  }

  /** A line of text: behind a newline, plain text lands from the start of the next row on. */
  lemma LineLands(t: Terminal, s: text)
    requires WellFormed(t) && Plain(s)
    ensures var u, first := Write(t, [NEWLINE] + s), (t.row + 1) * WIDTH;
            && Linear(u) == first + |s|
            && forall p: nat :: CellAt(u, p) == (if first <= p < first + |s| then Cell(s[p - first]) else CellAt(t, p))
  {
    hide Put, CellAt, Write;
    ControlMoves(t, NEWLINE);
    PlainTextLands(Put(t, NEWLINE), s);
    WriteOne(t, [NEWLINE] + s);
    assert ([NEWLINE] + s)[1..] == s;
  }

  /** A backspace goes back over a plain character that did not end its row, and the next plain one takes its place. */
  lemma BackspaceUndoes(t: Terminal, c: char8, d: char8)
    requires WellFormed(t) && SPACE <= c && SPACE <= d && t.x + 1 < WIDTH
    ensures Linear(Write(t, [c, BACKSPACE])) == Linear(t)
    ensures Write(t, [c, BACKSPACE, d]) == Write(t, [d])
  {
    WriteThree(t, c, BACKSPACE, d);
    TakesItsPlace(t, c, d);
  }

  lemma WriteThree(t: Terminal, a: char8, b: char8, c: char8)
    ensures Write(t, [a, b]) == Put(Put(t, a), b)
    ensures Write(t, [a, b, c]) == Put(Put(Put(t, a), b), c)
    ensures Write(t, [c]) == Put(t, c)
  {
    hide Put;
    WriteOne(t, [a, b, c]);
    WriteOne(Put(t, a), [b, c]);
    WriteOne(t, [a, b]);
    assert [a, b, c][1..] == [b, c] && [b, c][1..] == [c] && [a, b][1..] == [b] && [c][1..] == [];
  }

  lemma TakesItsPlace(t: Terminal, c: char8, d: char8)
    requires WellFormed(t) && SPACE <= c && SPACE <= d && t.x + 1 < WIDTH
    ensures Linear(Put(Put(t, c), BACKSPACE)) == Linear(t)
    ensures Put(Put(Put(t, c), BACKSPACE), d) == Put(t, d)
  {
    assert t.cells[(t.row, t.x) := Cell(c)][(t.row, t.x) := Cell(d)] == t.cells[(t.row, t.x) := Cell(d)];
  }

  lemma WriteOne(t: Terminal, s: text)
    requires s != []
    ensures Write(t, s) == Write(Put(t, s[0]), s[1..])
  {
  }

  /** A cell is the character, with white on black in the upper byte; a blank is a space. */
  lemma CellBytes(c: char8)
    requires 0 <= c
    ensures Cell(c) % 0x100 == c && Cell(c) / 0x100 == 15 && Cell(SPACE) == BLANK
  {
  }

  // ----- The window

  /** The first row in the window. */
  function Top(t: Terminal): nat { if t.row >= HEIGHT - 1 then t.row - (HEIGHT - 1) else 0 }

  /** The 2000 cells are the rows from `top` on, and the cursor is where the terminal's is. */
  ghost predicate Window(video: seq<int>, cursorX: int, cursorY: int, top: nat, t: Terminal) {
    && |video| == CELLS && WellFormed(t) && top <= t.row
    && cursorX == t.x && cursorY == t.row - top
    && forall i :: 0 <= i < CELLS ==> video[i] == At(t, top + i / WIDTH, i % WIDTH)
  }

  /** The screen shows rows top..top+24 of the terminal. */
  ghost predicate Shows(video: seq<int>, cursorX: int, cursorY: int, t: Terminal) {
    Window(video, cursorX, cursorY, Top(t), t)
  }

  /** Nothing is written on the cursor's row yet. */
  ghost predicate RowIsFresh(t: Terminal) { forall p :: p in t.cells ==> p.0 < t.row }

  lemma NextRowIsFresh(t: Terminal, c: char8)
    requires WellFormed(t)
    ensures Put(t, c).row == t.row || (Put(t, c).row == t.row + 1 && RowIsFresh(Put(t, c)))
  {
  }

  /** A window whose cursor fell below it is right again one row further down. */
  lemma ScrolledWindow(video: seq<int>, video': seq<int>, cursorX: int, top: nat, t: Terminal)
    requires Window(video, cursorX, HEIGHT, top, t) && |video'| == CELLS && RowIsFresh(t)
    requires forall i :: 0 <= i < CELLS ==> video'[i] == if i < CELLS - WIDTH then video[i + WIDTH] else BLANK
    ensures Window(video', cursorX, HEIGHT - 1, top + 1, t)
  {
    forall i | 0 <= i < CELLS ensures video'[i] == At(t, top + 1 + i / WIDTH, i % WIDTH) {
      assert (i + WIDTH) / WIDTH == i / WIDTH + 1 && (i + WIDTH) % WIDTH == i % WIDTH;
    }
  }

  /** The cursor is always inside the window. */
  lemma CursorInside(video: seq<int>, cursorX: int, cursorY: int, t: Terminal)
    requires Shows(video, cursorX, cursorY, t)
    ensures 0 <= cursorX < WIDTH && 0 <= cursorY < HEIGHT
    ensures Top(t) == if t.row > 24 then t.row - 24 else 0
  {
  }

  class Screen {
    const video: array<int>
    var cursorX: int
    var cursorY: int

    constructor ()
      ensures video.Length == CELLS && fresh(video)
      ensures Shows(video[..], cursorX, cursorY, CLEARED)
    {
      video := new int[CELLS];
      cursorX, cursorY := 0, 0;
      new;
      ScreenClear();
    }

    method ScreenClear()
      requires video.Length == CELLS
      modifies this, video
      ensures Shows(video[..], cursorX, cursorY, CLEARED)
      ensures cursorX == cursorY == 0 && forall i :: 0 <= i < CELLS ==> video[i] == BLANK
    {
      var i := 0;
      while i < WIDTH * HEIGHT
        invariant 0 <= i <= CELLS && forall k :: 0 <= k < i ==> video[k] == BLANK
      {
        video[i] := BLANK;
        i := i + 1;
      }
      cursorX, cursorY := 0, 0;
    }

    /** scroll: once the cursor is below the window, move everything up a line. */
    method Scroll()
      requires video.Length == CELLS && cursorY <= HEIGHT
      modifies this`cursorY, video
      ensures old(cursorY) < HEIGHT ==> cursorY == old(cursorY) && video[..] == old(video[..])
      ensures old(cursorY) == HEIGHT ==> cursorY == HEIGHT - 1
      ensures old(cursorY) == HEIGHT ==> forall i :: 0 <= i < CELLS ==>
        video[i] == if i < CELLS - WIDTH then old(video[i + WIDTH]) else BLANK
    {
      if cursorY >= HEIGHT {
        ghost var was := video[..];
        var i := 0;
        while i < 24 * WIDTH
          invariant 0 <= i <= 24 * WIDTH
          invariant forall k :: 0 <= k < i ==> video[k] == was[k + WIDTH]
          invariant forall k :: i <= k < CELLS ==> video[k] == was[k]
        {
          video[i] := video[i + WIDTH];
          i := i + 1;
        }
        i := 24 * WIDTH;
        while i < HEIGHT * WIDTH
          invariant 24 * WIDTH <= i <= CELLS
          invariant forall k :: 0 <= k < 24 * WIDTH ==> video[k] == was[k + WIDTH]
          invariant forall k :: 24 * WIDTH <= k < i ==> video[k] == BLANK
        {
          video[i] := BLANK;
          i := i + 1;
        }
        cursorY := HEIGHT - 1;
      }
    }

    /** The part of screen_put before the scroll. */
    method Place(c: char8, ghost t: Terminal, ghost top: nat)
      requires Window(video[..], cursorX, cursorY, top, t) && cursorY < HEIGHT
      modifies this, video
      ensures Window(video[..], cursorX, cursorY, top, Put(t, c)) && t.row <= Put(t, c).row <= t.row + 1
    {
      if c == BACKSPACE && cursorX != 0 {
        cursorX := cursorX - 1;
      } else if c == TAB {
        cursorX := (cursorX + 8) / 8 * 8;
      } else if c == RETURN {
        cursorX := 0;
      } else if c == NEWLINE {
        cursorX := 0;
        cursorY := cursorY + 1;
      } else if c >= SPACE {
        PlaceCell(cursorY * WIDTH + cursorX, c, t, top);
        cursorX := cursorX + 1;
      }
      if cursorX >= WIDTH {
        cursorX := 0;
        cursorY := cursorY + 1;
      }
    }

    /** The store of one cell, at the cursor. */
    method PlaceCell(location: nat, c: char8, ghost t: Terminal, ghost top: nat)
      requires Window(video[..], cursorX, cursorY, top, t) && cursorY < HEIGHT && location == cursorY * WIDTH + cursorX
      modifies video
      ensures Window(video[..], cursorX, cursorY, top, t.(cells := t.cells[(t.row, t.x) := Cell(c)]))
    {
      video[location] := Cell(c);
      forall i | 0 <= i < CELLS && i != location ensures (top + i / WIDTH, i % WIDTH) != (t.row, t.x) {
        assert i == i / WIDTH * WIDTH + i % WIDTH;
      }
      assert location / WIDTH == cursorY && location % WIDTH == cursorX;
    }

    /** screen_put refines `Put`. */
    method ScreenPut(c: char8, ghost t: Terminal)
      requires Shows(video[..], cursorX, cursorY, t)
      modifies this, video
      ensures Shows(video[..], cursorX, cursorY, Put(t, c))
    {
      Place(c, t, Top(t));
      NextRowIsFresh(t, c);
      ghost var was := video[..];
      Scroll();
      if cursorY + Top(t) != Put(t, c).row {
        ScrolledWindow(was, video[..], cursorX, Top(t), Put(t, c));
      }
    }

    /** screen_write: the characters of a C string. */
    method ScreenWrite(c: seq<char8>, ghost s: text, ghost t: Terminal)
      requires Terminated(c, s) && Shows(video[..], cursorX, cursorY, t)
      modifies this, video
      ensures Shows(video[..], cursorX, cursorY, Write(t, s))
    {
      var i := 0;
      ghost var u := t;
      while i < |c| && c[i] != 0
        invariant 0 <= i <= |s| && u == Write(t, s[..i]) && Shows(video[..], cursorX, cursorY, u)
        decreases |s| - i
      {
        assert c[i] == s[i] && s[..i + 1] == s[..i] + [s[i]];
        WriteConcat(t, s[..i], [s[i]]);
        assert Write(u, [s[i]]) == Put(u, s[i]);
        ScreenPut(c[i], u);
        u := Put(u, s[i]);
        i := i + 1;
      }
      assert s[..i] == s;
    }

    /** One more character of a text that is being written. */
    method PutNext(c: char8, ghost t: Terminal, ghost s: text)
      requires Shows(video[..], cursorX, cursorY, Write(t, s))
      modifies this, video
      ensures Shows(video[..], cursorX, cursorY, Write(t, s + [c]))
    {
      WriteConcat(t, s, [c]);
      assert Write(Write(t, s), [c]) == Put(Write(t, s), c);
      ScreenPut(c, Write(t, s));
    }

    /** screen_write_hex writes the text u32_to_hex writes, nibble by nibble. */
    method ScreenWriteHex(n: u32, ghost t: Terminal)
      requires Shows(video[..], cursorX, cursorY, t)
      modifies this, video
      ensures Shows(video[..], cursorX, cursorY, Write(t, Hex(n)))
    {
      ShrU32(n);
      ScreenWrite([ZERO, LOWER_X, 0], [ZERO, LOWER_X], t);
      var noZeroes := true;
      var k := 7;
      ghost var s := [ZERO, LOWER_X];
      while k > 0
        invariant 0 <= k <= 7 && Shows(video[..], cursorX, cursorY, Write(t, s))
        invariant noZeroes <==> Shr(n, k + 1) == 0
        invariant s == [ZERO, LOWER_X] + (if noZeroes then [] else HexDigits(Shr(n, k + 1)))
      {
        ShrStep(n, k);
        var tmp := Shr(n, k) % 16;
        if !(tmp == 0 && noZeroes) {
          noZeroes := false;
          PutNext(HexDigit(tmp), t, s);
          s := s + [HexDigit(tmp)];
        }
        k := k - 1;
      }
      ShrStep(n, 0);
      assert s + [HexDigit(n % 16)] == Hex(n);
      PutNext(HexDigit(n % 16), t, s);
    }

    /** screen_write_dec, whose accumulator keeps all 32 bits. */
    method ScreenWriteDec(n: u32, ghost t: Terminal)
      requires Shows(video[..], cursorX, cursorY, t)
      modifies this, video
      ensures Shows(video[..], cursorX, cursorY, Write(t, Dec(n)))
    {
      if n == 0 {
        assert [] + [ZERO] == Dec(0);
        PutNext(ZERO, t, []);
        return;
      }
      var c2 := new char8[32];
      var length := DigitsOf(n, c2);
      DecReadsBack(n);
      assert c2[..length + 1] == Dec(n) + [0];
      ScreenWrite(c2[..length + 1], Dec(n), t);
    }
  }
}
