/** The text terminal, kernel/terminal/tty.c: 2000 words of VGA memory and a cursor, as a window on the page. */
module Terminal {
  import opened TerminalPage

  const WHITE_ON_BLACK: Byte := 15

  /** vga_entry: the character in the low byte, its colour in the high one. */
  function VgaEntry(c: Byte, color: Byte): (w: nat)
    ensures w < 0x1_0000 && w % 256 == c && w / 256 == color
  {
    c + 256 * color
  }

  /** The buffer's character bytes are the page's 25 rows from `top`. */
  ghost predicate Shows(buffer: seq<nat>, p: Page) {
    |buffer| == SCREEN_CELLS && forall k | 0 <= k < SCREEN_CELLS :: buffer[k] % 256 == p.Cell(p.top * SCREEN_WIDTH + k)
  }

  /** Every cell is white on black, or one of the colourless blanks a scroll leaves. */
  predicate Visible(buffer: seq<nat>) {
    forall k | 0 <= k < |buffer| :: buffer[k] / 256 == 0x0F || buffer[k] == 0x20
  }

  /** The buffer one row up, with the last row blank. */
  function Scrolled(buffer: seq<nat>): (r: seq<nat>)
    requires |buffer| == SCREEN_CELLS
    ensures |r| == SCREEN_CELLS
  {
    buffer[SCREEN_WIDTH..] + seq(SCREEN_WIDTH, _ => BLANK)
  }

  lemma ScrolledShows(buffer: seq<nat>, p: Page)
    requires Shows(buffer, p) && |p.cells| <= (p.top + SCREEN_HEIGHT) * SCREEN_WIDTH
    ensures Shows(Scrolled(buffer), Page(p.cells, p.top + 1))
    ensures Visible(buffer) ==> Visible(Scrolled(buffer))
  {
    forall k | 0 <= k < SCREEN_CELLS
      ensures Scrolled(buffer)[k] % 256 == p.Cell((p.top + 1) * SCREEN_WIDTH + k)
    {
      if k < SCREEN_CELLS - SCREEN_WIDTH {
        assert Scrolled(buffer)[k] == buffer[k + SCREEN_WIDTH];
      }
    }
  }

  /** One more of the blanks a tab stands for. */
  lemma BlankSettles(p: Page, i: nat)
    requires p.OnScreen() && i < TabRest(|p.cells|)
    ensures PutChar(Settle(p.cells + Blanks(i), p.top), BLANK) == Settle(p.cells + Blanks(i + 1), p.top)
  {
    assert p.cells + Blanks(i) + [BLANK] == p.cells + Blanks(i + 1);
  }

  class Tty {
    const buffer: array<nat>
    var xpos: nat
    var ypos: nat
    var color: Byte
    var hardwareCursor: nat

    // The page this is a window on.
    ghost var page: Page

    /** The screen shows the page and the cursor is in bounds, at the page's end. */
    ghost predicate Valid()
      reads this, buffer
    {
      && buffer.Length == SCREEN_CELLS && Shows(buffer[..], page)
      && xpos < SCREEN_WIDTH && ypos < SCREEN_HEIGHT
      && |page.cells| == (page.top + ypos) * SCREEN_WIDTH + xpos
      && hardwareCursor == ypos * SCREEN_WIDTH + xpos
      && color == WHITE_ON_BLACK && Visible(buffer[..])
    }

    /** VGA memory with whatever is in it, then initialize_terminal. */
    constructor (screen: array<nat>)
      requires screen.Length == SCREEN_CELLS
      modifies screen
      ensures Valid() && buffer == screen && page == EMPTY
    {
      buffer := screen;
      page := EMPTY;
      xpos, ypos, color, hardwareCursor := 0, 0, 0, 0;
      new;
      Clear();
    }

    method UpdateCursor(x: nat, y: nat)
      modifies this`xpos, this`ypos, this`hardwareCursor
      ensures xpos == x && ypos == y && hardwareCursor == y * SCREEN_WIDTH + x
    {
      xpos := x;
      ypos := y;
      hardwareCursor := y * SCREEN_WIDTH + x;
    }

    /** tty_clear. */
    method Clear()
      requires buffer.Length == SCREEN_CELLS
      modifies this`xpos, this`ypos, this`hardwareCursor, this`color, this`page, buffer
      ensures Valid() && page == EMPTY && color == WHITE_ON_BLACK
      ensures forall k | 0 <= k < SCREEN_CELLS :: buffer[k] == 0x0F20
    {
      color := WHITE_ON_BLACK;
      var y := 0;
      while y < SCREEN_HEIGHT
        invariant y <= SCREEN_HEIGHT && color == WHITE_ON_BLACK
        invariant forall k | 0 <= k < y * SCREEN_WIDTH :: buffer[k] == VgaEntry(BLANK, color)
      {
        var x := 0;
        while x < SCREEN_WIDTH
          invariant x <= SCREEN_WIDTH && color == WHITE_ON_BLACK
          invariant forall k | 0 <= k < y * SCREEN_WIDTH + x :: buffer[k] == VgaEntry(BLANK, color)
        {
          var index := y * SCREEN_WIDTH + x;
          buffer[index] := VgaEntry(BLANK, color);
          x := x + 1;
        }
        y := y + 1;
      }
      page := EMPTY;
      UpdateCursor(0, 0);
    }

    /** tty_scroll. */
    method Scroll()
      requires buffer.Length == SCREEN_CELLS && ypos > 0
      modifies this`ypos, buffer
      ensures buffer[..] == Scrolled(old(buffer[..])) && ypos == old(ypos) - 1
    {
      ghost var was := buffer[..];
      var y := 0;
      while y < SCREEN_HEIGHT - 1
        invariant y <= SCREEN_HEIGHT - 1 && ypos == old(ypos)
        invariant forall k | 0 <= k < y * SCREEN_WIDTH :: buffer[k] == was[k + SCREEN_WIDTH]
        invariant forall k | y * SCREEN_WIDTH <= k < SCREEN_CELLS :: buffer[k] == was[k]
      {
        var x := 0;
        while x < SCREEN_WIDTH
          invariant x <= SCREEN_WIDTH && ypos == old(ypos)
          invariant forall k | 0 <= k < y * SCREEN_WIDTH + x :: buffer[k] == was[k + SCREEN_WIDTH]
          invariant forall k | y * SCREEN_WIDTH + x <= k < SCREEN_CELLS :: buffer[k] == was[k]
        {
          var index := y * SCREEN_WIDTH + x;
          var copyIndex := (y + 1) * SCREEN_WIDTH + x;
          buffer[index] := buffer[copyIndex];
          x := x + 1;
        }
        y := y + 1;
      }
      var x := 0;
      while x < SCREEN_WIDTH
        invariant x <= SCREEN_WIDTH && ypos == old(ypos)
        invariant forall k | 0 <= k < SCREEN_CELLS - SCREEN_WIDTH :: buffer[k] == was[k + SCREEN_WIDTH]
        invariant forall k | SCREEN_CELLS - SCREEN_WIDTH <= k < SCREEN_CELLS - SCREEN_WIDTH + x :: buffer[k] == BLANK
      {
        var index := (SCREEN_HEIGHT - 1) * SCREEN_WIDTH + x;
        buffer[index] := BLANK;
        x := x + 1;
      }
      ypos := ypos - 1;
    }

    method PutEntryAt(c: Byte, entryColor: Byte, x: nat, y: nat)
      requires buffer.Length == SCREEN_CELLS && x < SCREEN_WIDTH && y < SCREEN_HEIGHT
      modifies buffer
      ensures buffer[..] == old(buffer[..])[y * SCREEN_WIDTH + x := VgaEntry(c, entryColor)]
    {
      var index := y * SCREEN_WIDTH + x;
      buffer[index] := VgaEntry(c, entryColor);
    }

    /** The cursor goes down a row, and the screen scrolls when it has left it. */
    method NextRow(ghost cells: seq<Byte>)
      requires buffer.Length == SCREEN_CELLS && ypos < SCREEN_HEIGHT
      requires color == WHITE_ON_BLACK && Visible(buffer[..])
      requires Shows(buffer[..], Page(cells, page.top)) && |cells| == (page.top + ypos + 1) * SCREEN_WIDTH
      modifies this`xpos, this`ypos, this`hardwareCursor, this`page, buffer
      ensures Valid() && page == Settle(cells, old(page.top))
    {
      xpos := 0;
      ypos := ypos + 1;
      page := Settle(cells, page.top);
      if ypos == SCREEN_HEIGHT {
        ScrolledShows(buffer[..], Page(cells, old(page.top)));
        Scroll();
      }
      UpdateCursor(xpos, ypos);
    }

    /** tty_putc. */
    method Putc(c: Byte)
      requires Valid()
      modifies this`xpos, this`ypos, this`hardwareCursor, this`page, buffer
      ensures Valid() && page == PutChar(old(page), c)
      decreases if c == TAB then 2 else 0
    {
      hide RowRest, TabRest;
      RestAt(page.top + ypos, xpos);
      if c == NEWLINE {
        NextRow(Put(page.cells, c));
        return;
      } else if c == TAB {
        PutTab();
        return;
      }
      PutEntryAt(c, color, xpos, ypos);
      xpos := xpos + 1;
      if xpos == SCREEN_WIDTH {
        NextRow(Put(page.cells, c));
      } else {
        page := PutChar(page, c);
        UpdateCursor(xpos, ypos);
      }
    }

    /** The tab of tty_putc: blanks up to the next stop, each through tty_putc. */
    method PutTab()
      requires Valid()
      modifies this`xpos, this`ypos, this`hardwareCursor, this`page, buffer
      ensures Valid() && page == PutChar(old(page), TAB)
      decreases 1
    {
      hide Shows, RowRest, TabRest;
      RestAt(page.top + ypos, xpos);
      ghost var was := page;
      var column := xpos;
      var i := 0;
      ghost var n := TabRest(|was.cells|);
      while i < 8 - column % 8
        invariant Valid() && i <= 8 - column % 8 == n && page == Settle(was.cells + Blanks(i), was.top)
      {
        BlankSettles(was, i);
        Putc(BLANK);
        i := i + 1;
      }
    }

    /** tty_deleteprev. */
    method DeletePrev()
      requires Valid()
      modifies this`xpos, this`ypos, this`hardwareCursor, this`page, buffer
      ensures Valid() && page == Backspace(old(page))
    {
      if xpos == 0 {
        if ypos == 0 {
          return;
        }
        xpos := SCREEN_WIDTH - 1;
        ypos := ypos - 1;
      } else {
        xpos := xpos - 1;
      }
      PutEntryAt(BLANK, color, xpos, ypos);
      page := Backspace(page);
      UpdateCursor(xpos, ypos);
    }

    /** tty_write. */
    method Write(str: seq<Byte>)
      requires Valid()
      modifies this`xpos, this`ypos, this`hardwareCursor, this`page, buffer
      ensures Valid() && page == Type(old(page), str)
    {
      var i := 0;
      assert str[0..] == str;
      while i < |str|
        invariant i <= |str| && Valid() && Type(page, str[i..]) == Type(old(page), str)
      {
        assert str[i..][0] == str[i] && str[i..][1..] == str[i + 1..];
        Putc(str[i]);
        i := i + 1;
      }
    }
  }
}
