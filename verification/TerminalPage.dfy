/** An unbounded page of text, 80 columns wide, of which the terminal shows 25 rows. */
module TerminalPage {
  const SCREEN_WIDTH: nat := 80
  const SCREEN_HEIGHT: nat := 25
  const SCREEN_CELLS: nat := 2000
  const TAB_WIDTH: nat := 8

  type Byte = b: nat | b < 256

  const NEWLINE: Byte := 10
  const TAB: Byte := 9
  const BLANK: Byte := 32

  function Blanks(n: nat): (r: seq<Byte>)
    ensures |r| == n && forall i | 0 <= i < n :: r[i] == BLANK == 0x20
  {
    seq(n, _ => BLANK)
  }

  // ---- the page, one character at a time ----

  /** How far a newline moves from cell number n. */
  function RowRest(n: nat): (d: nat)
    ensures 0 < d <= 80 && (n + d) % 80 == 0
  {
    SCREEN_WIDTH - n % SCREEN_WIDTH
  }

  /** How far a tab moves. */
  function TabRest(n: nat): (d: nat)
    ensures 0 < d <= 8 && (n + d) % 8 == 0
  {
    TAB_WIDTH - n % TAB_WIDTH
  }

  /** The cells up to the cursor after one more character; everything past the cursor is blank. */
  function Put(cells: seq<Byte>, c: Byte): (r: seq<Byte>)
    ensures |cells| < |r| <= |cells| + SCREEN_WIDTH && r[..|cells|] == cells
  {
    if c == NEWLINE then cells + Blanks(RowRest(|cells|))
    else if c == TAB then cells + Blanks(TabRest(|cells|))
    else cells + [c]
  }

  /** The page and the first row the screen shows. */
  datatype Page = Page(cells: seq<Byte>, top: nat) {
    predicate OnScreen() { top * SCREEN_WIDTH <= |cells| < (top + SCREEN_HEIGHT) * SCREEN_WIDTH }

    function Cell(i: nat): Byte { if i < |cells| then cells[i] else BLANK }
  }

  const EMPTY: Page := Page([], 0)

  /** One row up when the cursor has left the screen at the bottom. */
  function Settle(cells: seq<Byte>, top: nat): Page {
    Page(cells, if |cells| >= (top + SCREEN_HEIGHT) * SCREEN_WIDTH then top + 1 else top)
  }

  function PutChar(p: Page, c: Byte): Page { Settle(Put(p.cells, c), p.top) }

  function Type(p: Page, text: seq<Byte>): Page
    decreases |text|
  {
    if text == [] then p else Type(PutChar(p, text[0]), text[1..])
  }

  /** Backspace stops at the top left corner of the screen, whatever has scrolled off above it. */
  function Backspace(p: Page): Page {
    if |p.cells| <= p.top * SCREEN_WIDTH then p else Page(p.cells[..|p.cells| - 1], p.top)
  }

  /** The cursor never gets past the last cell of the screen by more than one. */
  lemma PutReaches(p: Page, c: Byte)
    requires p.OnScreen()
    ensures |Put(p.cells, c)| <= (p.top + SCREEN_HEIGHT) * SCREEN_WIDTH && PutChar(p, c).OnScreen()
  {
    hide RowRest, TabRest;
    RowEnds(|p.cells|, p.top + SCREEN_HEIGHT);
    TabEnds(|p.cells|, 10 * (p.top + SCREEN_HEIGHT));
  }

  lemma RowEnds(n: nat, rows: nat)
    requires n < rows * SCREEN_WIDTH
    ensures n + RowRest(n) <= rows * SCREEN_WIDTH
  {
    assert n == n / SCREEN_WIDTH * SCREEN_WIDTH + n % SCREEN_WIDTH && n / SCREEN_WIDTH < rows;
  }

  lemma TabEnds(n: nat, stops: nat)
    requires n < stops * TAB_WIDTH
    ensures n + TabRest(n) <= stops * TAB_WIDTH
  {
    assert n == n / TAB_WIDTH * TAB_WIDTH + n % TAB_WIDTH && n / TAB_WIDTH < stops;
  }

  lemma RestAt(row: nat, x: nat)
    requires x < SCREEN_WIDTH
    ensures RowRest(row * SCREEN_WIDTH + x) == SCREEN_WIDTH - x
    ensures TabRest(row * SCREEN_WIDTH + x) == TAB_WIDTH - x % TAB_WIDTH
  {
    Remainders(row, x);
    TabRemainder(10 * row, x);
    assert row * SCREEN_WIDTH + x == TAB_WIDTH * (10 * row) + x;
  }

  lemma Remainders(row: nat, x: nat)
    requires x < SCREEN_WIDTH
    ensures (row * SCREEN_WIDTH + x) % SCREEN_WIDTH == x
  {
    assert (row * SCREEN_WIDTH + x) / SCREEN_WIDTH == row;
  }

  lemma TabRemainder(stop: nat, x: nat)
    ensures (TAB_WIDTH * stop + x) % TAB_WIDTH == x % TAB_WIDTH
  {
    assert TAB_WIDTH * stop + x == TAB_WIDTH * (stop + x / TAB_WIDTH) + x % TAB_WIDTH;
  }

  // ---- backspace undoes a character ----

  /** Putting a character and deleting it restores the cursor on the page and blanks the cell, wrap and scroll
      included, exactly for a printed character and for a newline or a tab that moved by a single cell. */
  lemma BackspaceUndoes(p: Page, c: Byte)
    requires p.OnScreen()
    ensures Backspace(PutChar(p, c)).cells == p.cells <==>
            (c != NEWLINE && c != TAB)
            || (c == NEWLINE && |p.cells| % SCREEN_WIDTH == SCREEN_WIDTH - 1)
            || (c == TAB && |p.cells| % TAB_WIDTH == TAB_WIDTH - 1)
  {}

  /** And the screen is the same one exactly when the character did not scroll it. */
  lemma BackspaceRestores(p: Page, c: Byte)
    requires p.OnScreen() && c != NEWLINE && c != TAB
    ensures Backspace(PutChar(p, c)) == p <==> |p.cells| + 1 < (p.top + SCREEN_HEIGHT) * SCREEN_WIDTH
  {}

  // ---- the page, line by line ----

  /** Where the first newline is, or |text|. */
  function LineEnd(text: seq<Byte>): (k: nat)
    ensures k <= |text| && NEWLINE !in text[..k] && (k < |text| ==> text[k] == NEWLINE)
  {
    if text == [] || text[0] == NEWLINE then 0 else 1 + LineEnd(text[1..])
  }

  /** What one character of a line occupies. */
  function Step(c: Byte, column: nat): (r: seq<Byte>)
    ensures |r| > 0
  {
    if c == TAB then Blanks(TabRest(column)) else [c]
  }

  /** A line with its tabs expanded, starting at the given column. */
  function Expand(line: seq<Byte>, column: nat): (r: seq<Byte>)
    decreases |line|
  {
    if line == [] then [] else Step(line[0], column) + Expand(line[1..], column + |Step(line[0], column)|)
  }

  /** Text laid out line by line: each line starts a row and is filled up with blanks to the end of its last
      one, which is a whole row for a line that ends at the right margin. */
  function Layout(text: seq<Byte>): seq<Byte>
    decreases |text|
  {
    var k := LineEnd(text);
    var line := Expand(text[..k], 0);
    if k == |text| then line else line + Blanks(RowRest(|line|)) + Layout(text[k + 1..])
  }

  /** The cells after text, typed one character at a time. */
  function Feed(cells: seq<Byte>, text: seq<Byte>): seq<Byte>
    decreases |text|
  {
    if text == [] then cells else Feed(Put(cells, text[0]), text[1..])
  }

  // ---- the two agree ----

  lemma {:induction false} FeedLine(cells: seq<Byte>, line: seq<Byte>, rest: seq<Byte>, column: nat)
    requires NEWLINE !in line && column % TAB_WIDTH == |cells| % TAB_WIDTH
    ensures Feed(cells, line + rest) == Feed(cells + Expand(line, column), rest)
    decreases |line|
  {
    hide Put, Step;
    if line == [] {
      assert line + rest == rest && cells + Expand(line, column) == cells;
    } else {
      var (c, others, step) := (line[0], line[1..], Step(line[0], column));
      assert c in line;
      PutSteps(cells, c, column);
      assert (line + rest)[1..] == others + rest;
      FeedLine(cells + step, others, rest, column + |step|);
      var expanded := Expand(others, column + |step|);
      assert Expand(line, column) == step + expanded;
      assert (cells + step) + expanded == cells + (step + expanded);
    }
  }

  lemma PutSteps(cells: seq<Byte>, c: Byte, column: nat)
    requires c != NEWLINE && column % TAB_WIDTH == |cells| % TAB_WIDTH
    ensures Put(cells, c) == cells + Step(c, column)
    ensures (column + |Step(c, column)|) % TAB_WIDTH == (|cells| + |Step(c, column)|) % TAB_WIDTH
  {}

  /** From the start of any row, typing lays text out line by line. */
  lemma {:induction false} FeedIsLayout(cells: seq<Byte>, text: seq<Byte>)
    requires |cells| % SCREEN_WIDTH == 0
    ensures Feed(cells, text) == cells + Layout(text)
    decreases |text|
  {
    hide Put, Expand;
    var k := LineEnd(text);
    var line := Expand(text[..k], 0);
    assert text == text[..k] + text[k..];
    FeedLine(cells, text[..k], text[k..], 0);
    if k == |text| {
      assert text[k..] == [];
    } else {
      var row := line + Blanks(RowRest(|line|));
      assert text[k..][0] == NEWLINE && text[k..][1..] == text[k + 1..];
      NewlineFills(cells, line);
      FeedIsLayout(cells + row, text[k + 1..]);
      assert cells + row + Layout(text[k + 1..]) == cells + (row + Layout(text[k + 1..]));
    }
  }

  lemma NewlineFills(cells: seq<Byte>, line: seq<Byte>)
    requires |cells| % SCREEN_WIDTH == 0
    ensures var row := line + Blanks(RowRest(|line|));
            Put(cells + line, NEWLINE) == cells + row && |cells + row| % SCREEN_WIDTH == 0
  {
    RestOfRow(|cells|, |line|);
  }

  lemma RestOfRow(start: nat, n: nat)
    requires start % SCREEN_WIDTH == 0
    ensures RowRest(start + n) == RowRest(n) && (start + n + RowRest(n)) % SCREEN_WIDTH == 0
  {}

  /** Text alone never scrolls further than it must: the screen holds the cursor's row and the 24 above it. */
  predicate Tight(p: Page) {
    p.top == if |p.cells| / SCREEN_WIDTH < SCREEN_HEIGHT then 0 else |p.cells| / SCREEN_WIDTH - (SCREEN_HEIGHT - 1)
  }

  lemma PutTight(p: Page, c: Byte)
    requires Tight(p) && p.OnScreen()
    ensures Tight(PutChar(p, c)) && PutChar(p, c).OnScreen()
  {
    PutReaches(p, c);
  }

  lemma {:induction false} TypeFeeds(p: Page, text: seq<Byte>)
    requires Tight(p) && p.OnScreen()
    ensures Type(p, text).cells == Feed(p.cells, text) && Tight(Type(p, text)) && Type(p, text).OnScreen()
    decreases |text|
  {
    if text != [] {
      PutTight(p, text[0]);
      TypeFeeds(PutChar(p, text[0]), text[1..]);
    }
  }

  /** What the screen shows after a clear and any text: the last 25 rows of the text laid out line by line, or
      all of it while it is shorter. */
  lemma TextOnScreen(text: seq<Byte>)
    ensures var p := Type(EMPTY, text);
            p.cells == Layout(text) && p.OnScreen() && Tight(p)
  {
    TypeFeeds(EMPTY, text);
    FeedIsLayout([], text);
  }

  // ---- where each character ends up ----

  lemma {:induction false} FeedSplits(cells: seq<Byte>, a: seq<Byte>, b: seq<Byte>)
    ensures Feed(cells, a + b) == Feed(Feed(cells, a), b)
    decreases |a|
  {
    if a == [] { assert a + b == b; }
    else {
      assert (a + b)[1..] == a[1..] + b;
      FeedSplits(Put(cells, a[0]), a[1..], b);
    }
  }

  lemma {:induction false} FeedKeeps(cells: seq<Byte>, text: seq<Byte>)
    ensures cells <= Feed(cells, text)
    decreases |text|
  {
    if text != [] { FeedKeeps(Put(cells, text[0]), text[1..]); }
  }

  /** A printed character stands at the cell where the cursor was when it was typed, and later text leaves it. */
  lemma CharacterStays(text: seq<Byte>, i: nat)
    requires i < |text| && text[i] != NEWLINE && text[i] != TAB
    ensures var at := |Layout(text[..i])|;
            at < |Layout(text)| && Layout(text)[at] == text[i]
  {
    hide Layout;
    var before := Layout(text[..i]);
    assert [] + Layout(text) == Layout(text) && [] + before == before;
    assert text == text[..i] + text[i..] && text[i..][0] == text[i];
    FeedIsLayout([], text);
    FeedIsLayout([], text[..i]);
    FeedSplits([], text[..i], text[i..]);
    FeedKeeps(before + [text[i]], text[i..][1..]);
    assert Layout(text) == Feed(before + [text[i]], text[i..][1..]);
  }
}
