/** A terminal with an unbounded page: what tty_putchar (arch/x86/lib/tty.c:65-127) is meant to show.
    It never scrolls; it only grows at the bottom. */
module IdealTerminal {
  const WIDTH: int := 80
  const HEIGHT: int := 25

  /** Characters of the 7-bit set; those above it would spill into the colour byte (vga.c:22-23). */
  type ascii = x: int | 0 <= x < 128

  const BELL: ascii := 7
  const BACKSPACE: ascii := 8
  const TAB: ascii := 9
  const NEWLINE: ascii := 10
  const RETURN: ascii := 13
  const SPACE: ascii := 32
  const DELETE: ascii := 127

  predicate Printable(c: ascii) {
    c != BELL && c != BACKSPACE && c != TAB && c != NEWLINE && c != RETURN && c != DELETE
  }

  /** vga_create_entry: the character in the low byte, the colour in the high byte. */
  function Entry(c: ascii, color: int): int {
    var low: int := c;
    low + 0x100 * color
  }

  function BlankRow(color: int): (r: seq<int>)
    ensures |r| == WIDTH && forall x :: 0 <= x < WIDTH ==> r[x] == Entry(SPACE, color)
  {
    seq(WIDTH, x => Entry(SPACE, color))
  }

  datatype Page = Page(rows: seq<seq<int>>, row: int, column: int, color: int) {
    ghost predicate Shaped() {
      |rows| >= HEIGHT && forall i :: 0 <= i < |rows| ==> |rows[i]| == WIDTH
    }

    ghost predicate Valid() {
      && Shaped()
      && Top() <= row < |rows| && 0 <= column < WIDTH
      && 0 <= color < 0x100
    }

    /** The first of the last 25 rows. */
    function Top(): int {
      |rows| - HEIGHT
    }

    /** Cells counted from the start of the page. */
    function At(pos: int): int
      requires Valid() && 0 <= pos < |rows| * WIDTH
    {
      rows[pos / WIDTH][pos % WIDTH]
    }

    function Position(): int {
      row * WIDTH + column
    }
  }

  function EmptyPage(color: int): Page {
    Page(seq(HEIGHT, i => BlankRow(color)), 0, 0, color)
  }

  function LineFeed(p: Page): Page {
    p.(rows := if p.row + 1 == |p.rows| then p.rows + [BlankRow(p.color)] else p.rows, row := p.row + 1)
  }

  function WriteCell(p: Page, c: ascii): (r: Page)
    requires p.Valid()
    ensures r.Valid()
  {
    p.(rows := p.rows[p.row := p.rows[p.row][p.column := Entry(c, p.color)]])
  }

  /** One column on, or to the start of the next row. */
  function Advance(p: Page): Page {
    if p.column + 1 == WIDTH then LineFeed(p).(column := 0) else p.(column := p.column + 1)
  }

  function Print(p: Page, c: ascii): (r: Page)
    requires p.Valid()
    ensures r.Valid()
  {
    Advance(WriteCell(p, c))
  }

  function Spaces(p: Page, n: nat): (r: Page)
    requires p.Valid()
    ensures r.Valid()
  {
    if n == 0 then p else Print(Spaces(p, n - 1), SPACE)
  }

  /** The columns from `column` to the next multiple of four. */
  function TabWidth(column: int): int {
    4 - column % 4
  }

  /** There is no character on this line to take back. */
  predicate NothingToErase(p: Page, c: ascii) {
    c == BACKSPACE && p.column == 0
  }

  function Put(p: Page, c: ascii): (r: Page)
    requires p.Valid() && !NothingToErase(p, c)
    ensures r.Valid()
  {
    if c == RETURN then p.(column := 0)
    else if c == NEWLINE then LineFeed(p)
    else if c == TAB then Spaces(p, TabWidth(p.column))
    else if c == BELL || c == DELETE then p
    else if c == BACKSPACE then WriteCell(p.(column := p.column - 1), SPACE)
    else Print(p, c)
  }

  /** No character of `s` is a backspace met at the start of a line. */
  ghost predicate Clean(p: Page, s: seq<ascii>)
    requires p.Valid()
    decreases |s|
  {
    s != [] ==> !NothingToErase(p, s[0]) && Clean(Put(p, s[0]), s[1..])
  }

  function PutAll(p: Page, s: seq<ascii>): (r: Page)
    requires p.Valid() && Clean(p, s)
    ensures r.Valid()
    decreases |s|
  {
    if s == [] then p else PutAll(Put(p, s[0]), s[1..])
  }

  /** A run can be cut anywhere: it comes to the first part, and from there to the second. */
  lemma {:induction false} PutAllAppend(p: Page, s: seq<ascii>, t: seq<ascii>)
    requires p.Valid()
    ensures Clean(p, s + t) <==> Clean(p, s) && Clean(PutAll(p, s), t)
    ensures Clean(p, s + t) ==> PutAll(p, s + t) == PutAll(PutAll(p, s), t)
    decreases |s|
  {
    hide Put;
    if s == [] {
      assert s + t == t;
    } else {
      assert (s + t)[1..] == s[1..] + t;
      if !NothingToErase(p, s[0]) {
        PutAllAppend(Put(p, s[0]), s[1..], t);
      }
    }
  }

  lemma PutOne(p: Page, c: ascii)
    requires p.Valid()
    ensures Clean(p, [c]) <==> !NothingToErase(p, c)
    ensures Clean(p, [c]) ==> PutAll(p, [c]) == Put(p, c)
  {
    assert [c][1..] == [];
  }

  // ---------------------------------------------------------------- what the page records

  lemma {:induction false} SpacesKeep(p: Page, n: nat)
    requires p.Valid()
    ensures var q := Spaces(p, n);
      p.row <= q.row && |p.rows| <= |q.rows| && forall i :: 0 <= i < p.row ==> q.rows[i] == p.rows[i]
  {
    if n > 0 {
      SpacesKeep(p, n - 1);
    }
  }

  /** A row the cursor has left never changes again, and the cursor never goes back up. */
  lemma {:induction false} HistoryKept(p: Page, s: seq<ascii>)
    requires p.Valid() && Clean(p, s)
    ensures var q := PutAll(p, s);
      p.row <= q.row && |p.rows| <= |q.rows| && forall i :: 0 <= i < p.row ==> q.rows[i] == p.rows[i]
    decreases |s|
  {
    if s != [] {
      SpacesKeep(p, TabWidth(p.column));
      HistoryKept(Put(p, s[0]), s[1..]);
    }
  }

  lemma PrintStep(p: Page, c: ascii)
    requires p.Valid()
    ensures var q := Print(p, c);
      && q.Position() == p.Position() + 1 && q.color == p.color && |p.rows| <= |q.rows|
      && q.At(p.Position()) == Entry(c, p.color)
      && forall j :: 0 <= j < p.Position() ==> q.At(j) == p.At(j)
  {}

  lemma PutPrints(p: Page, c: ascii)
    requires p.Valid() && Printable(c)
    ensures !NothingToErase(p, c) && Put(p, c) == Print(p, c)
  {}

  /** Printed text runs on from cell to cell, over the ends of lines, and leaves the cells before it. */
  lemma {:induction false} TextRunsOn(p: Page, s: seq<ascii>)
    requires p.Valid() && forall i :: 0 <= i < |s| ==> Printable(s[i])
    ensures Clean(p, s)
    ensures var q := PutAll(p, s);
      && q.Position() == p.Position() + |s| && q.color == p.color
      && (forall k :: 0 <= k < |s| ==> q.At(p.Position() + k) == Entry(s[k], p.color))
      && (forall j :: 0 <= j < p.Position() ==> q.At(j) == p.At(j))
    decreases |s|
  {
    hide Put, Print, Page.At;
    if s != [] {
      var next := Put(p, s[0]);
      PutPrints(p, s[0]);
      PrintStep(p, s[0]);
      TextRunsOn(next, s[1..]);
      var q := PutAll(p, s);
      forall k | 0 <= k < |s|
        ensures q.At(p.Position() + k) == Entry(s[k], p.color)
      {
        if k > 0 {
          assert q.At(next.Position() + (k - 1)) == Entry(s[1..][k - 1], p.color);
        }
      }
    }
  }
}
