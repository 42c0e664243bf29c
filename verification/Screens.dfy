/** The 80x25 screen as tty_putchar leaves it (arch/x86/lib/tty.c:65-127 and 169-182, PM_DRIVERS), for
    every character and every cursor, on the screen or off it; and what it shows of the ideal page. */
module Screens {
  import opened IdealTerminal

  const CELLS: int := WIDTH * HEIGHT
  const SIZE_T: int := 0x1_0000_0000

  /** The cells of the video memory, the cursor (two size_t), and whether a cell outside has been written. */
  datatype Screen = Screen(cells: seq<int>, row: int, column: int, color: int, missed: bool) {
    ghost predicate Valid() {
      |cells| == CELLS && 0 <= row < SIZE_T && 0 <= column < SIZE_T && 0 <= color < 0x100
    }

    predicate OnScreen() {
      0 <= row < HEIGHT && 0 <= column < WIDTH
    }

    /** vga.c:57 */
    function Index(): int {
      (row * WIDTH + column) % SIZE_T
    }
  }

  function BlankCells(color: int): (cells: seq<int>)
    ensures |cells| == CELLS && forall i :: 0 <= i < CELLS ==> cells[i] == Entry(SPACE, color)
  {
    seq(CELLS, i => Entry(SPACE, color))
  }

  function BlankScreen(color: int): Screen {
    Screen(BlankCells(color), 0, 0, color, false)
  }

  // ---------------------------------------------------------------- one character

  /** vga_putchar at the cursor, which may lie anywhere. */
  function Stored(s: Screen, c: ascii): (r: Screen)
    requires s.Valid()
    ensures r.Valid() && r.row == s.row && r.column == s.column && r.color == s.color
  {
    var i := s.Index();
    if i < CELLS then s.(cells := s.cells[i := Entry(c, s.color)]) else s.(missed := true)
  }

  function ScrolledUp(cells: seq<int>, color: int): (r: seq<int>)
    requires |cells| == CELLS
    ensures |r| == CELLS
  {
    cells[WIDTH..] + BlankRow(color)
  }

  /** scrollifneeded: both tests are for equality. */
  function Settled(s: Screen): (r: Screen)
    requires s.Valid()
    ensures r.Valid() && r.color == s.color && r.missed == s.missed
  {
    var t := if s.column == WIDTH then s.(column := 0, row := (s.row + 1) % SIZE_T) else s;
    if t.row == HEIGHT then t.(cells := ScrolledUp(t.cells, t.color), row := t.row - 1) else t
  }

  function Printed(s: Screen, c: ascii): (r: Screen)
    requires s.Valid()
    ensures r.Valid()
  {
    Settled(Stored(s, c).(column := (s.column + 1) % SIZE_T))
  }

  function PrintedSpaces(s: Screen, n: nat): (r: Screen)
    requires s.Valid()
    ensures r.Valid()
  {
    if n == 0 then s else Printed(PrintedSpaces(s, n - 1), SPACE)
  }

  /** Where a backspace takes the cursor: from the start of a row to column 80 of the one above. */
  function Back(s: Screen): Screen {
    if s.column == 0 && s.row != 0 then s.(row := s.row - 1, column := WIDTH)
    else s.(column := (s.column - 1) % SIZE_T)
  }

  function Typed(s: Screen, c: ascii): (r: Screen)
    requires s.Valid()
    ensures r.Valid()
  {
    if c == RETURN then s.(column := 0)
    else if c == NEWLINE then Settled(s.(row := (s.row + 1) % SIZE_T))
    else if c == TAB then PrintedSpaces(s, TabWidth(s.column))
    else if c == BELL || c == DELETE then s
    else if c == BACKSPACE then Stored(Back(s), SPACE)
    else Printed(s, c)
  }

  function TypedAll(s: Screen, str: seq<ascii>): (r: Screen)
    requires s.Valid()
    ensures r.Valid()
    decreases |str|
  {
    if str == [] then s else TypedAll(Typed(s, str[0]), str[1..])
  }

  lemma {:induction false} TypedAppend(s: Screen, str: seq<ascii>, more: seq<ascii>)
    requires s.Valid()
    ensures TypedAll(s, str + more) == TypedAll(TypedAll(s, str), more)
    decreases |str|
  {
    hide Typed;
    if str == [] {
      assert str + more == more;
    } else {
      assert (str + more)[1..] == str[1..] + more;
      TypedAppend(Typed(s, str[0]), str[1..], more);
    }
  }

  lemma TypedSnoc(s: Screen, str: seq<ascii>, i: nat)
    requires s.Valid() && i < |str|
    ensures TypedAll(s, str[..i + 1]) == Typed(TypedAll(s, str[..i]), str[i])
  {
    hide Typed;
    assert str[..i + 1] == str[..i] + [str[i]];
    TypedAppend(s, str[..i], [str[i]]);
    assert [str[i]][1..] == [];
  }

  // ---------------------------------------------------------------- the screen shows the page

  ghost predicate Shape(rows: seq<seq<int>>) {
    |rows| >= HEIGHT && forall i :: 0 <= i < |rows| ==> |rows[i]| == WIDTH
  }

  /** Cell `i` is that of the last 25 rows. */
  ghost predicate Painted(rows: seq<seq<int>>, cells: seq<int>, i: int)
    requires Shape(rows) && |cells| == CELLS && 0 <= i < CELLS
  {
    cells[i] == rows[|rows| - HEIGHT + i / WIDTH][i % WIDTH]
  }

  ghost predicate Paints(rows: seq<seq<int>>, cells: seq<int>) {
    Shape(rows) && |cells| == CELLS && forall i :: 0 <= i < CELLS ==> Painted(rows, cells, i)
  }

  /** The screen is the last 25 rows of the page, and the cursor is where the page's is. */
  ghost predicate Shows(p: Page, s: Screen) {
    && Paints(p.rows, s.cells) && p.Valid() && s.Valid() && s.color == p.color
    && s.row == p.row - p.Top() && s.column == p.column
  }

  lemma BlankShows(color: int)
    requires 0 <= color < 0x100
    ensures Shows(EmptyPage(color), BlankScreen(color))
  {}

  /** A line scrolled up is a blank row more on the page. */
  lemma ScrollPaints(rows: seq<seq<int>>, cells: seq<int>, color: int)
    requires Paints(rows, cells)
    ensures Paints(rows + [BlankRow(color)], ScrolledUp(cells, color))
  {
    var more, up := rows + [BlankRow(color)], ScrolledUp(cells, color);
    forall i | 0 <= i < CELLS
      ensures Painted(more, up, i)
    {
      if i < CELLS - WIDTH {
        assert Painted(rows, cells, i + WIDTH);
      }
    }
  }

  lemma CellPaints(rows: seq<seq<int>>, cells: seq<int>, row: int, column: int, entry: int)
    requires Paints(rows, cells) && 0 <= row < HEIGHT && 0 <= column < WIDTH
    ensures var y := |rows| - HEIGHT + row;
      Paints(rows[y := rows[y][column := entry]], cells[row * WIDTH + column := entry])
  {
    var y := |rows| - HEIGHT + row;
    var r, c := rows[y := rows[y][column := entry]], cells[row * WIDTH + column := entry];
    forall i | 0 <= i < CELLS
      ensures Painted(r, c, i)
    {
      assert Painted(rows, cells, i);
    }
  }

  lemma StoredShows(p: Page, s: Screen, c: ascii)
    requires Shows(p, s)
    ensures Shows(WriteCell(p, c), Stored(s, c)) && Stored(s, c).missed == s.missed
  {
    hide Painted;
    assert s.Index() == s.row * WIDTH + s.column < CELLS;
    CellPaints(p.rows, s.cells, s.row, s.column, Entry(c, p.color));
  }

  /** scrollifneeded with the cursor one row down. */
  lemma DownShows(p: Page, s: Screen)
    requires Shows(p, s)
    ensures Shows(LineFeed(p), Settled(s.(row := s.row + 1)))
  {
    hide Painted;
    ScrollPaints(p.rows, s.cells, s.color);
  }

  /** And one column on. */
  lemma OnShows(p: Page, s: Screen)
    requires Shows(p, s)
    ensures Shows(Advance(p), Settled(s.(column := s.column + 1)))
  {
    hide Paints, ScrolledUp;
    if s.column + 1 == WIDTH {
      var t := s.(column := 0);
      DownShows(p.(column := 0), t);
      assert Settled(s.(column := WIDTH)) == Settled(t.(row := s.row + 1));
    }
  }

  lemma PrintedShows(p: Page, s: Screen, c: ascii)
    requires Shows(p, s)
    ensures Shows(Print(p, c), Printed(s, c)) && Printed(s, c).missed == s.missed
  {
    hide Paints;
    StoredShows(p, s, c);
    OnShows(WriteCell(p, c), Stored(s, c));
  }

  lemma {:induction false} SpacesShow(p: Page, s: Screen, n: nat)
    requires Shows(p, s)
    ensures Shows(Spaces(p, n), PrintedSpaces(s, n)) && PrintedSpaces(s, n).missed == s.missed
  {
    hide Paints, Print, Printed;
    if n > 0 {
      SpacesShow(p, s, n - 1);
      PrintedShows(Spaces(p, n - 1), PrintedSpaces(s, n - 1), SPACE);
    }
  }

  /** Every character does on the screen what it does on the page, unless it is a backspace that finds
      nothing to erase: that one takes the cursor off the screen. */
  lemma TypedShows(p: Page, s: Screen, c: ascii)
    requires Shows(p, s)
    ensures Typed(s, c).OnScreen() <==> !NothingToErase(p, c)
    ensures !NothingToErase(p, c) ==> Shows(Put(p, c), Typed(s, c)) && Typed(s, c).missed == s.missed
  {
    hide Paints, LineFeed, Advance, Settled, Stored, Spaces, PrintedSpaces, Printed, Print, WriteCell;
    if c == NEWLINE {
      DownShows(p, s);
    } else if c == TAB {
      SpacesShow(p, s, TabWidth(s.column));
    } else if c == BACKSPACE {
      if p.column > 0 {
        StoredShows(p.(column := p.column - 1), Back(s), SPACE);
      }
    } else if Printable(c) {
      PrintedShows(p, s, c);
    }
  }

  // ---------------------------------------------------------------- every run

  /** A clean run does on the screen what it does on the page, and writes no cell outside. */
  lemma {:induction false} CleanRunShows(p: Page, s: Screen, str: seq<ascii>)
    requires Shows(p, s) && Clean(p, str)
    ensures Shows(PutAll(p, str), TypedAll(s, str)) && TypedAll(s, str).missed == s.missed
    decreases |str|
  {
    hide Paints, Put, Typed;
    if str != [] {
      TypedShows(p, s, str[0]);
      CleanRunShows(Put(p, str[0]), Typed(s, str[0]), str[1..]);
    }
  }

  /** The cursor is on the screen after every part of the run. */
  ghost predicate StaysOn(s: Screen, str: seq<ascii>)
    requires s.Valid()
  {
    forall i :: 0 <= i <= |str| ==> TypedAll(s, str[..i]).OnScreen()
  }

  /** The cursor stays on the screen over a run if and only if no backspace of it finds nothing to erase. */
  lemma {:induction false} StaysOnIff(p: Page, s: Screen, str: seq<ascii>)
    requires Shows(p, s)
    ensures StaysOn(s, str) <==> Clean(p, str)
    decreases |str|
  {
    hide Put, Typed, Paints;
    if str == [] {
      assert forall i :: 0 <= i <= |str| ==> str[..i] == [];
    } else {
      TypedShows(p, s, str[0]);
      FirstTyped(s, str);
      if !NothingToErase(p, str[0]) {
        StaysOnIff(Put(p, str[0]), Typed(s, str[0]), str[1..]);
      }
    }
  }

  lemma FirstTyped(s: Screen, str: seq<ascii>)
    requires s.Valid() && str != []
    ensures StaysOn(s, str) <==> s.OnScreen() && StaysOn(Typed(s, str[0]), str[1..])
    ensures StaysOn(s, str) ==> Typed(s, str[0]).OnScreen()
  {
    hide Typed;
    var t, rest := Typed(s, str[0]), str[1..];
    forall i | 0 < i <= |str|
      ensures TypedAll(s, str[..i]) == TypedAll(t, rest[..i - 1])
    {
      assert str[..i][1..] == rest[..i - 1];
    }
    assert str[..0] == [] && rest[..0] == [];
    if StaysOn(s, str) {
      forall i | 0 <= i <= |rest|
        ensures TypedAll(t, rest[..i]).OnScreen()
      {
        assert TypedAll(s, str[..i + 1]).OnScreen();
      }
      assert TypedAll(t, rest[..0]).OnScreen();
    }
  }

  /** Printed text stands right before the cursor, over the ends of lines and through every scroll. */
  lemma TextCells(p: Page, s: Screen, text: seq<ascii>)
    requires Shows(p, s) && forall i :: 0 <= i < |text| ==> Printable(text[i])
    ensures var r := TypedAll(s, text);
      && r.OnScreen() && r.color == s.color && r.missed == s.missed
      && forall k :: 0 <= k < |text| && 0 <= r.row * WIDTH + r.column - (|text| - k) ==>
           r.cells[r.row * WIDTH + r.column - (|text| - k)] == Entry(text[k], s.color)
  {
    hide Put, Print, Typed, Printed, Page.At, Paints, Printable;
    TextRunsOn(p, text);
    CleanRunShows(p, s, text);
    var q, r := PutAll(p, text), TypedAll(s, text);
    forall k | 0 <= k < |text| && 0 <= r.row * WIDTH + r.column - (|text| - k)
      ensures r.cells[r.row * WIDTH + r.column - (|text| - k)] == Entry(text[k], s.color)
    {
      assert q.At(p.Position() + k) == Entry(text[k], p.color);
      PageCell(q, r, r.row * WIDTH + r.column - (|text| - k));
    }
  }

  lemma PageCell(q: Page, r: Screen, i: nat)
    requires Shows(q, r) && i < CELLS
    ensures r.cells[i] == q.At(q.Top() * WIDTH + i)
  {
    assert Painted(q.rows, r.cells, i);
    assert (q.Top() * WIDTH + i) / WIDTH == q.Top() + i / WIDTH;
  }

  // ---------------------------------------------------------------- cells outside the video memory

  /** From a screen that shows a page, one character writes a cell outside if and only if it is a
      backspace in the top left corner. */
  lemma CornerMisses(p: Page, s: Screen, c: ascii)
    requires Shows(p, s) && !s.missed
    ensures Typed(s, c).missed <==> c == BACKSPACE && s.row == 0 && s.column == 0
  {
    hide Paints;
    TypedShows(p, s, c);
  }

  /** `n` times the letter a. */
  function Letters(n: nat): (str: seq<ascii>)
    ensures |str| == n && forall i :: 0 <= i < n ==> str[i] == 97
  {
    if n == 0 then [] else [97] + Letters(n - 1)
  }

  lemma LettersRest(s: Screen, n: nat)
    requires s.Valid() && n > 0
    ensures TypedAll(s, Letters(n)) == TypedAll(Typed(s, 97), Letters(n - 1))
  {
    hide Typed;
    assert Letters(n)[1..] == Letters(n - 1);
  }

  lemma LetterPast(s: Screen)
    requires s.Valid() && s.row == 0 && WIDTH <= s.column < SIZE_T - 1
    ensures var t := Typed(s, 97);
      t.row == 0 && t.column == s.column + 1 && t.missed == (s.missed || s.column >= CELLS)
  {}

  /** Past column 79 of the first row the column only grows: its test for the width is for equality. */
  lemma {:induction false} PrintsPast(s: Screen, n: nat)
    requires s.Valid() && !s.missed
    requires s.row == 0 && WIDTH <= s.column <= CELLS && s.column + n < SIZE_T
    ensures var r := TypedAll(s, Letters(n));
      r.row == 0 && r.column == s.column + n && (r.missed <==> s.column + n > CELLS)
    decreases n
  {
    hide Typed;
    if n > 0 {
      var t := Typed(s, 97);
      LetterPast(s);
      LettersRest(s, n);
      if s.column < CELLS {
        PrintsPast(t, n - 1);
      } else {
        MissedForGood(t, n - 1);
      }
    }
  }

  lemma {:induction false} MissedForGood(s: Screen, n: nat)
    requires s.Valid() && s.missed && s.row == 0 && WIDTH <= s.column && s.column + n < SIZE_T
    ensures var r := TypedAll(s, Letters(n)); r.missed && r.row == 0 && r.column == s.column + n
    decreases n
  {
    hide Typed;
    if n > 0 {
      LetterPast(s);
      LettersRest(s, n);
      MissedForGood(Typed(s, 97), n - 1);
    }
  }

  /** A backspace at the start of the second row, and letters: the 1921st is written outside, with no
      backspace in the top left corner. */
  lemma MissesLater(n: nat)
    requires n < SIZE_T - CELLS
    ensures TypedAll(BlankScreen(2), [NEWLINE, BACKSPACE] + Letters(n)).missed <==> n > 1920
  {
    hide Typed, Letters;
    var s, str := BlankScreen(2), [NEWLINE, BACKSPACE] + Letters(n);
    var t := OffScreen();
    assert str[1..][1..] == Letters(n);
    PrintsPast(t, n);
  }

  lemma OffScreen() returns (t: Screen)
    ensures t == Typed(Typed(BlankScreen(2), NEWLINE), BACKSPACE)
    ensures t.row == 0 && t.column == WIDTH && !t.missed
  {
    t := Typed(Typed(BlankScreen(2), NEWLINE), BACKSPACE);
  }

  /** A newline at column 80 of the last row goes down two rows, and past the test for the height. */
  lemma RowLost(s: Screen)
    requires s.Valid() && s.row == HEIGHT - 1 && s.column == WIDTH
    ensures Typed(s, NEWLINE) == s.(row := HEIGHT + 1, column := 0)
  {}
}
