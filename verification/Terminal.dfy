/** The 80x25 VGA text terminal (arch/x86/lib/vga.c and the PM_DRIVERS path of arch/x86/lib/tty.c),
    proved to do what module Screens says. */
module Terminal {
  import opened Options
  import opened Memory
  import opened IdealTerminal
  import opened Screens
  import opened Bits

  /** The 16-bit cell `i` of the video memory. */
  function Cell(m: seq<byte>, i: int): (entry: int)
    requires 0 <= i && 2 * i + 1 < |m|
    ensures 0 <= entry < 0x1_0000
  {
    var low: int, high: int := m[2 * i], m[2 * i + 1];
    low + 0x100 * high
  }

  /** A byte move between even addresses is a move of cells. */
  lemma CellsMoved(m: seq<byte>, r: seq<byte>, dst: nat, src: nat, n: nat)
    requires 2 * (dst + n) <= |m| == |r| && 2 * (src + n) <= |m|
    requires Moved(m, r, 2 * dst, 2 * src, 2 * n)
    ensures forall i :: dst <= i < dst + n ==> Cell(r, i) == Cell(m, i - dst + src)
  {}

  /** vga_create_entry, vga.c:22-23, in memory: the character, and the colour behind it. */
  lemma EntryBytes(m: seq<byte>, i: int, c: ascii, color: byte)
    requires 0 <= i && 2 * i + 1 < |m| && Cell(m, i) == Entry(c, color)
    ensures m[2 * i] == c && m[2 * i + 1] == color
  {}

  /** vga_colorentry, vga.c:19-20, with the operators of the source: two fields of four bits. */
  lemma ColorBits(fg: nat, bg: nat)
    ensures Or(And(0xf, fg), Shl(bg, 4)) % 0x100 == fg % 0x10 + bg % 0x10 * 0x10
  {
    hide And, Or, Shl, Shr, Mask;
    LowBits(fg);
    AndSwaps(0xf, fg);
    Shifts(fg % 0x10);
    Shifts(bg);
    OrApart(bg, fg % 0x10, 4);
    OrSwaps(fg % 0x10, Shl(bg, 4));
    CutToByte(fg % 0x10, bg);
  }

  lemma CutToByte(f: nat, bg: nat)
    requires f < 0x10
    ensures (0x10 * bg + f) % 0x100 == f + bg % 0x10 * 0x10
  {
    var q, r := bg / 0x10, bg % 0x10;
    assert 0x10 * bg + f == 0x100 * q + (0x10 * r + f);
  }

  class Vga {
    const bufaddr: array<byte>
    var color: byte
    var crtIndex: byte    // register selected through port 0x3d4
    var cursorHigh: byte  // cursor location registers 0xe and 0xf
    var cursorLow: byte

    constructor ()
      ensures fresh(bufaddr) && bufaddr.Length == 2 * CELLS
    {
      bufaddr := new byte[2 * CELLS];
      color, crtIndex, cursorHigh, cursorLow := 15, 0, 0, 0;
    }

    ghost predicate Valid() {
      bufaddr.Length == 2 * CELLS
    }

    function CellAt(i: int): int
      requires Valid() && 0 <= i < CELLS
      reads bufaddr
    {
      Cell(bufaddr[..], i)
    }

    ghost function Cells(): seq<int>
      requires Valid()
      reads bufaddr
    {
      var m := bufaddr[..];
      seq(CELLS, i requires 0 <= i < CELLS => Cell(m, i))
    }

    lemma CellsAre(cells: seq<int>)
      requires Valid() && |cells| == CELLS && forall i :: 0 <= i < CELLS ==> CellAt(i) == cells[i]
      ensures Cells() == cells
    {}

    function Cursor(): int
      reads this
    {
      var high: int := cursorHigh;
      high * 0x100 + cursorLow
    }

    /** vga.c:43-46: the foreground in the low four bits, the background in the high four. */
    method SetColor(fg: nat, bg: nat)
      modifies this`color
      ensures color % 0x10 == fg % 0x10 && color / 0x10 == bg % 0x10
    {
      ColorBits(fg, bg);
      color := Or(And(0xf, fg), Shl(bg, 4)) % 0x100;
    }

    method StoreCell(index: int, entry: int)
      requires Valid() && 0 <= index < CELLS && 0 <= entry < 0x1_0000
      modifies bufaddr
      ensures forall i :: 0 <= i < CELLS ==> CellAt(i) == if i == index then entry else old(CellAt(i))
      ensures bufaddr[2 * index] == entry % 0x100 && bufaddr[2 * index + 1] == entry / 0x100
    {
      bufaddr[2 * index] := entry % 0x100;
      bufaddr[2 * index + 1] := entry / 0x100;
    }

    /** vga.c:55-59 */
    method PutChar(c: ascii, x: int, y: int)
      requires Valid() && 0 <= (y * WIDTH + x) % SIZE_T < CELLS
      modifies bufaddr
      ensures forall i :: 0 <= i < CELLS ==>
          CellAt(i) == if i == (y * WIDTH + x) % SIZE_T then Entry(c, color) else old(CellAt(i))
      ensures var i := (y * WIDTH + x) % SIZE_T; bufaddr[2 * i] == c && bufaddr[2 * i + 1] == color
    {
      StoreCell((y * WIDTH + x) % SIZE_T, Entry(c, color));
      EntryBytes(bufaddr[..], (y * WIDTH + x) % SIZE_T, c, color);
    }

    /** NULL, or as many 16-bit cells as a line has. */
    ghost predicate IsLine(with: Option<seq<int>>) {
      with.Some? ==> |with.value| == WIDTH && forall x :: 0 <= x < WIDTH ==> 0 <= with.value[x] < 0x1_0000
    }

    /** What vga_fillline puts in column `x`. */
    function Fill(with: Option<seq<int>>, x: int): int
      requires 0 <= x < WIDTH && (with.Some? ==> |with.value| == WIDTH)
      reads this`color
    {
      if with.Some? then with.value[x] else Entry(SPACE, color)
    }

    /** vga.c:61-70 */
    method FillLine(y: int, with: Option<seq<int>>)
      requires Valid() && 0 <= y < HEIGHT
      requires IsLine(with)
      modifies bufaddr
      ensures forall i :: 0 <= i < CELLS ==>
          CellAt(i) == if i / WIDTH != y then old(CellAt(i))
                       else if with.Some? then with.value[i % WIDTH]
                       else Entry(SPACE, color)
    {
      for x := 0 to WIDTH
        invariant forall i :: 0 <= i < CELLS ==>
            CellAt(i) == if i / WIDTH == y && i % WIDTH < x then Fill(with, i % WIDTH) else old(CellAt(i))
      {
        StoreCell(WIDTH * y + x, Fill(with, x));
      }
    }

    /** vga.c:72-81 */
    method ClearScreen()
      requires Valid()
      modifies bufaddr
      ensures forall i :: 0 <= i < CELLS ==> CellAt(i) == Entry(SPACE, color)
      ensures forall i :: 0 <= i < CELLS ==> bufaddr[2 * i] == 32 && bufaddr[2 * i + 1] == color
    {
      var addr := 0;
      while addr != CELLS
        invariant 0 <= addr <= CELLS
        invariant forall i :: 0 <= i < addr ==> CellAt(i) == Entry(SPACE, color)
      {
        StoreCell(addr, Entry(SPACE, color));
        addr := addr + 1;
      }
      forall i | 0 <= i < CELLS
        ensures bufaddr[2 * i] == 32 && bufaddr[2 * i + 1] == color
      {
        assert CellAt(i) == Entry(SPACE, color);
        EntryBytes(bufaddr[..], i, SPACE, color);
      }
    }

    /** vga.c:83-90: one line whatever `n`. The ascending copy is a correct move to a lower address. */
    method ScrollUp(n: nat, fillwith: Option<seq<int>>)
      requires Valid() && n > 0
      requires IsLine(fillwith)
      modifies bufaddr
      ensures forall i :: 0 <= i < CELLS ==>
          CellAt(i) == if i < CELLS - WIDTH then old(CellAt(i + WIDTH))
                       else if fillwith.Some? then fillwith.value[i % WIDTH]
                       else Entry(SPACE, color)
    {
      hide CopyUp;
      ghost var m := bufaddr[..];
      MemCpy(bufaddr, 0, 2 * WIDTH, 2 * WIDTH * (HEIGHT - 1));
      CopyUpMoves(m, 0, 2 * WIDTH, 2 * WIDTH * (HEIGHT - 1));
      CellsMoved(m, bufaddr[..], 0, WIDTH, WIDTH * (HEIGHT - 1));
      FillLine(HEIGHT - 1, fillwith);
    }

    /** vga.c:92-99: the descending copy is a correct move to a higher address. */
    method ScrollDown(n: nat, fillwith: Option<seq<int>>)
      requires Valid() && n > 0
      requires IsLine(fillwith)
      modifies bufaddr
      ensures forall i :: 0 <= i < CELLS ==>
          CellAt(i) == if i >= WIDTH then old(CellAt(i - WIDTH))
                       else if fillwith.Some? then fillwith.value[i % WIDTH]
                       else Entry(SPACE, color)
    {
      hide CopyDown;
      ghost var m := bufaddr[..];
      MemCpyRev(bufaddr, 2 * WIDTH, 0, 2 * WIDTH * (HEIGHT - 1));
      CopyDownMoves(m, 2 * WIDTH, 0, 2 * WIDTH * (HEIGHT - 1));
      CellsMoved(m, bufaddr[..], WIDTH, 0, WIDTH * (HEIGHT - 1));
      FillLine(0, fillwith);
    }

    /** The CRT controller: port 0x3d4 selects a register, port 0x3d5 writes it. */
    method Outb(port: int, value: byte)
      modifies this`crtIndex, this`cursorHigh, this`cursorLow
      ensures crtIndex == if port == 0x3d4 then value else old(crtIndex)
      ensures cursorHigh == if port == 0x3d5 && old(crtIndex) == 0xe then value else old(cursorHigh)
      ensures cursorLow == if port == 0x3d5 && old(crtIndex) == 0xf then value else old(cursorLow)
    {
      if port == 0x3d4 {
        crtIndex := value;
      } else if port == 0x3d5 && crtIndex == 0xe {
        cursorHigh := value;
      } else if port == 0x3d5 && crtIndex == 0xf {
        cursorLow := value;
      }
    }

    /** vga.c:101-113, with the position cut to 16 bits. */
    method MvCursor(x: int, y: int)
      modifies this`crtIndex, this`cursorHigh, this`cursorLow
      ensures Cursor() == (y * WIDTH + x) % 0x1_0000
      ensures cursorHigh == (y * WIDTH + x) % 0x1_0000 / 0x100 && cursorLow == (y * WIDTH + x) % 0x1_0000 % 0x100
    {
      var linear := (y * WIDTH + x) % 0x1_0000;
      Outb(0x3d4, 0xe);
      Outb(0x3d5, linear / 0x100);
      Outb(0x3d4, 0xf);
      Outb(0x3d5, linear % 0x100);
    }
  }

  // ---------------------------------------------------------------- tty.c

  class Tty {
    const vga: Vga
    var row: int
    var column: int
    ghost var missed: bool  // a cell outside the video memory has been written

    /** The hardware cursor is where this one is, in 16 bits. */
    ghost predicate Valid()
      reads this, vga
    {
      && vga.Valid() && 0 <= row < SIZE_T && 0 <= column < SIZE_T
      && vga.Cursor() == (row * WIDTH + column) % 0x1_0000
    }

    ghost function State(): Screen
      requires vga.Valid()
      reads this, vga, vga.bufaddr
    {
      Screen(vga.Cells(), row, column, vga.color, missed)
    }

    /** tty_initialize, tty.c:28-49 */
    constructor ()
      ensures Valid() && fresh(vga) && fresh(vga.bufaddr)
      ensures State() == BlankScreen(2)
    {
      vga := new Vga();
      row, column, missed := 0, 0, false;
      new;
      vga.SetColor(2, 0);
      ClearScreen();
    }

    /** tty.c:51-63 */
    method SetTextColor(fg: nat, bg: nat)
      requires Valid()
      modifies vga`color
      ensures Valid() && vga.color % 0x10 == fg % 0x10 && vga.color / 0x10 == bg % 0x10
      ensures State() == old(State()).(color := vga.color)
    {
      vga.SetColor(fg, bg);
    }

    /** tty.c:151-157 */
    method ClearScreen()
      requires vga.Valid()
      modifies this, vga, vga.bufaddr
      ensures Valid() && State() == BlankScreen(vga.color).(missed := old(missed)) && vga.color == old(vga.color)
    {
      row, column := 0, 0;
      vga.ClearScreen();
      vga.CellsAre(BlankCells(vga.color));
      vga.MvCursor(0, 0);
    }

    /** vga_putchar at the cursor; beyond the video memory nothing is modelled. */
    method Store(c: ascii)
      requires vga.Valid() && State().Valid()
      modifies this`missed, vga.bufaddr
      ensures State() == Stored(old(State()), c)
    {
      ghost var cells := vga.Cells();
      if (row * WIDTH + column) % SIZE_T < CELLS {
        vga.PutChar(c, column, row);
        vga.CellsAre(cells[(row * WIDTH + column) % SIZE_T := Entry(c, vga.color)]);
      } else {
        missed := true;
      }
    }

    /** tty.c:169-182 */
    method ScrollIfNeeded()
      requires vga.Valid() && State().Valid()
      modifies this`row, this`column, vga, vga.bufaddr
      ensures Valid() && State() == Settled(old(State()))
    {
      if column == WIDTH {
        column := 0;
        row := (row + 1) % SIZE_T;
      }
      if row == HEIGHT {
        ghost var cells := vga.Cells();
        vga.ScrollUp(1, None);
        vga.CellsAre(ScrolledUp(cells, vga.color));
        row := row - 1;
      }
      vga.MvCursor(column, row);
    }

    /** tty_putchar, tty.c:65-127, wherever the cursor is. */
    method PutChar(c: ascii)
      requires Valid() && State().Valid()
      modifies this, vga, vga.bufaddr
      ensures Valid() && State() == Typed(old(State()), c)
      decreases c == TAB, 1
    {
      if c == RETURN {
        column := 0;
        vga.MvCursor(0, row);
      } else if c == NEWLINE {
        row := (row + 1) % SIZE_T;
        ScrollIfNeeded();
      } else if c == TAB {
        PutTab();
      } else if c == BELL || c == DELETE {
      } else if c == BACKSPACE {
        Erase();
      } else {
        PrintChar(c);
      }
    }

    /** tty.c:85-92, in 32 bits: the sum may wrap, the difference is right. */
    method PutTab()
      requires Valid() && State().Valid()
      modifies this, vga, vga.bufaddr
      ensures Valid() && State() == PrintedSpaces(old(State()), TabWidth(old(column)))
      decreases true, 0
    {
      hide PrintedSpaces;
      ghost var s := State();
      var shifting := ((column + 4) % SIZE_T / 4 * 4 - column) % SIZE_T;
      TabShift(column);
      NoSpaces(s);
      for i := 0 to shifting
        invariant Valid() && State() == PrintedSpaces(s, i)
      {
        MoreSpaces(s, i);
        PutChar(SPACE);
      }
    }

    /** tty.c:100-112 */
    method Erase()
      requires Valid() && State().Valid()
      modifies this, vga, vga.bufaddr
      ensures Valid() && State() == Stored(Back(old(State())), SPACE)
    {
      if column == 0 && row != 0 {
        row := row - 1;
        column := WIDTH;
      } else {
        column := (column - 1) % SIZE_T;
      }
      Store(SPACE);
      vga.MvCursor(column, row);
    }

    /** tty.c:120-126 */
    method PrintChar(c: ascii)
      requires Valid() && State().Valid()
      modifies this, vga, vga.bufaddr
      ensures Valid() && State() == Printed(old(State()), c)
    {
      Store(c);
      column := (column + 1) % SIZE_T;
      ScrollIfNeeded();
    }

    /** putsdelim, libc/stdio/basic_out.c:19-27: the characters before the delimiter are put. */
    method PutsDelim(str: seq<ascii>, delim: ascii, ghost n: nat)
      requires Valid() && State().Valid()
      requires n < |str| && str[n] == delim && delim !in str[..n]
      modifies this, vga, vga.bufaddr
      ensures Valid() && State() == TypedAll(old(State()), str[..n])
    {
      hide Typed, TypedAll;
      ghost var s := State();
      TypedNothing(s);
      var i := 0;
      while str[i] != delim
        invariant 0 <= i <= n
        invariant Valid() && State() == TypedAll(s, str[..i])
        decreases n - i
      {
        TypedSnoc(s, str, i);
        PutChar(str[i]);
        i := i + 1;
      }
    }

    /** puts: on a screen that shows a page, the text stands in the character bytes right before the
        cursor, and the colour in the bytes behind them, over ends of lines and through every scroll. */
    method Puts(str: seq<ascii>, ghost n: nat, ghost p: Page)
      requires Valid() && Shows(p, State())
      requires n < |str| && str[n] == 0 && 0 !in str[..n] && forall i :: 0 <= i < n ==> Printable(str[i])
      modifies this, vga, vga.bufaddr
      ensures Valid() && State() == TypedAll(old(State()), str[..n]) && vga.color == old(vga.color)
      ensures 0 <= row < HEIGHT && 0 <= column < WIDTH
      ensures TextBefore(vga.bufaddr[..], row * WIDTH + column, str[..n], vga.color)
    {
      hide TypedAll, Shows, Printable, Entry, TextBefore;
      ShowsValid(p, State());
      TextCells(p, State(), str[..n]);
      PutsDelim(str, 0, n);
      TextBytes(vga.bufaddr[..], vga.Cells(), str[..n], row * WIDTH + column, vga.color);
    }
  }

  lemma ShowsValid(p: Page, s: Screen)
    requires Shows(p, s)
    ensures s.Valid()
  {}

  /** The two bytes of cell `i`. */
  predicate Holds(m: seq<byte>, i: int, c: ascii, color: byte)
    requires 0 <= i && 2 * i + 1 < |m|
  {
    m[2 * i] == c && m[2 * i + 1] == color
  }

  /** The cells before cell `end` hold the end of the text, in this colour. */
  ghost predicate TextBefore(m: seq<byte>, end: int, text: seq<ascii>, color: byte)
    requires |m| == 2 * CELLS && end <= CELLS
  {
    forall k :: 0 <= k < |text| && 0 <= end - |text| + k ==> Holds(m, end - |text| + k, text[k], color)
  }

  lemma TextBytes(m: seq<byte>, cells: seq<int>, text: seq<ascii>, end: int, color: byte)
    requires |m| == 2 * CELLS && |cells| == CELLS && 0 <= end <= CELLS
    requires forall i :: 0 <= i < CELLS ==> cells[i] == Cell(m, i)
    requires forall k :: 0 <= k < |text| && 0 <= end - (|text| - k) ==>
               cells[end - (|text| - k)] == Entry(text[k], color)
    ensures TextBefore(m, end, text, color)
  {
    hide Cell, Entry;
    forall k | 0 <= k < |text| && 0 <= end - |text| + k
      ensures Holds(m, end - |text| + k, text[k], color)
    {
      assert cells[end - (|text| - k)] == Entry(text[k], color);
      EntryBytes(m, end - |text| + k, text[k], color);
    }
  }

  lemma TabShift(column: int)
    requires 0 <= column < SIZE_T
    ensures ((column + 4) % SIZE_T / 4 * 4 - column) % SIZE_T == TabWidth(column)
  {
    var q, r := column / 4, column % 4;
    assert column == 4 * q + r;
    if column + 4 < SIZE_T {
      assert (column + 4) / 4 == q + 1;
    } else {
      assert (column + 4) % SIZE_T == r && r / 4 == 0;
    }
  }

  lemma NoSpaces(s: Screen)
    requires s.Valid()
    ensures PrintedSpaces(s, 0) == s
  {}

  lemma MoreSpaces(s: Screen, n: nat)
    requires s.Valid()
    ensures PrintedSpaces(s, n + 1) == Typed(PrintedSpaces(s, n), SPACE)
  {}

  lemma TypedNothing(s: Screen)
    requires s.Valid()
    ensures forall str: seq<ascii> :: TypedAll(s, str[..0]) == s
  {}
}
