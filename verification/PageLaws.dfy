/** What the control characters do to the ideal page (arch/x86/lib/tty.c:65-127), told by the position of
    the cursor, counted in cells from the start of the page, and by the cells. */
module PageLaws {
  import opened IdealTerminal

  /** The cells of `p` before position `n` are those of `q`. */
  ghost predicate SameBefore(p: Page, q: Page, n: int)
    requires p.Valid() && q.Valid()
  {
    n <= |p.rows| * WIDTH && n <= |q.rows| * WIDTH && forall j :: 0 <= j < n ==> q.At(j) == p.At(j)
  }

  lemma {:induction false} SpacesRun(p: Page, n: nat)
    requires p.Valid()
    ensures var q := Spaces(p, n);
      && q.Position() == p.Position() + n && q.color == p.color
      && SameBefore(p, q, p.Position())
      && forall j :: p.Position() <= j < p.Position() + n ==> q.At(j) == Entry(32, p.color)
  {
    hide Print, Page.At;
    if n > 0 {
      SpacesRun(p, n - 1);
      PrintStep(Spaces(p, n - 1), SPACE);
    }
  }

  /** A tab goes to the next multiple of four, over blank cells. */
  lemma TabStops(p: Page)
    requires p.Valid()
    ensures var q := Put(p, 9);
      && q.Position() == (p.Position() / 4 + 1) * 4 && q.color == p.color
      && SameBefore(p, q, p.Position())
      && forall j :: p.Position() <= j < q.Position() ==> q.At(j) == Entry(32, p.color)
  {
    hide Print, Page.At, SameBefore;
    SpacesRun(p, TabWidth(p.column));
    assert Put(p, 9) == Spaces(p, TabWidth(p.column));
    NextStop(p.row, p.column);
  }

  lemma NextStop(row: int, column: int)
    requires 0 <= row && 0 <= column
    ensures row * WIDTH + column + TabWidth(column) == ((row * WIDTH + column) / 4 + 1) * 4
  {
    var q, r := column / 4, column % 4;
    assert row * WIDTH + column == (row * 20 + q) * 4 + r;
  }

  /** A return goes to the start of the row, a newline one row down, onto a blank row if that is new;
      neither changes a cell. */
  lemma ReturnAndNewline(p: Page)
    requires p.Valid()
    ensures var q := Put(p, 13);
      q.Position() == p.Position() / WIDTH * WIDTH && q.rows == p.rows && q.color == p.color
    ensures var q := Put(p, 10);
      && q.Position() == p.Position() + WIDTH && q.color == p.color
      && |q.rows| >= |p.rows| && q.rows[..|p.rows|] == p.rows
      && forall i :: |p.rows| <= i < |q.rows| ==> q.rows[i] == BlankRow(p.color)
    ensures Put(Put(p, 13), 10) == Put(Put(p, 10), 13)
  {
    assert p.Position() / WIDTH == p.row;
  }

  /** A backspace takes back the character just printed, and leaves a blank. */
  lemma BackspaceErases(p: Page, c: ascii)
    requires p.Valid() && Printable(c) && p.column + 1 < WIDTH
    ensures var q := Put(p, c);
      && !NothingToErase(q, 8)
      && Put(q, 8) == WriteCell(p, 32)
      && Put(q, 8).Position() == p.Position()
      && Put(q, 8).At(p.Position()) == Entry(32, p.color)
      && forall j :: 0 <= j < |p.rows| * WIDTH && j != p.Position() ==> Put(q, 8).At(j) == p.At(j)
  {
    var r := Put(Put(p, c), 8);
    var w := p.rows[p.row];
    assert w[p.column := Entry(c, p.color)][p.column := Entry(32, p.color)] == w[p.column := Entry(32, p.color)];
    assert r.rows == WriteCell(p, 32).rows;
    forall j | 0 <= j < |p.rows| * WIDTH && j != p.Position()
      ensures r.At(j) == p.At(j)
    {
      assert j == j / WIDTH * WIDTH + j % WIDTH;
    }
  }

  /** Bell and delete do nothing. */
  lemma BellAndDelete(p: Page)
    requires p.Valid()
    ensures Put(p, 7) == p == Put(p, 127)
  {}

  /** The controls are these characters, and every other one is printed where the cursor is. */
  lemma Printed(p: Page, c: ascii)
    requires p.Valid() && c !in {7, 8, 9, 10, 13, 127}
    ensures var q := Put(p, c);
      && q.Position() == p.Position() + 1 && q.At(p.Position()) == Entry(c, p.color)
      && SameBefore(p, q, p.Position())
  {
    PrintStep(p, c);
  }
}
