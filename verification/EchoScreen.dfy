/** What the echo of the line editor (libc/stdio/basic_in.c:32-40) leaves on the page of the terminal. */
module EchoScreen {
  import opened IdealTerminal
  import LineInput

  /** Keys that take one cell, and the backspace. */
  predicate Typable(c: char) {
    c as int < 128 && (c == LineInput.BACKSPACE || Printable(c as int))
  }

  function Code(c: char): ascii
    requires Typable(c)
  {
    c as int
  }

  function Codes(s: string): (r: seq<ascii>)
    requires forall i :: 0 <= i < |s| ==> Typable(s[i])
  {
    if s == "" then [] else [Code(s[0])] + Codes(s[1..])
  }

  /** The line has room in its row all the time, the cursor behind it included. */
  ghost predicate Fits(line: string, keys: string, room: int) {
    forall i :: 0 <= i <= |keys| ==> |LineInput.EditAll(line, keys[..i])| < room
  }

  /** From `p` to `q` the line has come to stand at the cursor, and the cursor behind it; what stood
      before it and in other rows is unchanged. */
  ghost predicate ShowsLine(p: Page, q: Page, line: string) {
    && p.Valid() && q.Valid() && q.color == p.color && |q.rows| == |p.rows|
    && q.row == p.row && q.column == p.column + |line|
    && (forall y :: 0 <= y < |p.rows| && y != p.row ==> q.rows[y] == p.rows[y])
    && (forall x :: 0 <= x < p.column ==> q.rows[p.row][x] == p.rows[p.row][x])
    && (forall k :: 0 <= k < |line| ==>
          line[k] as int < 128 && q.rows[p.row][p.column + k] == Entry(line[k] as int, p.color))
  }

  /** A key that is echoed edits the line on the page as it does in the buffer. */
  lemma KeyShown(p: Page, q: Page, line: string, c: char)
    requires ShowsLine(p, q, line) && Typable(c) && !(c == LineInput.BACKSPACE && line == "")
    requires p.column + |LineInput.Edit(line, c)| < WIDTH
    ensures !NothingToErase(q, Code(c))
    ensures ShowsLine(p, Put(q, Code(c)), LineInput.Edit(line, c))
  {}

  lemma FitsRest(line: string, keys: string, room: int)
    requires keys != "" && Fits(line, keys, room)
    ensures |LineInput.Edit(line, keys[0])| < room && Fits(LineInput.Edit(line, keys[0]), keys[1..], room)
  {
    var next := LineInput.Edit(line, keys[0]);
    forall i | 0 <= i <= |keys| - 1
      ensures LineInput.EditAll(line, keys[..i + 1]) == LineInput.EditAll(next, keys[1..][..i])
    {
      assert keys[..i + 1][1..] == keys[1..][..i];
    }
    assert LineInput.EditAll(next, keys[1..][..0]) == next;
  }

  lemma {:induction false} EchoTypable(line: string, keys: string)
    requires forall i :: 0 <= i < |keys| ==> Typable(keys[i])
    ensures var echo := LineInput.EchoOf(line, keys); forall i :: 0 <= i < |echo| ==> Typable(echo[i])
    decreases |keys|
  {
    if keys != "" {
      var next, rest := LineInput.Edit(line, keys[0]), keys[1..];
      assert forall i :: 0 <= i < |rest| ==> rest[i] == keys[i + 1];
      EchoTypable(next, rest);
      EchoFirst(line, keys);
    }
  }

  /** As long as the line stays in its row, what stands on the page behind the prompt is what is in the
      buffer, however it was typed and corrected; and no backspace finds nothing to erase. */
  lemma {:induction false} EchoShowsBuffer(p: Page, q: Page, line: string, keys: string)
    requires ShowsLine(p, q, line) && forall i :: 0 <= i < |keys| ==> Typable(keys[i])
    requires Fits(line, keys, WIDTH - p.column)
    ensures var echo := LineInput.EchoOf(line, keys);
      && (forall i :: 0 <= i < |echo| ==> Typable(echo[i]))
      && Clean(q, Codes(echo))
      && ShowsLine(p, PutAll(q, Codes(echo)), LineInput.EditAll(line, keys))
    decreases |keys|
  {
    hide ShowsLine, Put, Typable;
    EchoTypable(line, keys);
    ShownValid(p, q, line);
    if keys != "" {
      var c := keys[0];
      var next, rest := LineInput.Edit(line, c), keys[1..];
      FitsRest(line, keys, WIDTH - p.column);
      EchoFirst(line, keys);
      assert forall i :: 0 <= i < |rest| ==> rest[i] == keys[i + 1];
      if c == LineInput.BACKSPACE && line == "" {
        EchoShowsBuffer(p, q, next, rest);
      } else {
        KeyShown(p, q, line, c);
        EchoShowsBuffer(p, Put(q, Code(c)), next, rest);
        var echo := LineInput.EchoOf(next, rest);
        assert ([c] + echo)[1..] == echo;
        assert Codes([c] + echo) == [Code(c)] + Codes(echo);
        assert ([Code(c)] + Codes(echo))[1..] == Codes(echo);
      }
    }
  }

  lemma EchoFirst(line: string, keys: string)
    requires keys != ""
    ensures var next, rest := LineInput.Edit(line, keys[0]), keys[1..];
      LineInput.EchoOf(line, keys)
      == if keys[0] == LineInput.BACKSPACE && line == "" then LineInput.EchoOf(next, rest)
         else [keys[0]] + LineInput.EchoOf(next, rest)
  {
    assert "" + LineInput.EchoOf(LineInput.Edit(line, keys[0]), keys[1..])
        == LineInput.EchoOf(LineInput.Edit(line, keys[0]), keys[1..]);
  }

  /** Before the first key. */
  lemma PromptShows(p: Page)
    requires p.Valid()
    ensures ShowsLine(p, p, "")
  {}

  lemma ShownValid(p: Page, q: Page, line: string)
    requires ShowsLine(p, q, line)
    ensures q.Valid()
  {}
}
