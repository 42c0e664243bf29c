/** The word splitter of the shell (shell/shell.c:12-59) and the line it is given (shell/shell.c:96-116). */
module SplitLine {
  import opened NumberText
  import LineInput

  const ARGS_MAX: int := 10
  const LINE_MAX: int := 100

  // ---------------------------------------------------------------- what the words are

  /** The stretches between single spaces, empty ones included. */
  function Pieces(s: string): (ps: seq<string>)
    ensures ps != []
  {
    if ' ' !in s then [s]
    else
      var k := FirstSpace(s);
      [s[..k]] + Pieces(s[k + 1..])
  }

  function FirstSpace(s: string): (k: nat)
    ensures k <= |s| && ' ' !in s[..k] && (k < |s| <==> ' ' in s) && (k < |s| ==> s[k] == ' ')
  {
    if s == "" || s[0] == ' ' then 0
    else
      var k := 1 + FirstSpace(s[1..]);
      assert s[..k] == [s[0]] + s[1..][..k - 1];
      k
  }

  function NonEmpty(ps: seq<string>): seq<string> {
    if ps == [] then [] else (if ps[0] == "" then [] else [ps[0]]) + NonEmpty(ps[1..])
  }

  /** The arguments: what stands before the first space, even nothing, and then all that is not empty. */
  function Fields(s: string): (fs: seq<string>)
    ensures fs != []
  {
    [Pieces(s)[0]] + NonEmpty(Pieces(s)[1..])
  }

  function SkipSpaces(s: string): (k: nat)
    ensures k <= |s| && (forall i :: 0 <= i < k ==> s[i] == ' ') && (k < |s| ==> s[k] != ' ')
  {
    if s == "" || s[0] != ' ' then 0 else 1 + SkipSpaces(s[1..])
  }

  /** Leading spaces make no fields. */
  lemma {:induction false} SpacesSkipped(s: string, k: nat)
    requires k <= |s| && forall i :: 0 <= i < k ==> s[i] == ' '
    ensures NonEmpty(Pieces(s)) == NonEmpty(Pieces(s[k..]))
  {
    if k > 0 {
      assert ' ' in s && FirstSpace(s) == 0 by {
        assert s[0] == ' ';
      }
      assert Pieces(s) == [""] + Pieces(s[1..]);
      SpacesSkipped(s[1..], k - 1);
      assert s[1..][k - 1..] == s[k..];
    }
  }

  lemma PiecesSplit(s: string, k: nat)
    requires k == FirstSpace(s) < |s|
    ensures Pieces(s) == [s[..k]] + Pieces(s[k + 1..])
  {}

  /** Of a text that does not start with a space, the fields are the stretches that are not empty. */
  lemma WordFirst(s: string)
    requires s == "" || s[0] != ' '
    ensures NonEmpty(Pieces(s)) == if s == "" then [] else Fields(s)
  {
    var k := FirstSpace(s);
    if k < |s| {
      PiecesSplit(s, k);
    } else {
      assert Pieces(s) == [s];
    }
    assert s != "" ==> Pieces(s)[0] != "";
  }

  /** One turn of the splitter: the field up to the next space, then the fields after the spaces. */
  lemma FieldsStep(s: string, k: nat, j: nat)
    requires k < j <= |s| && k == FirstSpace(s)
    requires (forall i :: k <= i < j ==> s[i] == ' ') && (j < |s| ==> s[j] != ' ')
    ensures Fields(s) == [s[..k]] + if j == |s| then [] else Fields(s[j..])
  {
    hide Pieces, NonEmpty, FirstSpace;
    var rest := s[k + 1..];
    PiecesSplit(s, k);
    SpacesSkipped(rest, j - k - 1);
    assert rest[j - k - 1..] == s[j..];
    assert Pieces(s)[1..] == Pieces(rest);
    WordFirst(s[j..]);
  }

  // ---------------------------------------------------------------- shell_split_line

  /** strchr(line, ' '): the first space of the string `s` at `line`, its end if there is none. */
  method FindSpace(a: array<char>, line: nat, ghost s: string) returns (p: nat)
    requires IsString(a[..], line, s)
    ensures p == line + FirstSpace(s) && p < a.Length
    ensures a[p] == if p == line + |s| then '\0' else ' '
  {
    hide FirstSpace, IsString;
    StringAt(a[..], line, s);
    p := line;
    while a[p] != ' ' && a[p] != '\0'
      invariant line <= p <= line + FirstSpace(s)
      decreases line + FirstSpace(s) - p
    {
      BeforeFirstSpace(s, p - line);
      p := p + 1;
    }
    BeforeFirstSpace(s, p - line);
  }

  /** Up to the first space a space is found nowhere but there. */
  lemma BeforeFirstSpace(s: string, k: nat)
    requires k <= FirstSpace(s)
    ensures k < |s| ==> (s[k] == ' ' <==> k == FirstSpace(s))
  {
    var f := FirstSpace(s);
    assert k < f ==> s[..f][k] in s[..f];
  }

  lemma StringAt(a: seq<char>, str: nat, s: string)
    requires IsString(a, str, s)
    ensures str + |s| < |a| && a[str + |s|] == '\0'
    ensures forall k :: 0 <= k < |s| ==> s[k] == a[str + k] && s[k] != '\0'
  {
    assert forall k :: 0 <= k < |s| ==> s[k] in s;
  }

  /** shell.c:35-38: past the spaces from `q` on. */
  method SkipFrom(a: array<char>, q: nat, ghost s: string) returns (r: nat)
    requires IsString(a[..], q, s)
    ensures r == q + SkipSpaces(s) && r < a.Length
    ensures a[r] == '\0' <==> r == q + |s|
  {
    r := q;
    assert forall k :: 0 <= k < |s| ==> s[k] == a[q + k] && s[k] in s;
    while a[r] == ' '
      invariant q <= r <= q + SkipSpaces(s)
      decreases q + |s| - r
    {
      assert r - q < |s|;
      r := r + 1;
    }
  }

  /** The strings found so far, each ended by a NUL before `line`. */
  ghost predicate Found(a: seq<char>, argv: seq<nat>, fields: seq<string>, line: nat) {
    && |fields| <= |argv|
    && forall j :: 0 <= j < |fields| ==> IsString(a, argv[j], fields[j]) && argv[j] + |fields[j]| < line
  }

  /** Only spaces have been overwritten, with NULs. */
  ghost predicate OnlySpaces(was: seq<char>, a: seq<char>) {
    |was| == |a| && forall i :: 0 <= i < |a| ==> a[i] == was[i] || (was[i] == ' ' && a[i] == '\0')
  }

  /** Writing a NUL over the space behind the first field ends it, and leaves the rest of the string. */
  lemma CutField(a: seq<char>, r: seq<char>, line: nat, s: string, k: nat)
    requires IsString(a, line, s) && k < |s| && s[k] == ' '
    requires r == a[line + k := '\0']
    ensures IsString(r, line, s[..k]) && IsString(r, line + k + 1, s[k + 1..])
  {
    assert forall i :: 0 <= i < |s| ==> s[i] == a[line + i] && s[i] in s;
    assert r[line..line + k] == s[..k];
    assert r[line + k + 1..line + k + 1 + (|s| - k - 1)] == s[k + 1..];
  }

  lemma DropString(a: seq<char>, line: nat, s: string, k: nat)
    requires IsString(a, line, s) && k <= |s|
    ensures IsString(a, line + k, s[k..])
  {
    assert forall i :: 0 <= i < |s| ==> s[i] == a[line + i] && s[i] in s;
    assert a[line + k..line + |s|] == s[k..];
  }

  lemma FoundKept(a: seq<char>, r: seq<char>, argv: seq<nat>, fields: seq<string>, line: nat, p: nat)
    requires Found(a, argv, fields, line) && line <= p < |a| && r == a[p := '\0']
    ensures Found(r, argv, fields, line)
  {
    forall j | 0 <= j < |fields|
      ensures IsString(r, argv[j], fields[j])
    {
      assert IsString(a, argv[j], fields[j]);
      assert r[argv[j]..argv[j] + |fields[j]|] == a[argv[j]..argv[j] + |fields[j]|];
    }
  }

  lemma FoundMore(a: seq<char>, argv: seq<nat>, argv': seq<nat>, fields: seq<string>, field: string, line: nat,
                  next: nat)
    requires Found(a, argv, fields, line) && |fields| < |argv| == |argv'| && argv[|fields|] == line
    requires IsString(a, line, field) && line + |field| < next
    requires forall j :: 0 <= j <= |fields| ==> argv'[j] == argv[j]
    ensures Found(a, argv', fields + [field], next)
  {}

  lemma OneMoreSpace(was: seq<char>, m: seq<char>, p: nat)
    requires OnlySpaces(was, m) && p < |m| && m[p] == ' '
    ensures OnlySpaces(was, m[p := '\0'])
  {}

  /** What is left of `s` behind the spaces that follow its first field. */
  lemma AfterSpaces(s: string, k: nat, j: nat)
    requires k == FirstSpace(s) < |s| && j == k + 1 + SkipSpaces(s[k + 1..])
    ensures j <= |s| && s[k + 1..][j - (k + 1)..] == s[j..]
    ensures Fields(s) == [s[..k]] + if j == |s| then [] else Fields(s[j..])
  {
    hide Fields, SkipSpaces, FirstSpace, Pieces, NonEmpty;
    var rest := s[k + 1..];
    forall i | k <= i < j
      ensures s[i] == ' '
    {
      if i > k { assert s[i] == rest[i - k - 1]; }
    }
    if j < |s| { assert s[j] == rest[j - k - 1]; }
    FieldsStep(s, k, j);
  }

  /** shell.c:31-42: the field at `line` is ended at `p`, and the spaces behind it are passed over. */
  method CutAndSkip(a: array<char>, line: nat, p: nat, ghost rest: string) returns (next: nat)
    requires IsString(a[..], line, rest) && p == line + FirstSpace(rest) < line + |rest|
    requires p < a.Length && a[p] == ' '
    modifies a
    ensures a[..] == old(a[..])[p := '\0']
    ensures p < next <= line + |rest| && next < a.Length
    ensures IsString(a[..], line, rest[..p - line]) && IsString(a[..], next, rest[next - line..])
    ensures a[next] == '\0' <==> next == line + |rest|
    ensures Fields(rest) == [rest[..p - line]] + if next == line + |rest| then [] else Fields(rest[next - line..])
  {
    hide Fields, IsString, SkipSpaces, FirstSpace;
    ghost var k, m := FirstSpace(rest), a[..];
    a[p] := '\0';
    assert a[..] == m[p := '\0'];
    CutField(m, a[..], line, rest, k);
    next := SkipFrom(a, p + 1, rest[k + 1..]);
    CutDone(a[..], line, rest, k, next - line);
  }

  /** The rest of the string stands at `line + j`, behind the spaces. */
  lemma CutDone(a: seq<char>, line: nat, rest: string, k: nat, j: nat)
    requires k == FirstSpace(rest) < |rest| && j == k + 1 + SkipSpaces(rest[k + 1..])
    requires IsString(a, line + k + 1, rest[k + 1..])
    ensures j <= |rest| && IsString(a, line + j, rest[j..])
    ensures Fields(rest) == [rest[..k]] + if j == |rest| then [] else Fields(rest[j..])
  {
    hide *;
    AfterSpaces(rest, k, j);
    DropTo(a, line, rest, k + 1, j);
  }

  lemma DropTo(a: seq<char>, line: nat, s: string, i: nat, j: nat)
    requires i <= j <= |s| && IsString(a, line + i, s[i..])
    ensures IsString(a, line + j, s[j..])
  {
    hide IsString;
    var t := s[i..];
    DropString(a, line + i, t, j - i);
    assert t[j - i..] == s[j..];
  }

  function AtMost(n: nat, m: nat): nat {
    if n <= m then n else m
  }

  /** shell.c:31-44: the field at `line` is ended and the next one found, or it is the last. */
  method NextField(a: array<char>, argv: array<nat>, line: nat, ghost fields: seq<string>, ghost rest: string)
    returns (next: nat, more: bool)
    requires IsString(a[..], line, rest) && Found(a[..], argv[..], fields, line)
    requires |fields| < argv.Length && argv[|fields|] == line
    modifies a
    ensures OnlySpaces(old(a[..]), a[..])
    ensures !more ==> |Fields(rest)| == 1 && AllFound(a[..], argv[..], fields + Fields(rest))
    ensures more ==> FieldAt(a[..], line, next, rest) && Found(a[..], argv[..], fields, line)
  {
    hide Fields, IsString, Found, OnlySpaces, FirstSpace, SkipSpaces, AllFound;
    var p := FindSpace(a, line, rest);
    ghost var m := a[..];
    SpacesKept(m);
    if a[p] != ' ' {
      LastField(rest);
      FieldEnds(m, argv[..], fields, rest, line);
      return line, false;
    }
    next := CutAndSkip(a, line, p, rest);
    FoundKept(m, a[..], argv[..], fields, line, p);
    OneMoreSpace(m, m, p);
    more := a[next] != '\0';
    if !more {
      FieldEnds(a[..], argv[..], fields, rest[..p - line], line);
      assert Fields(rest) == [rest[..p - line]];
    }
  }

  /** A field stands at `line`, ended before `next`, where the fields that follow it begin. */
  ghost predicate FieldAt(a: seq<char>, line: nat, next: nat, rest: string) {
    && line < next && next - line <= |rest|
    && IsString(a, next, rest[next - line..])
    && exists k :: 0 <= k < next - line && IsString(a, line, rest[..k])
                   && Fields(rest) == [rest[..k]] + Fields(rest[next - line..])
  }

  /** The strings of all fields, the last one included. */
  ghost predicate AllFound(a: seq<char>, argv: seq<nat>, fields: seq<string>) {
    |fields| <= |argv| && forall j :: 0 <= j < |fields| ==> IsString(a, argv[j], fields[j])
  }

  /** shell_split_line on the string `s` in `a`. It finds the fields, up to one more than its caller's
      array of ARGS_MAX has room for; that one is not ended. */
  method ShellSplitLine(a: array<char>, argv: array<nat>, ghost s: string) returns (argc: nat)
    requires IsString(a[..], 0, s)
    requires argv.Length >= AtMost(|Fields(s)|, ARGS_MAX + 1)
    modifies a, argv
    ensures argc == AtMost(|Fields(s)|, ARGS_MAX + 1)
    ensures forall j :: 0 <= j < argc && j < ARGS_MAX ==> IsString(a[..], argv[j], Fields(s)[j])
    ensures forall j :: argc <= j < argv.Length ==> argv[j] == old(argv[j])
    ensures argc > ARGS_MAX ==> exists r :: IsString(a[..], argv[ARGS_MAX], r) && Fields(r) == Fields(s)[ARGS_MAX..]
    ensures OnlySpaces(old(a[..]), a[..])
  {
    hide Fields, IsString, Found, OnlySpaces, FieldAt;
    argc := 1;
    argv[0] := 0;
    var line, more := 0, true;
    ghost var fields, rest: string := [], s;
    NothingFound(a[..], argv[..]);
    while argc <= ARGS_MAX
      invariant argc == |fields| + 1 <= AtMost(|Fields(s)|, ARGS_MAX + 1)
      invariant Fields(s) == fields + Fields(rest)
      invariant IsString(a[..], line, rest) && argv[argc - 1] == line
      invariant Found(a[..], argv[..], fields, line)
      invariant OnlySpaces(old(a[..]), a[..])
      invariant forall j :: argc <= j < argv.Length ==> argv[j] == old(argv[j])
    {
      ghost var m, v := a[..], argv[..];
      var next;
      next, more := NextField(a, argv, line, fields, rest);
      SpacesJoin(old(a[..]), m, a[..]);
      if !more {
        return;
      }
      ghost var field := FieldOf(a[..], line, next, rest);
      argv[argc] := next;
      argc := argc + 1;
      FoundMore(a[..], v, argv[..], fields, field, line, next);
      fields := fields + [field];
      rest := rest[next - line..];
      line := next;
    }
    FoundAll(a[..], argv[..], fields, line);
    assert IsString(a[..], argv[ARGS_MAX], rest) && Fields(rest) == Fields(s)[ARGS_MAX..];
  }

  lemma FieldOf(a: seq<char>, line: nat, next: nat, rest: string) returns (field: string)
    requires FieldAt(a, line, next, rest)
    ensures line < next && next - line <= |rest| && IsString(a, next, rest[next - line..])
    ensures IsString(a, line, field) && line + |field| < next
    ensures Fields(rest) == [field] + Fields(rest[next - line..])
  {
    hide Fields, IsString;
    var k :| 0 <= k < next - line && IsString(a, line, rest[..k])
             && Fields(rest) == [rest[..k]] + Fields(rest[next - line..]);
    field := rest[..k];
  }

  lemma SpacesKept(a: seq<char>)
    ensures OnlySpaces(a, a)
  {}

  lemma SpacesJoin(was: seq<char>, m: seq<char>, a: seq<char>)
    requires OnlySpaces(was, m) && OnlySpaces(m, a)
    ensures OnlySpaces(was, a)
  {}

  lemma NothingFound(a: seq<char>, argv: seq<nat>)
    ensures Found(a, argv, [], 0) && OnlySpaces(a, a)
  {}

  lemma FoundAll(a: seq<char>, argv: seq<nat>, fields: seq<string>, line: nat)
    requires Found(a, argv, fields, line)
    ensures AllFound(a, argv, fields)
  {}

  lemma LastField(s: string)
    requires FirstSpace(s) == |s|
    ensures Fields(s) == [s]
  {}

  /** The field at `line` is the last. */
  lemma FieldEnds(a: seq<char>, argv: seq<nat>, fields: seq<string>, last: string, line: nat)
    requires Found(a, argv, fields, line) && |fields| < |argv| && argv[|fields|] == line && IsString(a, line, last)
    ensures AllFound(a, argv, fields + [last])
  {}

  // ---------------------------------------------------------------- shell_main

  /** The C string that a text makes: a NUL ends it. */
  function UpToNul(s: string): (r: string)
    ensures |r| <= |s| && r == s[..|r|] && '\0' !in r && (|r| < |s| ==> s[|r|] == '\0')
  {
    if s == "" || s[0] == '\0' then "" else
      var r := [s[0]] + UpToNul(s[1..]);
      assert r[1..] == s[1..][..|r| - 1];
      r
  }

  /** What stands before the carriage return; of a line too long, all but the last character. */
  function Command(keys: string): string {
    var line := LineInput.Read("", keys, LINE_MAX + 1, '\r').line;
    if line == "" then "" else UpToNul(line[..|line| - 1])
  }

  /** shell.c:96-116, up to the command that it looks up. The array for arguments is argv[..ARGS_MAX];
      the place behind it stands for what lies there on the stack, and is used exactly when the command
      has more fields than the array has places. */
  method ReadCommand(keys: string) returns (line: array<char>, argv: array<nat>, argc: nat, done: bool)
    ensures line.Length == LINE_MAX + 1 && argv.Length == ARGS_MAX + 1
    ensures var r := LineInput.Read("", keys, LINE_MAX + 1, '\r');
      && done == r.done
      && argc == if done && |r.line| > 1 then AtMost(|Fields(Command(keys))|, ARGS_MAX + 1) else 0
    ensures forall j :: 0 <= j < argc && j < ARGS_MAX ==> IsString(line[..], argv[j], Fields(Command(keys))[j])
    ensures argc <= ARGS_MAX ==> argv[ARGS_MAX] == 0
    ensures argc > ARGS_MAX ==>
              exists r :: IsString(line[..], argv[ARGS_MAX], r) && Fields(r) == Fields(Command(keys))[ARGS_MAX..]
  {
    hide Fields, LineInput.Read, LineInput.EchoOf;
    line := new char[LINE_MAX + 1](_ => '\0');
    argv := new nat[ARGS_MAX + 1](_ => 0);
    argc := 0;
    var n, used, echo;
    n, used, done, echo := LineInput.GetDelim(line, LINE_MAX + 1, '\r', true, keys);
    if !done {
      return;
    }
    LineInput.NeverEmptyIff(LINE_MAX + 1, '\r');
    ghost var text := line[..n];
    line[n - 1] := '\0';
    if n > 1 {
      EndedText(text, line[..], n);
      argc := ShellSplitLine(line, argv, Command(keys));
    }
  }

  lemma EndedText(text: string, a: seq<char>, n: nat)
    requires 0 < n == |text| <= |a| && a[..n] == text[n - 1 := '\0']
    ensures IsString(a, 0, UpToNul(text[..n - 1]))
  {
    var front := text[..n - 1];
    var s := UpToNul(front);
    assert forall i :: 0 <= i < n ==> a[i] == text[n - 1 := '\0'][i];
    assert a[0..0 + |s|] == s;
  }

  /** A command of `n` one-letter words. */
  function Words(n: nat): (s: string)
    requires n > 0
    ensures |s| == 2 * n - 1 && s[0] == 'a'
  {
    if n == 1 then "a" else "a " + Words(n - 1)
  }

  lemma WordsSplit(n: nat)
    requires n > 1
    ensures var s := Words(n); FirstSpace(s) == 1 && s[1] == ' ' && s[2..] == Words(n - 1)
  {
    var s := Words(n);
    assert s[2..] == Words(n - 1);
    assert s[1..][0] == ' ';
  }

  /** Eleven fields, one more than the array of arguments holds, go into 21 characters. */
  lemma {:induction false} FieldsOfWords(n: nat)
    requires n > 0
    ensures |Fields(Words(n))| == n
  {
    hide Fields, FirstSpace, Words;
    if n > 1 {
      FieldsOfWords(n - 1);
      WordsSplit(n);
      FieldsStep(Words(n), 1, 2);
    } else {
      OneWord();
    }
  }

  lemma OneWord()
    ensures |Fields(Words(1))| == 1
  {
    assert Words(1) == "a" && ' ' !in "a";
  }

  /** A command typed without correction, and the return key. */
  lemma TypedCommand(s: string)
    requires |s| <= LINE_MAX && '\r' !in s && LineInput.BACKSPACE !in s && '\0' !in s
    ensures LineInput.Read("", s + "\r", LINE_MAX + 1, '\r').done && Command(s + "\r") == s
  {
    hide LineInput.Read, UpToNul;
    LineInput.PlainKeys("", s, LINE_MAX + 1, '\r');
    CommandOf(s + "\r", s);
    NoNul(s);
  }

  lemma CommandOf(keys: string, s: string)
    requires LineInput.Read("", keys, LINE_MAX + 1, '\r').line == "" + s + ['\r']
    ensures Command(keys) == UpToNul(s)
  {
    hide LineInput.Read, UpToNul;
    var line := "" + s + ['\r'];
    assert line[..|line| - 1] == s;
  }

  lemma NoNul(s: string)
    requires '\0' !in s
    ensures UpToNul(s) == s
  {}

  lemma {:induction false} WordsArePlain(n: nat)
    requires n > 0
    ensures forall c :: c in Words(n) ==> c == 'a' || c == ' '
  {
    if n > 1 {
      WordsArePlain(n - 1);
    }
  }

  /** Keys that give eleven fields, and so use the place behind the array. */
  lemma ElevenWords()
    ensures LineInput.Read("", Words(11) + "\r", LINE_MAX + 1, '\r').done
    ensures |Fields(Command(Words(11) + "\r"))| == ARGS_MAX + 1
  {
    hide Fields, Words, Command, LineInput.Read;
    WordsArePlain(11);
    TypedCommand(Words(11));
    FieldsOfWords(11);
  }

  /** A line too long: all but the last of the characters that fit are the command. */
  lemma {:induction false} FullLine(line: string, keys: string, len: nat)
    requires |line| <= len <= |line| + |keys| && '\r' !in keys && LineInput.BACKSPACE !in keys
    ensures var r := LineInput.Read(line, keys, len, '\r'); r.done && r.line == line + keys[..len - |line|]
    decreases |keys|
  {
    if |line| < len {
      assert keys[0] in keys;
      FullLine(line + [keys[0]], keys[1..], len);
      assert keys[..len - |line|] == [keys[0]] + keys[1..][..len - |line| - 1];
    }
  }

  lemma LongCommand(keys: string)
    requires |keys| > 100 && '\r' !in keys && LineInput.BACKSPACE !in keys && '\0' !in keys
    ensures Command(keys) == keys[..100]
  {
    hide LineInput.Read, UpToNul;
    FullLine("", keys, LINE_MAX + 1);
    var line := keys[..LINE_MAX + 1];
    assert "" + line == line && line[..LINE_MAX] == keys[..LINE_MAX];
    NoNul(keys[..LINE_MAX]);
  }

  // ---------------------------------------------------------------- words and spaces

  function Blanks(n: nat): (s: string)
    ensures |s| == n && forall i :: 0 <= i < n ==> s[i] == ' '
  {
    seq(n, i => ' ')
  }

  /** Words without spaces, all but the first of them not empty. */
  ghost predicate AreFields(fs: seq<string>) {
    && fs != [] && (forall i :: 0 <= i < |fs| ==> ' ' !in fs[i])
    && forall i :: 0 < i < |fs| ==> fs[i] != ""
  }

  /** The words with one or more spaces in between, and any number behind. */
  function Spaced(fs: seq<string>, gaps: seq<nat>, tail: nat): string
    requires fs != [] && |gaps| == |fs| - 1
  {
    if |fs| == 1 then fs[0] + Blanks(tail)
    else fs[0] + (Blanks(gaps[0] + 1) + Spaced(fs[1..], gaps[1..], tail))
  }

  /** However they are spaced, the words come back. */
  lemma {:induction false} FieldsOfSpaced(fs: seq<string>, gaps: seq<nat>, tail: nat)
    requires AreFields(fs) && |gaps| == |fs| - 1
    ensures Fields(Spaced(fs, gaps, tail)) == fs
    decreases |fs|
  {
    hide Fields, FirstSpace;
    if |fs| == 1 {
      LastSpaced(fs[0], tail);
      assert fs == [fs[0]];
    } else {
      var rest := Spaced(fs[1..], gaps[1..], tail);
      assert AreFields(fs[1..]);
      FieldsOfSpaced(fs[1..], gaps[1..], tail);
      StartsWith(fs[1..], gaps[1..], tail);
      OneSpaced(fs[0], gaps[0] + 1, rest);
      assert fs == [fs[0]] + fs[1..];
    }
  }

  lemma StartsWith(fs: seq<string>, gaps: seq<nat>, tail: nat)
    requires fs != [] && |gaps| == |fs| - 1 && fs[0] != "" && ' ' !in fs[0]
    ensures var s := Spaced(fs, gaps, tail); s != "" && s[0] != ' '
  {
    assert fs[0][0] in fs[0];
  }

  lemma LastSpaced(f: string, tail: nat)
    requires ' ' !in f
    ensures Fields(f + Blanks(tail)) == [f]
  {
    hide Fields, FirstSpace;
    var s := f + Blanks(tail);
    SpaceBehind(f, Blanks(tail));
    if tail == 0 {
      assert s == f;
      LastField(s);
    } else {
      FieldsStep(s, |f|, |s|);
      assert s[..|f|] == f;
    }
  }

  lemma OneSpaced(f: string, gap: nat, rest: string)
    requires ' ' !in f && gap > 0 && rest != "" && rest[0] != ' '
    ensures Fields(f + (Blanks(gap) + rest)) == [f] + Fields(rest)
  {
    hide Fields, FirstSpace;
    var s := f + (Blanks(gap) + rest);
    SpaceBehind(f, Blanks(gap) + rest);
    FieldsStep(s, |f|, |f| + gap);
    assert s[..|f|] == f && s[|f| + gap..] == rest;
  }

  lemma SpaceBehind(f: string, g: string)
    requires ' ' !in f && (g == "" || g[0] == ' ')
    ensures FirstSpace(f + g) == |f|
  {
    hide FirstSpace;
    var s := f + g;
    var k := FirstSpace(s);
    assert forall i :: 0 <= i < |f| ==> s[i] == f[i] && f[i] in f;
    if g == "" {
      assert s == f;
    } else {
      assert s[|f|] == ' ' && s[|f|] in s;
      BeforeFirstSpace(s, |f|);
    }
  }
}
