/** The line editor getdelim (libc/stdio/basic_in.c:11-49). */
module LineInput {
  const BACKSPACE: char := '\U{8}'

  /** What a key does to a line: a backspace takes the last character back, if there is one. */
  function Edit(line: string, c: char): string {
    if c != BACKSPACE then line + [c]
    else if line == "" then "" else line[..|line| - 1]
  }

  function EditAll(line: string, keys: string): string
    decreases |keys|
  {
    if keys == "" then line else EditAll(Edit(line, keys[0]), keys[1..])
  }

  /** The line so far, how many keys it took, and whether the call returns with it. */
  datatype Reading = Reading(line: string, used: nat, done: bool)

  /** Keys are taken until the line is full or the delimiter has been typed; the delimiter is kept. */
  function Read(line: string, keys: string, len: nat, delim: char): (r: Reading)
    requires |line| <= len
    ensures r.used <= |keys| && |r.line| <= len
    decreases |keys|
  {
    if |line| == len then Reading(line, 0, true)
    else if keys == "" then Reading(line, 0, false)
    else if keys[0] == delim then Reading(if delim == BACKSPACE then line else line + [delim], 1, true)
    else var r := Read(Edit(line, keys[0]), keys[1..], len, delim); r.(used := r.used + 1)
  }

  /** The call has taken a delimiter. */
  predicate Ended(keys: string, used: nat, delim: char) {
    0 < used <= |keys| && keys[used - 1] == delim
  }

  // ---------------------------------------------------------------- the line is the fold of the keys

  /** The line is the keys taken before any delimiter, edited, and the delimiter. The call returns once
      it has the delimiter or a full line, and not before. */
  lemma {:induction false} ReadIsFold(line: string, keys: string, len: nat, delim: char)
    requires |line| <= len
    ensures var r := Read(line, keys, len, delim);
      var ended := r.used > 0 && Ended(keys, r.used, delim);
      var typed := if ended then keys[..r.used - 1] else keys[..r.used];
      && delim !in typed
      && r.line == EditAll(line, typed) + (if ended && delim != BACKSPACE then [delim] else "")
      && |r.line| <= len
      && (r.done <==> ended || |r.line| == len)
      && (!r.done ==> r.used == |keys|)
    decreases |keys|
  {
    if |line| < len && keys != "" && keys[0] != delim {
      ReadIsFold(Edit(line, keys[0]), keys[1..], len, delim);
      var r := Read(line, keys, len, delim);
      assert keys[..r.used][1..] == keys[1..][..r.used - 1];
      assert r.used > 1 ==> keys[..r.used - 1][1..] == keys[1..][..r.used - 2];
    }
  }

  /** With room for a character, the call returns at least one exactly when the delimiter is not the
      backspace, which is never stored. */
  lemma NeverEmptyIff(len: nat, delim: char)
    requires len >= 1
    ensures (forall keys :: Read("", keys, len, delim).done ==> |Read("", keys, len, delim).line| >= 1)
        <==> delim != BACKSPACE
  {
    if delim == BACKSPACE {
      var keys := [delim];
      assert Read("", keys, len, delim) == Reading("", 1, true);
      assert exists ks :: Read("", ks, len, delim).done && |Read("", ks, len, delim).line| < 1;
    } else {
      forall keys | Read("", keys, len, delim).done
        ensures |Read("", keys, len, delim).line| >= 1
      {
        ReadIsFold("", keys, len, delim);
      }
    }
  }

  /** Keys without delimiter or backspace, and the delimiter: the line is the keys. */
  lemma {:induction false} PlainKeys(line: string, s: string, len: nat, delim: char)
    requires |line| + |s| < len && delim !in s && BACKSPACE !in s && delim != BACKSPACE
    ensures Read(line, s + [delim], len, delim) == Reading(line + s + [delim], |s| + 1, true)
    decreases |s|
  {
    if s == "" {
      assert s + [delim] == [delim];
    } else {
      assert s[0] in s && s == [s[0]] + s[1..];
      assert (s + [delim])[1..] == s[1..] + [delim];
      PlainKeys(line + [s[0]], s[1..], len, delim);
      assert line + [s[0]] + s[1..] == line + s;
    }
  }

  /** A backspace takes back the key before it, and on an empty line does nothing. */
  lemma BackspaceUndoes(line: string, c: char)
    requires c != BACKSPACE
    ensures EditAll(line, [c]) == line + [c]
    ensures EditAll(line, [c, BACKSPACE]) == line
    ensures EditAll("", [BACKSPACE]) == "" && BACKSPACE as int == 8
  {
    OneKey(line, c);
    OneKey("", BACKSPACE);
    EditAllSnoc(line, [c], BACKSPACE);
    assert [c, BACKSPACE] == [c] + [BACKSPACE];
    assert (line + [c])[..|line|] == line;
  }

  lemma OneKey(line: string, c: char)
    ensures EditAll(line, [c]) == Edit(line, c)
  {
    assert [c][1..] == "";
  }

  // ---------------------------------------------------------------- the echo

  /** What is echoed for one key. */
  function Echo(line: string, c: char): string {
    if c == BACKSPACE && line == "" then "" else [c]
  }

  /** The keys that are echoed: all but a backspace on an empty line. */
  function EchoOf(line: string, keys: string): string
    decreases |keys|
  {
    if keys == "" then "" else Echo(line, keys[0]) + EchoOf(Edit(line, keys[0]), keys[1..])
  }

  /** The echo, edited as a line, is the line; module EchoScreen says what stands on the screen. */
  lemma {:induction false} EchoShowsLine(line: string, keys: string)
    ensures EditAll(line, EchoOf(line, keys)) == EditAll(line, keys)
    decreases |keys|
  {
    if keys != "" {
      EchoShowsLine(Edit(line, keys[0]), keys[1..]);
      var rest := EchoOf(Edit(line, keys[0]), keys[1..]);
      if keys[0] == BACKSPACE && line == "" {
        assert EchoOf(line, keys) == rest;
      } else {
        assert EchoOf(line, keys)[1..] == rest;
      }
    }
  }

  lemma EditSnoc(line: string, keys: string, c: char)
    ensures EditAll(line, keys + [c]) == Edit(EditAll(line, keys), c)
    ensures EchoOf(line, keys + [c])
         == EchoOf(line, keys) + (if c == BACKSPACE && EditAll(line, keys) == "" then "" else [c])
  {
    EditAllSnoc(line, keys, c);
    EchoSnoc(line, keys, c);
  }

  lemma {:induction false} EditAllSnoc(line: string, keys: string, c: char)
    ensures EditAll(line, keys + [c]) == Edit(EditAll(line, keys), c)
    decreases |keys|
  {
    hide Edit;
    if keys == "" {
      assert (keys + [c])[1..] == "";
    } else {
      assert (keys + [c])[1..] == keys[1..] + [c];
      EditAllSnoc(Edit(line, keys[0]), keys[1..], c);
    }
  }

  lemma {:induction false} EchoSnoc(line: string, keys: string, c: char)
    ensures EchoOf(line, keys + [c]) == EchoOf(line, keys) + Echo(EditAll(line, keys), c)
    decreases |keys|
  {
    hide Edit, Echo;
    if keys == "" {
      assert (keys + [c])[1..] == "";
      assert EchoOf(line, [c]) == Echo(line, c) + "";
    } else {
      assert (keys + [c])[1..] == keys[1..] + [c];
      EchoSnoc(Edit(line, keys[0]), keys[1..], c);
    }
  }

  /** What the read comes to after `used` keys have made the line. */
  function Later(line: string, keys: string, used: nat, len: nat, delim: char): Reading
    requires |line| <= len && used <= |keys|
  {
    var r := Read(line, keys[used..], len, delim);
    r.(used := r.used + used)
  }

  lemma LaterStep(line: string, keys: string, used: nat, len: nat, delim: char)
    requires |line| <= len && used <= |keys|
    ensures |line| == len ==> Later(line, keys, used, len, delim) == Reading(line, used, true)
    ensures |line| < len && used == |keys| ==> Later(line, keys, used, len, delim) == Reading(line, used, false)
    ensures |line| < len && used < |keys| ==>
      var c := keys[used];
      Later(line, keys, used, len, delim)
      == if c == delim then Reading(if c == BACKSPACE then line else line + [c], used + 1, true)
         else Later(Edit(line, c), keys, used + 1, len, delim)
  {
    if used < |keys| {
      assert keys[used..][1..] == keys[used + 1..];
    }
  }

  lemma LaterStart(keys: string, len: nat, delim: char)
    ensures Later("", keys, 0, len, delim) == Read("", keys, len, delim)
  {
    assert keys[0..] == keys;
  }

  /** getdelim on a stream of keys; `done` is false while it still waits for the next one. */
  method GetDelim(buf: array<char>, len: nat, delim: char, verbose: bool, keys: string)
    returns (n: nat, used: nat, done: bool, echo: string)
    requires len <= buf.Length
    modifies buf
    ensures n <= len
    ensures Reading(buf[..n], used, done) == Read("", keys, len, delim)
    ensures done && n < len ==> buf[n] == '\0'
    ensures forall i :: len <= i < buf.Length ==> buf[i] == old(buf[i])
    ensures used <= |keys|
    ensures var ended := Ended(keys, used, delim);
      echo == (if verbose then EchoOf("", keys[..if ended then used - 1 else used]) else "")
              + (if ended then "\r\n" else "")
  {
    hide Read, EchoOf, SoFar, Edit;
    n, used, echo := 0, 0, "";
    NoKeyTaken(keys, len, delim, verbose);
    while n < len
      invariant n <= len && used <= |keys|
      invariant SoFar(buf[..n], keys, used, len, delim, verbose, echo)
      invariant forall i :: len <= i < buf.Length ==> buf[i] == old(buf[i])
      decreases |keys| - used
    {
      ghost var line := buf[..n];
      if used == |keys| {
        ReadSoFar(line, keys, used, len, delim, verbose, echo);
        done := false;
        return;
      }
      var c := keys[used];
      KeyTaken(line, keys, used, len, delim, verbose, echo);
      used := used + 1;
      if c != BACKSPACE {
        buf[n] := c;
        n := n + 1;
      }
      if c == delim {
        echo := echo + "\r\n";
        EndRead(buf, n, len);
        done := true;
        return;
      }
      if verbose && n > 0 {
        echo := echo + [c];
      }
      if c == BACKSPACE && n > 0 {
        n := n - 1;
      }
      EditCases(line, c);
      assert buf[..n] == Edit(line, c);
    }
    ReadSoFar(buf[..n], keys, used, len, delim, verbose, echo);
    done := true;
  }

  /** basic_in.c:44-46 */
  method EndRead(buf: array<char>, n: nat, len: nat)
    requires n <= len <= buf.Length
    modifies buf
    ensures buf[..n] == old(buf[..n]) && (n < len ==> buf[n] == '\0')
    ensures forall i :: len <= i < buf.Length ==> buf[i] == old(buf[i])
  {
    if n < len {
      buf[n] := '\0';
    }
  }

  lemma EditCases(line: string, c: char)
    ensures c != BACKSPACE ==> Edit(line, c) == line + [c]
    ensures c == BACKSPACE && line == "" ==> Edit(line, c) == ""
    ensures c == BACKSPACE && line != "" ==> Edit(line, c) == line[..|line| - 1]
  {}

  /** After `used` keys, none of them the delimiter, the line and the echo are theirs, and the read goes
      on from there. */
  ghost predicate SoFar(line: string, keys: string, used: nat, len: nat, delim: char, verbose: bool, echo: string) {
    && used <= |keys| && |line| <= len && delim !in keys[..used]
    && line == EditAll("", keys[..used])
    && Read("", keys, len, delim) == Later(line, keys, used, len, delim)
    && echo == if verbose then EchoOf("", keys[..used]) else ""
  }

  lemma NoKeyTaken(keys: string, len: nat, delim: char, verbose: bool)
    ensures SoFar("", keys, 0, len, delim, verbose, "")
  {
    hide Read, Later;
    LaterStart(keys, len, delim);
    EditNothing();
    assert keys[..0] == "";
  }

  /** The read waits for a key, or has a full line. */
  lemma ReadSoFar(line: string, keys: string, used: nat, len: nat, delim: char, verbose: bool, echo: string)
    requires SoFar(line, keys, used, len, delim, verbose, echo) && (used == |keys| || |line| == len)
    ensures Read("", keys, len, delim) == Reading(line, used, |line| == len)
    ensures !Ended(keys, used, delim) && echo == if verbose then EchoOf("", keys[..used]) else ""
  {
    hide Read, Later, EditAll, EchoOf;
    LaterStep(line, keys, used, len, delim);
    assert used > 0 ==> keys[..used][used - 1] in keys[..used];
  }

  lemma KeyTaken(line: string, keys: string, used: nat, len: nat, delim: char, verbose: bool, echo: string)
    requires SoFar(line, keys, used, len, delim, verbose, echo) && |line| < len && used < |keys|
    ensures var c := keys[used];
      if c == delim then
        && Ended(keys, used + 1, delim)
        && Read("", keys, len, delim) == Reading(if c == BACKSPACE then line else line + [c], used + 1, true)
        && echo == if verbose then EchoOf("", keys[..used]) else ""
      else
        SoFar(Edit(line, c), keys, used + 1, len, delim, verbose,
              if verbose && !(c == BACKSPACE && line == "") then echo + [c] else echo)
  {
    hide Read, Later, EditAll, EchoOf;
    LaterStep(line, keys, used, len, delim);
    assert keys[..used + 1] == keys[..used] + [keys[used]];
    EditSnoc("", keys[..used], keys[used]);
  }

  lemma EditNothing()
    ensures EditAll("", "") == "" && EchoOf("", "") == ""
  {}
}
