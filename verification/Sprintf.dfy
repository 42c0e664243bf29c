/** vsprintf (libc/stdio/sprintf.c:17-197): the text of module Format, and exactly which other byte
    of the destination it may change. */
module Sprintf {
  import opened Options
  import opened NumberText
  import opened Format
  import opened Formatters

  /** From `m` to `r`, `text` has been written at `pos`; the character behind it is a NUL if `nul`
      holds, and else untouched like every other. */
  ghost predicate Wrote(m: seq<char>, r: seq<char>, pos: nat, text: string, nul: bool) {
    && |r| == |m| && pos + |text| < |m|
    && (forall i :: 0 <= i < |m| ==>
          r[i] == if pos <= i < pos + |text| then text[i - pos]
                  else if nul && i == pos + |text| then '\0'
                  else m[i])
  }

  lemma WroteThen(m: seq<char>, m1: seq<char>, r: seq<char>, pos: nat, text: string, nul: bool, more: string,
                  nul2: bool)
    requires Wrote(m, m1, pos, text, nul)
    requires Wrote(m1, r, pos + |text|, more, nul2)
    ensures Wrote(m, r, pos, text + more, nul2 || (more == "" && nul))
  {}

  lemma WroteNothing(m: seq<char>, pos: nat)
    requires pos < |m|
    ensures Wrote(m, m, pos, "", false)
  {}

  /** strcpy of this libc, str_operations.c:75-89: it does not copy the NUL. */
  method StrCpy(a: array<char>, dest: nat, src: string) returns (end: nat)
    requires '\0' !in src && dest + |src| < a.Length
    modifies a
    ensures end == dest + |src| && Wrote(old(a[..]), a[..], dest, src, false)
  {
    var i := 0;
    assert forall k :: 0 <= k < |src| ==> src[k] in src;
    while At(src, i) != '\0'
      invariant 0 <= i <= |src| && Wrote(old(a[..]), a[..], dest, src[..i], false)
      decreases |src| - i
    {
      a[dest + i] := src[i];
      i := i + 1;
    }
    assert src[..|src|] == src;
    end := dest + i;
  }

  /** strcpydelim, str_operations.c:106-121: the part of `src` before the delimiter, and a NUL. */
  method StrCpyDelim(a: array<char>, dest: nat, src: string, start: nat, ghost stop: nat, delim: char)
    returns (end: nat)
    requires '\0' !in src && start <= stop < |src| && src[stop] == delim && delim !in src[start..stop]
    requires dest + (stop - start) < a.Length
    modifies a
    ensures end == dest + (stop - start) && Wrote(old(a[..]), a[..], dest, src[start..stop], true)
  {
    var i := start;
    assert forall k :: start <= k < stop ==> src[k] in src[start..stop];
    while src[i] != delim && src[i] != '\0'
      invariant start <= i <= stop && Wrote(old(a[..]), a[..], dest, src[start..i], false)
      decreases stop - i
    {
      a[dest + (i - start)] := src[i];
      i := i + 1;
    }
    assert src[i] in src;
    end := dest + (i - start);
    a[end] := '\0';
  }

  /** sprintf.c:136-143 */
  method WritePrefix(a: array<char>, str: nat, d: Directive) returns (end: nat)
    requires str + |Prefix(d)| < a.Length
    modifies a
    ensures end == str + |Prefix(d)| && Wrote(old(a[..]), a[..], str, Prefix(d), false)
  {
    end := str;
    if d.showBase {
      if d.conv == 'p' || d.conv == 'x' {
        end := StrCpy(a, str, "0x");
      } else if d.conv == 'b' {
        end := StrCpy(a, str, "1'b");
      }
    }
  }

  /** The conversion leaves a NUL behind it: %c and %% write one, %s of an empty string keeps the one
      that strcpydelim has left. */
  predicate LeavesNul(d: Directive, x: Arg)
    requires Known(d.conv) && (TakesArg(d.conv) ==> Accepts(d, x))
  {
    d.conv == 'c' || d.conv == '%' || Body(d, x) == ""
  }

  /** sprintf.c:149-150 and 188-189: the character, and a NUL behind it. */
  method WriteChar(a: array<char>, str: nat, c: char) returns (end: nat)
    requires str + 1 < a.Length
    modifies a
    ensures end == str + 1 && Wrote(old(a[..]), a[..], str, [c], true)
  {
    a[str] := c;
    end := str + 1;
    a[end] := '\0';
  }

  /** sprintf.c:172-179: the padding, if asked for, and a NUL. */
  method WriteZeros(a: array<char>, str: nat, n: nat) returns (end: nat)
    requires str + n < a.Length
    modifies a
    ensures end == str + n && Wrote(old(a[..]), a[..], str, Zeros(n), true)
  {
    end := str;
    for i := 0 to n
      invariant end == str + i && Wrote(old(a[..]), a[..], str, Zeros(i), false)
    {
      a[end] := '0';
      end := end + 1;
    }
    a[end] := '\0';
  }

  /** sprintf.c:145-193 */
  method WriteBody(a: array<char>, str: nat, d: Directive, x: Arg, buf: array<char>) returns (end: nat)
    requires Known(d.conv) && (TakesArg(d.conv) ==> Accepts(d, x))
    requires d.conv == 'd' || Unsigned(d.conv) ==> IsString(buf[..], 0, Number(d, x))
    requires buf != a && str + |Body(d, x)| < a.Length
    modifies a
    ensures end == str + |Body(d, x)| && Wrote(old(a[..]), a[..], str, Body(d, x), d.conv == 'c' || d.conv == '%')
  {
    if d.conv == 'c' {
      end := WriteChar(a, str, (x.u % 0x100) as char);
    } else if d.conv == 's' {
      end := StrCpy(a, str, if x.s.Some? then x.s.value else "null");
    } else if d.conv == '%' {
      end := WriteChar(a, str, '%');
    } else {
      end := WriteNumber(a, str, d, Number(d, x), buf);
    }
  }

  /** sprintf.c:171-181 */
  method WriteNumber(a: array<char>, str: nat, d: Directive, ghost n: string, buf: array<char>) returns (end: nat)
    requires IsString(buf[..], 0, n) && n != "" && buf != a
    requires str + (if d.zeroFill then Padding(d.width, |n|) else 0) + |n| < a.Length
    modifies a
    ensures var text := if d.zeroFill then Zeros(Padding(d.width, |n|)) + n else n;
      end == str + |text| && Wrote(old(a[..]), a[..], str, text, false)
  {
    end := str;
    var nchars := StrLen(buf, n);
    ghost var m := a[..];
    if d.zeroFill {
      end := WriteZeros(a, str, (d.width - nchars) % TWO_32);
    }
    assert buf[..nchars] == buf[..][0..|n|] == n;
    ghost var m1, mid := a[..], end;
    end := StrCpy(a, end, buf[..nchars]);
    if d.zeroFill {
      WroteThen(m, m1, a[..], str, Zeros(Padding(d.width, |n|)), true, n, false);
    }
  }

  /** sprintf.c:132-193 */
  method WriteDirective(a: array<char>, str: nat, fmt: string, strStart: nat, ghost mark: nat, d: Directive, x: Arg,
                        buf: array<char>) returns (end: nat)
    requires '\0' !in fmt && strStart <= mark < |fmt| && fmt[mark] == '%' && '%' !in fmt[strStart..mark]
    requires Known(d.conv) && (TakesArg(d.conv) ==> Accepts(d, x))
    requires d.conv == 'd' || Unsigned(d.conv) ==> IsString(buf[..], 0, Number(d, x))
    requires buf != a && str + |fmt[strStart..mark] + Prefix(d) + Body(d, x)| < a.Length
    modifies a
    ensures end == str + |fmt[strStart..mark] + Prefix(d) + Body(d, x)|
    ensures Wrote(old(a[..]), a[..], str, fmt[strStart..mark] + Prefix(d) + Body(d, x), LeavesNul(d, x))
  {
    hide Body, Prefix, LeavesNul, Accepts, Wrote, IsString;
    ghost var m, text := a[..], fmt[strStart..mark];
    LeavesNulParts(d, x);
    end := StrCpyDelim(a, str, fmt, strStart, mark, '%');
    ghost var m1 := a[..];
    end := WritePrefix(a, end, d);
    ghost var m2 := a[..];
    WroteThen(m, m1, m2, str, text, true, Prefix(d), false);
    end := WriteBody(a, end, d, x, buf);
    WroteThen(m, m2, a[..], str, text + Prefix(d), Prefix(d) == "", Body(d, x), d.conv == 'c' || d.conv == '%');
  }

  lemma LeavesNulParts(d: Directive, x: Arg)
    requires Known(d.conv) && (TakesArg(d.conv) ==> Accepts(d, x))
    ensures LeavesNul(d, x) <==> d.conv == 'c' || d.conv == '%' || (Body(d, x) == "" && Prefix(d) == "")
  {}

  /** A NUL stands behind the text whatever was there before: nothing follows the last conversion,
      and that one leaves a NUL. */
  predicate EndsInNul(fmt: string, i: nat, args: seq<Arg>, last: bool)
    requires i <= |fmt|
    decreases |fmt| - i
  {
    var m := Mark(fmt, i);
    if m == |fmt| then i == |fmt| && last
    else
      var d := Parse(fmt, m + 1);
      if !Known(d.conv) || (TakesArg(d.conv) && (args == [] || !Accepts(d, args[0]))) then last
      else
        EndsInNul(fmt, d.next, if TakesArg(d.conv) then args[1..] else args,
                  LeavesNul(d, if args == [] then U32(0) else args[0]))
  }

  lemma NulStep(fmt: string, i: nat, m: nat, args: seq<Arg>, ap: nat, last: bool)
    requires i <= m < |fmt| && ap <= |args| && m == Mark(fmt, i)
    requires Formatted(fmt, i, args[ap..]).end != WrongArgument
    ensures var d, e := Parse(fmt, m + 1), EndsInNul(fmt, i, args[ap..], last);
      if !Known(d.conv) then e == last
      else if TakesArg(d.conv) then
        && ap < |args| && Accepts(d, args[ap]) && d.next <= |fmt|
        && e == EndsInNul(fmt, d.next, args[ap + 1..], LeavesNul(d, args[ap]))
      else
        d.next <= |fmt| && e == EndsInNul(fmt, d.next, args[ap..], LeavesNul(d, U32(0)))
  {
    hide Mark, Parse, Body, Prefix, Accepts, Formatted;
    FormattedAt(fmt, i, args[ap..]);
    if ap < |args| {
      assert args[ap..][1..] == args[ap + 1..];
    }
  }

  /** One turn of the loop, for the '%' at `mark`. `nul` tells whether a NUL stands at `end`. */
  method Turn(a: array<char>, str: nat, fmt: string, strStart: nat, mark: nat, args: seq<Arg>, ap: nat,
              buf: array<char>, ghost last: bool)
    returns (end: nat, strNext: nat, apNext: nat, panicked: bool, ghost text: string, ghost nul: bool)
    requires '\0' !in fmt && strStart <= mark < |fmt| && ap <= |args| && buf.Length == 65 && buf != a
    requires fmt[mark] == '%' && '%' !in fmt[strStart..mark]
    requires Formatted(fmt, strStart, args[ap..]).end != WrongArgument
    requires str + |Formatted(fmt, strStart, args[ap..]).text| < a.Length
    modifies a, buf
    ensures var o, e := Formatted(fmt, strStart, args[ap..]), EndsInNul(fmt, strStart, args[ap..], last);
      if panicked then
        end == str && a[..] == old(a[..]) && o == Output("", UnknownSymbol) && e == last
      else
        && strStart < strNext <= |fmt| && apNext <= |args| && end == str + |text|
        && Wrote(old(a[..]), a[..], str, text, nul)
        && e == EndsInNul(fmt, strNext, args[apNext..], nul)
        && var rest := Formatted(fmt, strNext, args[apNext..]);
           o == Output(text + rest.text, rest.end)
    ensures !panicked && text == "" ==> nul
  {
    hide Formatted, Parse, Body, Prefix, Mark, Accepts, IsString, EndsInNul, Wrote, LeavesNul;
    MarkUnique(fmt, strStart, mark);
    FormattedStep(fmt, strStart, mark, args, ap);
    NulStep(fmt, strStart, mark, args, ap, last);
    var d := ParseDirective(fmt, mark);
    end, strNext, apNext, panicked, text, nul := str, strStart, ap, !Known(d.conv), "", false;
    if !panicked {
      var x;
      x, apNext := Fetch(d, args, ap, buf);
      text, nul := fmt[strStart..mark] + Prefix(d) + Body(d, x), LeavesNul(d, x);
      end := WriteDirective(a, str, fmt, strStart, mark, d, x, buf);
      strNext := d.next;
      EmptyLeavesNul(d, x);
    }
  }

  lemma EmptyLeavesNul(d: Directive, x: Arg)
    requires Known(d.conv) && (TakesArg(d.conv) ==> Accepts(d, x))
    ensures Body(d, x) == "" ==> LeavesNul(d, x)
  {}

  /** What is left of the format completes what is written to `goal`. */
  ghost predicate Remains(fmt: string, i: nat, args: seq<Arg>, written: string, goal: Output) {
    i <= |fmt| && var rest := Formatted(fmt, i, args); goal == Output(written + rest.text, rest.end)
  }

  /** sprintf.c:196: what follows the last conversion, without a NUL. */
  method WriteTail(a: array<char>, str: nat, fmt: string, strStart: nat, args: seq<Arg>, ghost last: bool)
    returns (end: nat)
    requires '\0' !in fmt && strStart <= |fmt| && '%' !in fmt[strStart..]
    requires str + |fmt[strStart..]| < a.Length
    modifies a
    ensures Formatted(fmt, strStart, args) == Output(fmt[strStart..], Complete)
    ensures EndsInNul(fmt, strStart, args, last) == (fmt[strStart..] == "" && last)
    ensures end == str + |fmt[strStart..]| && Wrote(old(a[..]), a[..], str, fmt[strStart..], false)
  {
    FormattedTail(fmt, strStart, args);
    NulTail(fmt, strStart, args, last);
    end := StrCpy(a, str, fmt[strStart..]);
  }

  /** vsprintf writes the text of the format, the same that vprintf emits. Behind it stands a NUL if
      EndsInNul says so, and else the character that was there before; nothing else changes. */
  method VSprintf(a: array<char>, str: nat, fmt: string, args: seq<Arg>) returns (end: nat, panicked: bool)
    requires '\0' !in fmt
    requires Formatted(fmt, 0, args).end != WrongArgument
    requires str + |Formatted(fmt, 0, args).text| < a.Length
    modifies a
    ensures end == str + |Formatted(fmt, 0, args).text|
    ensures Wrote(old(a[..]), a[..], str, Formatted(fmt, 0, args).text, EndsInNul(fmt, 0, args, false))
    ensures panicked <==> Formatted(fmt, 0, args).end == UnknownSymbol
  {
    hide Formatted, EndsInNul, Wrote;
    var strStart: nat, ap: nat := 0, 0;
    var buf := new char[65];
    ghost var m, goal, written, nul := a[..], Formatted(fmt, 0, args), "", false;
    assert args[0..] == args;
    WroteNothing(m, str);
    end := str;
    var mark := StrChr(fmt, strStart, '%');
    while mark.Some?
      invariant ap <= |args| && end == str + |written| && First(fmt, strStart, '%', mark)
      invariant Remains(fmt, strStart, args[ap..], written, goal)
      invariant Wrote(m, a[..], str, written, nul)
      invariant EndsInNul(fmt, strStart, args[ap..], nul) == EndsInNul(fmt, 0, args, false)
      decreases |fmt| - strStart
    {
      ghost var m1, text, left := a[..], "", false;
      end, strStart, ap, panicked, text, left := Turn(a, end, fmt, strStart, mark.value, args, ap, buf, nul);
      if panicked {
        assert goal.text == written;
        return;
      }
      WroteThen(m, m1, a[..], str, written, nul, text, left);
      written, nul := written + text, left;
      mark := StrChr(fmt, strStart, '%');
    }
    ghost var m1 := a[..];
    FormattedTail(fmt, strStart, args[ap..]);
    end := WriteTail(a, end, fmt, strStart, args[ap..], nul);
    WroteThen(m, m1, a[..], str, written, nul, fmt[strStart..], false);
    panicked := false;
  }

  /** The two formatters agree, character for character, on every format and argument list. */
  method PrintBoth(console: Console, a: array<char>, str: nat, fmt: string, args: seq<Arg>) returns (end: nat)
    requires '\0' !in fmt
    requires Formatted(fmt, 0, args).end != WrongArgument
    requires str + |Formatted(fmt, 0, args).text| < a.Length
    modifies console, a
    ensures str <= end <= a.Length && console.out == old(console.out) + a[str..end]
  {
    var _ := console.VPrintf(fmt, args);
    var panicked;
    end, panicked := VSprintf(a, str, fmt, args);
    assert a[str..end] == Formatted(fmt, 0, args).text;
  }

  lemma NulTail(fmt: string, i: nat, args: seq<Arg>, last: bool)
    requires i <= |fmt| && '%' !in fmt[i..]
    ensures EndsInNul(fmt, i, args, last) <==> fmt[i..] == "" && last
  {
    assert fmt[i..|fmt|] == fmt[i..];
    MarkUnique(fmt, i, |fmt|);
  }

  // ---------------------------------------------------------------- which strings are terminated

  /** The last directive of `ds` is %c or %%, or a %s of an empty string. */
  predicate LastLeavesNul(ds: seq<Directive>, args: seq<Arg>)
    requires ds != [] && Taken(ds) <= |args|
  {
    var d := ds[|ds| - 1];
    d.conv == 'c' || d.conv == '%' || (d.conv == 's' && args[Taken(ds) - 1] == Str(Some("")))
  }

  /** A NUL stands behind the text exactly if the format ends with a directive that is %c or %%, or the
      %s of an empty string. It never does after a number, nor after plain text. */
  lemma EndsInNulIff(fmt: string, args: seq<Arg>)
    requires Formatted(fmt, 0, args).end == Complete
    ensures Taken(Directives(fmt, 0)) <= |args|
    ensures var ds := Directives(fmt, 0);
      EndsInNul(fmt, 0, args, false) <==> ds != [] && ds[|ds| - 1].next == |fmt| && LastLeavesNul(ds, args)
    ensures var ds := Directives(fmt, 0);
      ds == [] || ds[|ds| - 1].conv == 'd' || Unsigned(ds[|ds| - 1].conv) ==> !EndsInNul(fmt, 0, args, false)
  {
    hide *;
    EndsFrom(fmt, 0, args, false);
    NumbersLeaveNone(Directives(fmt, 0), args);
  }

  lemma NumbersLeaveNone(ds: seq<Directive>, args: seq<Arg>)
    requires Taken(ds) <= |args|
    ensures ds != [] && (ds[|ds| - 1].conv == 'd' || Unsigned(ds[|ds| - 1].conv)) ==> !LastLeavesNul(ds, args)
  {}

  lemma {:induction false} EndsFrom(fmt: string, i: nat, args: seq<Arg>, last: bool)
    requires i <= |fmt| && Formatted(fmt, i, args).end == Complete
    ensures Taken(Directives(fmt, i)) <= |args|
    ensures var ds := Directives(fmt, i);
      EndsInNul(fmt, i, args, last) <==>
      if ds == [] then i == |fmt| && last else ds[|ds| - 1].next == |fmt| && LastLeavesNul(ds, args)
    decreases |fmt| - i
  {
    hide Mark, Parse, Body, Prefix, Accepts, Formatted, Directed, Directives, Taken;
    hide LeavesNul, EndsInNul, LastLeavesNul;
    if Mark(fmt, i) < |fmt| {
      var d := Parse(fmt, Mark(fmt, i) + 1);
      CompleteStep(fmt, i, args, Mark(fmt, i), d);
      EndsStep(fmt, i, args, last);
      var x := if args == [] then U32(0) else args[0];
      EndsFrom(fmt, d.next, Left(d, args), LeavesNul(d, x));
      NulLeftIff(d, x);
      LastOf(d, Directives(fmt, d.next), args);
    } else {
      EndsPlain(fmt, i, args, last);
    }
  }

  lemma EndsStep(fmt: string, i: nat, args: seq<Arg>, last: bool)
    requires i <= |fmt| && Mark(fmt, i) < |fmt|
    requires var d := Parse(fmt, Mark(fmt, i) + 1);
      Known(d.conv) && d.next <= |fmt| && (TakesArg(d.conv) ==> args != [] && Accepts(d, args[0]))
    ensures var d := Parse(fmt, Mark(fmt, i) + 1);
      EndsInNul(fmt, i, args, last)
      == EndsInNul(fmt, d.next, Left(d, args), LeavesNul(d, if args == [] then U32(0) else args[0]))
  {
    hide Mark, Parse, Body, Prefix, Accepts, LeavesNul;
  }

  lemma EndsPlain(fmt: string, i: nat, args: seq<Arg>, last: bool)
    requires i <= |fmt| && Mark(fmt, i) == |fmt|
    ensures Directives(fmt, i) == [] && Taken(Directives(fmt, i)) == 0
    ensures EndsInNul(fmt, i, args, last) <==> i == |fmt| && last
  {
    hide Mark, Parse;
  }

  lemma LastOf(d: Directive, rest: seq<Directive>, args: seq<Arg>)
    requires TakesArg(d.conv) ==> args != []
    requires Taken(rest) <= |Left(d, args)|
    ensures var ds := [d] + rest;
      && Taken(ds) <= |args|
      && ds[|ds| - 1] == (if rest == [] then d else rest[|rest| - 1])
      && (rest != [] ==> (LastLeavesNul(ds, args) <==> LastLeavesNul(rest, Left(d, args))))
      && (rest == [] ==> (LastLeavesNul(ds, args) <==>
            d.conv == 'c' || d.conv == '%' || (d.conv == 's' && args[0] == Str(Some("")))))
  {
    assert ([d] + rest)[1..] == rest;
  }

  lemma NulLeftIff(d: Directive, x: Arg)
    requires Known(d.conv) && (TakesArg(d.conv) ==> Accepts(d, x))
    ensures LeavesNul(d, x) <==> d.conv == 'c' || d.conv == '%' || (d.conv == 's' && x == Str(Some("")))
  {}
}
