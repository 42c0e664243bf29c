/** The two formatter loops, vprintf (libc/stdio/printf.c:17-194) and vsprintf
    (libc/stdio/sprintf.c:17-197), proved to produce the text of module Format. */
module Formatters {
  import opened Options
  import opened Numerals
  import opened NumberText
  import opened Format

  /** `mark` is the first `c` from `start` on, if there is one. */
  ghost predicate First(str: string, start: nat, c: char, mark: Option<nat>) {
    && start <= |str|
    && (mark.None? ==> c !in str[start..])
    && (mark.Some? ==> start <= mark.value < |str| && str[mark.value] == c && c !in str[start..mark.value])
  }

  /** strchr for a character other than NUL: its index, none if the string ends first. */
  method StrChr(str: string, start: nat, c: char) returns (mark: Option<nat>)
    requires start <= |str| && '\0' !in str && c != '\0'
    ensures First(str, start, c, mark)
  {
    var i := start;
    while At(str, i) != c && At(str, i) != '\0'
      invariant start <= i <= |str| && c !in str[start..i]
      decreases |str| - i
    {
      assert str[start..i + 1] == str[start..i] + [str[i]];
      i := i + 1;
    }
    if At(str, i) == c {
      mark := Some(i);
    } else {
      assert str[start..i] == str[start..];
      mark := None;
    }
  }

  lemma MarkUnique(fmt: string, i: nat, m: nat)
    requires i <= m <= |fmt| && '%' !in fmt[i..m] && (m < |fmt| ==> fmt[m] == '%')
    ensures Mark(fmt, i) == m
  {
    var k := Mark(fmt, i);
    assert forall j :: i <= j < m ==> fmt[j] in fmt[i..m];
    assert forall j :: i <= j < k ==> fmt[j] in fmt[i..k];
  }

  lemma FormattedTail(fmt: string, i: nat, args: seq<Arg>)
    requires i <= |fmt| && '%' !in fmt[i..]
    ensures Formatted(fmt, i, args) == Output(fmt[i..], Complete)
  {
    assert fmt[i..|fmt|] == fmt[i..];
    MarkUnique(fmt, i, |fmt|);
  }

  /** One turn of either loop: the directive at the next '%', with the argument it takes. */
  lemma FormattedStep(fmt: string, i: nat, m: nat, args: seq<Arg>, ap: nat)
    requires i <= m < |fmt| && ap <= |args| && m == Mark(fmt, i)
    requires Formatted(fmt, i, args[ap..]).end != WrongArgument
    ensures var d, o := Parse(fmt, m + 1), Formatted(fmt, i, args[ap..]);
      if !Known(d.conv) then o == Output("", UnknownSymbol)
      else if TakesArg(d.conv) then
        && ap < |args| && Accepts(d, args[ap]) && d.next <= |fmt|
        && var rest := Formatted(fmt, d.next, args[ap + 1..]);
           o == Output(fmt[i..m] + Prefix(d) + Body(d, args[ap]) + rest.text, rest.end)
      else
        && d.next <= |fmt|
        && var rest := Formatted(fmt, d.next, args[ap..]);
           o == Output(fmt[i..m] + Prefix(d) + Body(d, U32(0)) + rest.text, rest.end)
  {
    hide Mark, Parse, Prefix, Accepts, Formatted;
    FormattedAt(fmt, i, args[ap..]);
    if ap < |args| {
      assert args[ap..][1..] == args[ap + 1..];
    }
  }

  /** printf.c:32-66 and sprintf.c:32-66: flags, width and length after the '%' at `percent`. */
  method ParseDirective(fmt: string, percent: nat) returns (d: Directive)
    requires percent < |fmt|
    ensures d == Parse(fmt, percent + 1)
  {
    var mark := percent + 1;
    var showBase, zeroFill, width, long := false, false, -1, false;
    if At(fmt, mark) == '#' {
      showBase := true;
      mark := mark + 1;
    }
    if At(fmt, mark) == '0' {
      zeroFill := true;
      mark := mark + 1;
      width := 0;
      ghost var start := mark;
      while At(fmt, mark) <= '9' && At(fmt, mark) >= '0' && width < 21
        invariant start <= mark <= |fmt| && 0 <= width <= 29
        invariant WidthFrom(fmt, start, 0) == WidthFrom(fmt, mark, width)
        decreases |fmt| - mark
      {
        width := width + (At(fmt, mark) as int - 48);
        mark := mark + 1;
      }
      if width == 0 {
        width := -1;
        zeroFill := false;
      }
    }
    if At(fmt, mark) == 'l' {
      long := true;
      mark := mark + 1;
    }
    d := Directive(showBase, zeroFill, width, long, At(fmt, mark), mark + 1);
  }

  /** The digits of every argument fit buf_nbtostring. */
  lemma NumberFits(d: Directive, a: Arg)
    requires (d.conv == 'd' || Unsigned(d.conv)) && Accepts(d, a)
    ensures |Number(d, a)| <= 64 && '\0' !in Number(d, a)
  {
    if d.conv == 'd' {
      var n := if d.long then a.l else a.i;
      assert Pow2(63) == TWO_63 by { Pow2Of64(); }
      DigitsLength(if n < 0 then -n else n, 10, 63);
      DigitsHaveNoNul(if n < 0 then -n else n, 10);
    } else {
      var n := if d.long then a.v else a.u;
      var base := if d.conv == 'p' || d.conv == 'x' then 16 else 10;
      DigitsFit(n, base);
      DigitsHaveNoNul(n, base);
    }
  }

  /** printf.c:87-117: the number is converted into a local buffer of 65 characters. */
  method Convert(d: Directive, a: Arg, buf: array<char>)
    requires (d.conv == 'd' || Unsigned(d.conv)) && Accepts(d, a)
    requires buf.Length == 65
    modifies buf
    ensures IsString(buf[..], 0, Number(d, a))
  {
    NumberFits(d, a);
    if d.conv == 'd' {
      IntToString(if d.long then a.l else a.i, buf, 0, 10);
    } else {
      UIntToString(if d.long then a.v else a.u, buf, 0, if d.conv == 'p' || d.conv == 'x' then 16 else 10);
    }
  }

  /** printf.c:73-130: the argument the directive takes, converted if it is a number. */
  method Fetch(d: Directive, args: seq<Arg>, ap: nat, buf: array<char>) returns (a: Arg, ap': nat)
    requires Known(d.conv) && buf.Length == 65
    requires TakesArg(d.conv) ==> ap < |args| && Accepts(d, args[ap])
    modifies buf
    ensures if TakesArg(d.conv) then ap' == ap + 1 && a == args[ap] else ap' == ap && a == U32(0)
    ensures d.conv == 'd' || Unsigned(d.conv) ==> IsString(buf[..], 0, Number(d, a))
  {
    a, ap' := U32(0), ap;
    if TakesArg(d.conv) {
      a := args[ap];
      ap' := ap + 1;
      if d.conv == 'd' || Unsigned(d.conv) {
        Convert(d, a, buf);
      }
    }
  }

  /** strlen */
  method StrLen(a: array<char>, ghost s: string) returns (count: nat)
    requires IsString(a[..], 0, s)
    ensures count == |s|
  {
    count := 0;
    assert forall k :: 0 <= k < |s| ==> s[k] == a[k] && s[k] in s;
    while a[count] != '\0'
      invariant count <= |s|
      decreases |s| - count
    {
      count := count + 1;
    }
  }

  // ---------------------------------------------------------------- vprintf

  /** Where the characters of vprintf go, in order. */
  class Console {
    var out: string

    constructor ()
      ensures out == ""
    {
      out := "";
    }

    method Putc(c: char)
      modifies this
      ensures out == old(out) + [c]
    {
      out := out + [c];
    }

    /** putsdelim on a string in which the delimiter, or the NUL for puts, comes at `end`. */
    method Puts(s: string, start: nat, ghost end: nat, delim: char)
      requires start <= end <= |s| && At(s, end) == delim && delim !in s[start..end]
      modifies this
      ensures out == old(out) + s[start..end]
    {
      var i := start;
      assert forall k :: start <= k < end ==> s[k] in s[start..end];
      while At(s, i) != delim
        invariant start <= i <= end
        invariant out == old(out) + s[start..i]
        decreases end - i
      {
        assert s[start..i + 1] == s[start..i] + [s[i]];
        Putc(s[i]);
        i := i + 1;
      }
    }

    method PutZeros(n: nat)
      modifies this
      ensures out == old(out) + Zeros(n)
    {
      for i := 0 to n
        invariant out == old(out) + Zeros(i)
      {
        Putc('0');
        assert Zeros(i + 1) == Zeros(i) + ['0'];
      }
    }

    /** printf.c:136-143 */
    method PutPrefix(d: Directive)
      modifies this
      ensures out == old(out) + Prefix(d)
    {
      if d.showBase {
        if d.conv == 'p' || d.conv == 'x' {
          Puts("0x", 0, 2, '\0');
        } else if d.conv == 'b' {
          Puts("1'b", 0, 3, '\0');
        }
      }
    }

    /** printf.c:145-190 */
    method PutBody(d: Directive, a: Arg, buf: array<char>)
      requires Known(d.conv) && (TakesArg(d.conv) ==> Accepts(d, a))
      requires d.conv == 'd' || Unsigned(d.conv) ==> IsString(buf[..], 0, Number(d, a))
      modifies this
      ensures out == old(out) + Body(d, a)
    {
      if d.conv == 'c' {
        Putc((a.u % 0x100) as char);
      } else if d.conv == 's' {
        var s := if a.s.Some? then a.s.value else "null";
        Puts(s, 0, |s|, '\0');
        assert s[0..|s|] == s;
      } else if d.conv == '%' {
        Putc('%');
      } else {
        ghost var n := Number(d, a);
        if d.zeroFill {
          var nchars := StrLen(buf, n);
          PutZeros((d.width - nchars) % TWO_32);
        }
        assert buf[..][0..|n|] == n;
        Puts(buf[..], 0, |n|, '\0');
      }
    }

    /** printf.c:133-190: the text before the '%', then the conversion. */
    method PutDirective(fmt: string, strStart: nat, ghost mark: nat, d: Directive, a: Arg, buf: array<char>)
      requires strStart <= mark < |fmt| && fmt[mark] == '%' && '%' !in fmt[strStart..mark]
      requires Known(d.conv) && (TakesArg(d.conv) ==> Accepts(d, a))
      requires d.conv == 'd' || Unsigned(d.conv) ==> IsString(buf[..], 0, Number(d, a))
      modifies this
      ensures out == old(out) + (fmt[strStart..mark] + Prefix(d) + Body(d, a))
    {
      Puts(fmt, strStart, mark, '%');
      PutPrefix(d);
      PutBody(d, a, buf);
    }

    /** One turn of the loop, for the '%' at `mark`. */
    method Turn(fmt: string, strStart: nat, mark: nat, args: seq<Arg>, ap: nat, buf: array<char>)
      returns (strNext: nat, apNext: nat, panicked: bool)
      requires strStart <= mark < |fmt| && ap <= |args| && buf.Length == 65
      requires fmt[mark] == '%' && '%' !in fmt[strStart..mark]
      requires Formatted(fmt, strStart, args[ap..]).end != WrongArgument
      modifies this, buf
      ensures var o := Formatted(fmt, strStart, args[ap..]);
        if panicked then out == old(out) && o == Output("", UnknownSymbol)
        else
          && strStart < strNext <= |fmt| && apNext <= |args|
          && var rest := Formatted(fmt, strNext, args[apNext..]);
             out + rest.text == old(out) + o.text && rest.end == o.end
    {
      hide Formatted, Parse, Body, Prefix, Mark, Accepts, IsString;
      MarkUnique(fmt, strStart, mark);
      FormattedStep(fmt, strStart, mark, args, ap);
      var d := ParseDirective(fmt, mark);
      strNext, apNext, panicked := strStart, ap, !Known(d.conv);
      if !panicked {
        var a;
        a, apNext := Fetch(d, args, ap, buf);
        PutDirective(fmt, strStart, mark, d, a, buf);
        strNext := d.next;
      }
    }

    /** vprintf emits exactly the text of the format, up to an unknown symbol. */
    method VPrintf(fmt: string, args: seq<Arg>) returns (panicked: bool)
      requires '\0' !in fmt
      requires Formatted(fmt, 0, args).end != WrongArgument
      modifies this
      ensures out == old(out) + Formatted(fmt, 0, args).text
      ensures panicked <==> Formatted(fmt, 0, args).end == UnknownSymbol
    {
      hide Formatted;
      var strStart: nat, ap: nat := 0, 0;
      var buf := new char[65];
      ghost var goal := Formatted(fmt, 0, args);
      assert args[0..] == args;
      var mark := StrChr(fmt, strStart, '%');
      while mark.Some?
        invariant ap <= |args| && First(fmt, strStart, '%', mark)
        invariant old(out) + goal.text == out + Formatted(fmt, strStart, args[ap..]).text
        invariant Formatted(fmt, strStart, args[ap..]).end == goal.end
        decreases |fmt| - strStart
      {
        strStart, ap, panicked := Turn(fmt, strStart, mark.value, args, ap, buf);
        if panicked {
          return;
        }
        mark := StrChr(fmt, strStart, '%');
      }
      FormattedTail(fmt, strStart, args[ap..]);
      Puts(fmt, strStart, |fmt|, '\0');
      assert fmt[strStart..|fmt|] == fmt[strStart..];
      panicked := false;
    }
  }
}
