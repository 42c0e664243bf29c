/** What a format string asks for (libc/stdio/printf.c and sprintf.c, which parse it alike): one
    recursive definition of the text, for any conversions and arguments. */
module Format {
  import opened Options
  import opened Numerals

  const TWO_32: int := 0x1_0000_0000

  /** One variadic argument, with the type it was passed with. */
  datatype Arg = U32(u: nat) | U64(v: nat) | I32(i: int) | I64(l: int) | Str(s: Option<string>)

  /** The values the types hold; a string has no NUL inside, and the least 64-bit number cannot be
      negated by inttostring. */
  predicate GoodArg(a: Arg) {
    match a
    case U32(u) => u < TWO_32
    case U64(v) => v < TWO_64
    case I32(i) => -0x8000_0000 <= i < 0x8000_0000
    case I64(l) => -TWO_63 < l < TWO_63
    case Str(s) => s.Some? ==> '\0' !in s.value
  }

  /** Character `i` of a C string, its NUL included. */
  function At(fmt: string, i: nat): char {
    if i < |fmt| then fmt[i] else '\0'
  }

  /** What stands between '%' and the end of a conversion; `next` is the index after it. */
  datatype Directive = Directive(showBase: bool, zeroFill: bool, width: int, long: bool, conv: char, next: nat)

  /** The width loop adds the digits up, and stops once the sum is 21 or more (printf.c:50-55). */
  function WidthFrom(fmt: string, i: nat, width: nat): (r: (nat, nat))
    requires i <= |fmt|
    ensures i <= r.1 <= |fmt| && width <= r.0 && (width < 21 ==> r.0 <= 29)
    decreases |fmt| - i
  {
    if IsDigit(At(fmt, i)) && width < 21 then WidthFrom(fmt, i + 1, width + (At(fmt, i) as int - 48)) else (width, i)
  }

  /** The directive whose '%' is just before index `i`. */
  function Parse(fmt: string, i: nat): (d: Directive)
    requires i <= |fmt|
    ensures i < d.next <= |fmt| + 1 && d.conv == At(fmt, d.next - 1)
    ensures d.zeroFill ==> 0 < d.width <= 29
  {
    var showBase := At(fmt, i) == '#';
    var i1 := if showBase then i + 1 else i;
    var zero := At(fmt, i1) == '0';
    var w := if zero then WidthFrom(fmt, i1 + 1, 0) else (0, i1);
    var long := At(fmt, w.1) == 'l';
    var i3 := if long then w.1 + 1 else w.1;
    Directive(showBase, w.0 > 0, if w.0 > 0 then w.0 else -1, long, At(fmt, i3), i3 + 1)
  }

  predicate Unsigned(conv: char) {
    conv == 'b' || conv == 'p' || conv == 'u' || conv == 'x'
  }

  predicate TakesArg(conv: char) {
    conv == 'c' || conv == 's' || conv == 'd' || Unsigned(conv)
  }

  predicate Known(conv: char) {
    TakesArg(conv) || conv == '%'
  }

  /** The argument has the type that va_arg asks for. */
  predicate Accepts(d: Directive, a: Arg) {
    GoodArg(a) && match d.conv
    case 'c' => a.U32?
    case 's' => a.Str?
    case 'd' => if d.long then a.I64? else a.I32?
    case _ => if d.long then a.U64? else a.U32?
  }

  /** The digits put into buf_nbtostring; base 16 for %p and %x, base 10 for %b as well. */
  function Number(d: Directive, a: Arg): (s: string)
    requires (d.conv == 'd' || Unsigned(d.conv)) && Accepts(d, a)
    ensures s != []
  {
    if d.conv == 'd' then SignedDigits(if d.long then a.l else a.i, 10)
    else
      Digits(if d.long then a.v else a.u, if d.conv == 'p' || d.conv == 'x' then 16 else 10)
  }

  /** `width - nchars` in 32 bits: a width below the number of digits wraps around. */
  function Padding(width: int, nchars: nat): nat {
    (width - nchars) % TWO_32
  }

  function Zeros(n: nat): (s: string)
    ensures |s| == n && forall i :: 0 <= i < n ==> s[i] == '0'
  {
    seq(n, i => '0')
  }

  function Prefix(d: Directive): string {
    if d.showBase && (d.conv == 'p' || d.conv == 'x') then "0x"
    else if d.showBase && d.conv == 'b' then "1'b"
    else ""
  }

  /** The text of one conversion, without the prefix. */
  function Body(d: Directive, a: Arg): string
    requires Known(d.conv) && (TakesArg(d.conv) ==> Accepts(d, a))
  {
    match d.conv
    case 'c' => [(a.u % 0x100) as char]
    case 's' => if a.s.Some? then a.s.value else "null"
    case '%' => "%"
    case _ =>
      var n := Number(d, a);
      if d.zeroFill then Zeros(Padding(d.width, |n|)) + n else n
  }

  /** Index of the next '%', |fmt| if there is none. */
  function Mark(fmt: string, i: nat): (m: nat)
    requires i <= |fmt|
    ensures i <= m <= |fmt| && '%' !in fmt[i..m] && (m < |fmt| ==> fmt[m] == '%')
    decreases |fmt| - i
  {
    if i == |fmt| || fmt[i] == '%' then i
    else
      var m := Mark(fmt, i + 1);
      assert fmt[i..m] == [fmt[i]] + fmt[i + 1..m];
      m
  }

  datatype End = Complete | UnknownSymbol | WrongArgument

  /** The text produced, and how the call ended: an unknown symbol ends in panic(), an argument of
      another type is undefined in C. */
  datatype Output = Output(text: string, end: End)

  /** What one directive makes of the arguments: its text, `rest` being what the arguments left make. */
  function Directed(text: string, d: Directive, args: seq<Arg>, rest: Output): Output
    requires Known(d.conv)
  {
    if TakesArg(d.conv) && (args == [] || !Accepts(d, args[0])) then Output("", WrongArgument)
    else Output(text + Prefix(d) + Body(d, if args == [] then U32(0) else args[0]) + rest.text, rest.end)
  }

  function Left(d: Directive, args: seq<Arg>): seq<Arg> {
    if TakesArg(d.conv) && args != [] then args[1..] else args
  }

  function Formatted(fmt: string, i: nat, args: seq<Arg>): (o: Output)
    requires i <= |fmt|
    decreases |fmt| - i
  {
    var m := Mark(fmt, i);
    if m == |fmt| then Output(fmt[i..], Complete)
    else
      var d := Parse(fmt, m + 1);
      if Known(d.conv) then Directed(fmt[i..m], d, args, Formatted(fmt, d.next, Left(d, args)))
      else Output("", UnknownSymbol)
  }

  // ---------------------------------------------------------------- widths

  /** The padding fills the number up to its width exactly when the digits are not more than that. */
  lemma PaddingFills(width: int, nchars: nat)
    requires 0 < width <= 29 && nchars <= 65
    ensures Padding(width, nchars) + nchars == width <==> nchars <= width
  {
    if nchars > width {
      assert Padding(width, nchars) == width - nchars + TWO_32;
    }
  }

  /** 64 binary digits in a width of 9 ask for more than four thousand million zeros. */
  lemma PaddingWraps()
    ensures Padding(9, 64) == 0x1_0000_0000 - 55
  {}

  function DigitSum(s: string): nat
    requires forall i :: 0 <= i < |s| ==> IsDigit(s[i])
  {
    if s == [] then 0
    else
      var c := s[|s| - 1];
      assert IsDigit(c);
      DigitSum(s[..|s| - 1]) + (c as int - 48)
  }

  lemma {:induction false} DigitSumAtMost(s: string)
    requires forall i :: 0 <= i < |s| ==> IsDigit(s[i])
    ensures AllDigits(s, 10) && DigitSum(s) <= Value(s, 10)
    ensures Value(s, 10) == 0 <==> forall i :: 0 <= i < |s| ==> s[i] == '0'
  {
    if s != [] {
      var last := |s| - 1;
      DigitSumAtMost(s[..last]);
      assert forall i :: 0 <= i < last ==> s[i] == s[..last][i];
    }
  }

  /** The sum of the digits is the number exactly when all digits but the last are 0; above 20 the number
      is far above. */
  lemma SumIsNumber(s: string)
    requires s != [] && forall i :: 0 <= i < |s| ==> IsDigit(s[i])
    ensures AllDigits(s, 10)
    ensures DigitSum(s) == Value(s, 10) <==> forall i :: 0 <= i < |s| - 1 ==> s[i] == '0'
    ensures DigitSum(s) >= 21 ==> Value(s, 10) >= 120 && exists i :: 0 <= i < |s| - 1 && s[i] != '0'
  {
    var last := |s| - 1;
    DigitSumAtMost(s[..last]);
    assert AllDigits(s, 10);
    assert forall i :: 0 <= i < last ==> s[i] == s[..last][i];
  }

  /** The loop adds digits up to the first that is none, or until their sum is 21 or more, and no longer. */
  lemma {:induction false} WidthStops(fmt: string, i: nat, width: nat)
    requires i <= |fmt|
    ensures var w := WidthFrom(fmt, i, width);
      && (forall k :: i <= k < w.1 ==> IsDigit(fmt[k]))
      && w.0 == width + DigitSum(fmt[i..w.1])
      && (!IsDigit(At(fmt, w.1)) || w.0 >= 21)
      && (w.1 > i ==> width + DigitSum(fmt[i..w.1 - 1]) < 21)
    decreases |fmt| - i
  {
    hide DigitSum;
    var w := WidthFrom(fmt, i, width);
    if IsDigit(At(fmt, i)) && width < 21 {
      WidthStops(fmt, i + 1, width + (fmt[i] as int - 48));
      SumFromFirst(fmt, i, w.1);
      SumFromFirst(fmt, i, w.1 - 1);
    } else {
      NoDigits(fmt, i);
    }
  }

  lemma NoDigits(fmt: string, i: nat)
    requires i <= |fmt|
    ensures fmt[i..i] == [] && DigitSum(fmt[i..i]) == 0
  {}

  lemma SumFromFirst(fmt: string, i: nat, j: nat)
    requires i <= j <= |fmt| && forall k :: i <= k < j ==> IsDigit(fmt[k])
    ensures DigitSum(fmt[i..j]) == if i == j then 0 else (fmt[i] as int - 48) + DigitSum(fmt[i + 1..j])
  {
    if i < j {
      DigitSumFront(fmt[i..j]);
      assert fmt[i..j][1..] == fmt[i + 1..j];
    } else {
      NoDigits(fmt, i);
    }
  }

  /** The width loop on a run of digits whose sum stays below 21. */
  lemma {:induction false} WidthIsDigitSum(fmt: string, i: nat, n: nat, width: nat)
    requires i + n <= |fmt| && !IsDigit(At(fmt, i + n))
    requires forall k :: i <= k < i + n ==> IsDigit(fmt[k])
    requires width + DigitSum(fmt[i..i + n]) < 21
    ensures WidthFrom(fmt, i, width) == (width + DigitSum(fmt[i..i + n]), i + n)
    decreases n
  {
    if n > 0 {
      DigitSumFront(fmt[i..i + n]);
      assert fmt[i..i + n][1..] == fmt[i + 1..i + n];
      WidthIsDigitSum(fmt, i + 1, n - 1, width + (fmt[i] as int - 48));
    }
  }

  /** A run of digits is read as the number it is written as exactly when all its digits but the last
      are 0: "%09u" asks for nine characters, "%010u" for one, "%0999u" for 27. */
  lemma WidthIsNumber(fmt: string, i: nat, n: nat)
    requires 0 < n && i + n <= |fmt| && !IsDigit(At(fmt, i + n))
    requires forall k :: i <= k < i + n ==> IsDigit(fmt[k])
    ensures AllDigits(fmt[i..i + n], 10)
    ensures WidthFrom(fmt, i, 0).0 == Value(fmt[i..i + n], 10) <==> forall k :: i <= k < i + n - 1 ==> fmt[k] == '0'
  {
    hide WidthFrom, Value, DigitSum;
    var s := fmt[i..i + n];
    SumIsNumber(s);
    assert forall k :: 0 <= k < n ==> s[k] == fmt[i + k];
    if DigitSum(s) < 21 {
      WidthIsDigitSum(fmt, i, n, 0);
    }
    assert (forall k :: 0 <= k < n - 1 ==> s[k] == '0') <==> forall k :: i <= k < i + n - 1 ==> fmt[k] == '0' by {
      assert forall k :: i <= k < i + n - 1 ==> fmt[k] == s[k - i];
    }
  }

  /** "%010u" asks for one character. */
  lemma WidthOfTen()
    ensures WidthFrom("10u", 0, 0) == (1, 2)
  {
    assert WidthFrom("10u", 2, 1) == (1, 2);
    assert WidthFrom("10u", 1, 1) == (1, 2);
  }

  lemma {:induction false} DigitSumFront(s: string)
    requires s != [] && forall i :: 0 <= i < |s| ==> IsDigit(s[i])
    ensures DigitSum(s) == (s[0] as int - 48) + DigitSum(s[1..])
  {
    var last := |s| - 1;
    if last > 0 {
      DigitSumFront(s[..last]);
      assert s[..last][1..] == s[1..][..last - 1];
    }
  }

  // ---------------------------------------------------------------- bases

  /** %b prints base 10, which is base 2 for zero and one only. */
  lemma BinaryIff(d: Directive, a: Arg)
    requires d.conv == 'b' && Accepts(d, a)
    ensures var v := if d.long then a.v else a.u; Number(d, a) == Digits(v, 2) <==> v < 2
  {
    TenIsTwoIff(if d.long then a.v else a.u);
  }

  // ---------------------------------------------------------------- the directives of a format

  /** The directives from index `i` on, up to one that is not known. */
  function Directives(fmt: string, i: nat): seq<Directive>
    requires i <= |fmt|
    decreases |fmt| - i
  {
    var m := Mark(fmt, i);
    if m == |fmt| then []
    else
      var d := Parse(fmt, m + 1);
      if !Known(d.conv) then [] else [d] + Directives(fmt, d.next)
  }

  /** How many arguments they take. */
  function Taken(ds: seq<Directive>): (n: nat)
    ensures n <= |ds| && (ds != [] && TakesArg(ds[|ds| - 1].conv) ==> n > 0)
  {
    if ds == [] then 0 else (if TakesArg(ds[0].conv) then 1 else 0) + Taken(ds[1..])
  }

  /** A formatted text takes an argument for each directive that asks for one. */
  lemma {:induction false} ArgsTaken(fmt: string, i: nat, args: seq<Arg>)
    requires i <= |fmt| && Formatted(fmt, i, args).end == Complete
    ensures Taken(Directives(fmt, i)) <= |args|
    decreases |fmt| - i
  {
    hide Parse, Mark, Body, Prefix, Accepts, Formatted;
    FormattedAt(fmt, i, args);
    var m := Mark(fmt, i);
    if m < |fmt| {
      var d := Parse(fmt, m + 1);
      ArgsTaken(fmt, d.next, Left(d, args));
    }
  }

  // ---------------------------------------------------------------- formats one after the other

  /** The directive at `i` does not depend on what stands before it. */
  lemma ParseShift(f: string, g: string, i: nat)
    requires i <= |g|
    ensures var d := Parse(g, i); Parse(f + g, |f| + i) == d.(next := |f| + d.next)
  {
    var fg := f + g;
    assert forall k: nat :: At(fg, |f| + k) == At(g, k);
    var i1 := if At(g, i) == '#' then i + 1 else i;
    if At(g, i1) == '0' {
      WidthShift(f, g, i1 + 1, 0);
    }
  }

  lemma {:induction false} WidthShift(f: string, g: string, i: nat, width: nat)
    requires i <= |g|
    ensures var w := WidthFrom(g, i, width); WidthFrom(f + g, |f| + i, width) == (w.0, |f| + w.1)
    decreases |g| - i
  {
    assert At(f + g, |f| + i) == At(g, i);
    if IsDigit(At(g, i)) && width < 21 {
      WidthShift(f, g, i + 1, width + (At(g, i) as int - 48));
    }
  }

  lemma {:induction false} MarkShift(f: string, g: string, i: nat)
    requires i <= |g|
    ensures Mark(f + g, |f| + i) == |f| + Mark(g, i)
    decreases |g| - i
  {
    if i < |g| && g[i] != '%' {
      MarkShift(f, g, i + 1);
    }
  }

  /** The text of a directive does not depend on where it ends. */
  lemma NextIrrelevant(d: Directive, next: nat)
    ensures var e := d.(next := next);
      && Prefix(e) == Prefix(d)
      && (forall a :: Accepts(e, a) <==> Accepts(d, a))
      && (forall a :: Known(d.conv) && (TakesArg(d.conv) ==> Accepts(d, a)) ==> Body(e, a) == Body(d, a))
  {}

  lemma FormattedAt(fmt: string, i: nat, args: seq<Arg>)
    requires i <= |fmt|
    ensures var m := Mark(fmt, i);
      if m == |fmt| then Formatted(fmt, i, args) == Output(fmt[i..], Complete)
      else
        var d := Parse(fmt, m + 1);
        if Known(d.conv) then
          Formatted(fmt, i, args) == Directed(fmt[i..m], d, args, Formatted(fmt, d.next, Left(d, args)))
        else Formatted(fmt, i, args) == Output("", UnknownSymbol)
  {
    hide Mark, Parse, Body, Prefix, Accepts, Directed;
  }

  lemma {:induction false} FormattedShift(f: string, g: string, i: nat, args: seq<Arg>)
    requires i <= |g|
    ensures Formatted(f + g, |f| + i, args) == Formatted(g, i, args)
    decreases |g| - i
  {
    hide Parse, Mark, Body, Prefix, Accepts, Formatted, Directed;
    var m := Mark(g, i);
    MarkShift(f, g, i);
    FormattedAt(g, i, args);
    FormattedAt(f + g, |f| + i, args);
    if m == |g| {
      assert (f + g)[|f| + i..] == g[i..];
    } else {
      var d := Parse(g, m + 1);
      ParseShift(f, g, m + 1);
      if Known(d.conv) {
        assert (f + g)[|f| + i..|f| + m] == g[i..m];
        FormattedShift(f, g, d.next, Left(d, args));
        DirectedSame(g[i..m], d, |f| + d.next, args, Formatted(g, d.next, Left(d, args)));
      }
    }
  }

  lemma DirectedSame(text: string, d: Directive, next: nat, args: seq<Arg>, rest: Output)
    requires Known(d.conv)
    ensures Left(d.(next := next), args) == Left(d, args)
    ensures Directed(text, d.(next := next), args, rest) == Directed(text, d, args, rest)
  {
    hide Body, Prefix, Accepts;
    NextIrrelevant(d, next);
  }

  /** A directive that ends inside `f` is read the same when something follows. */
  lemma ParseFront(f: string, g: string, i: nat)
    requires i <= |f| && Parse(f, i).next <= |f|
    ensures Parse(f + g, i) == Parse(f, i)
  {
    var fg := f + g;
    assert forall k: nat :: k < |f| ==> At(fg, k) == At(f, k);
    var i1 := if At(f, i) == '#' then i + 1 else i;
    if At(f, i1) == '0' {
      WidthFront(f, g, i1 + 1, 0);
    }
  }

  lemma {:induction false} WidthFront(f: string, g: string, i: nat, width: nat)
    requires i <= |f| && WidthFrom(f, i, width).1 < |f|
    ensures WidthFrom(f + g, i, width) == WidthFrom(f, i, width)
    decreases |f| - i
  {
    assert i < |f| ==> At(f + g, i) == At(f, i);
    if IsDigit(At(f, i)) && width < 21 {
      WidthFront(f, g, i + 1, width + (At(f, i) as int - 48));
    }
  }

  lemma {:induction false} MarkFront(f: string, g: string, i: nat)
    requires i <= |f|
    ensures Mark(f + g, i) == if Mark(f, i) < |f| then Mark(f, i) else |f| + Mark(g, 0)
    decreases |f| - i
  {
    if i == |f| {
      MarkShift(f, g, 0);
    } else if f[i] != '%' {
      MarkFront(f, g, i + 1);
    }
  }

  /** The first directive of a format that completes. */
  lemma CompleteStep(f: string, i: nat, args: seq<Arg>, m: nat, d: Directive)
    requires i <= m < |f| && m == Mark(f, i) && d == Parse(f, m + 1)
    requires Formatted(f, i, args).end == Complete
    ensures Known(d.conv) && d.next <= |f| && (TakesArg(d.conv) ==> args != [] && Accepts(d, args[0]))
    ensures Formatted(f, i, args) == Directed(f[i..m], d, args, Formatted(f, d.next, Left(d, args)))
    ensures Formatted(f, d.next, Left(d, args)).end == Complete
    ensures Directives(f, i) == [d] + Directives(f, d.next)
    ensures |args| - Taken(Directives(f, i)) == |Left(d, args)| - Taken(Directives(f, d.next))
  {
    hide Parse, Mark, Body, Prefix, Accepts, Formatted;
    FormattedAt(f, i, args);
    assert ([d] + Directives(f, d.next))[1..] == Directives(f, d.next);
  }

  /** One call with two formats joined prints what two calls print, if the first uses up its arguments
      and neither panics: the text in front of an unknown symbol is not printed. */
  lemma {:induction false} FormattedJoins(f: string, g: string, i: nat, args: seq<Arg>, more: seq<Arg>)
    requires i <= |f| && Formatted(f, i, args).end == Complete && Taken(Directives(f, i)) == |args|
    requires Formatted(g, 0, more).end == Complete
    ensures Formatted(f + g, i, args + more)
         == Output(Formatted(f, i, args).text + Formatted(g, 0, more).text, Complete)
    decreases |f| - i
  {
    hide Parse, Mark, Body, Prefix, Accepts, Formatted, Directives, Taken, Directed;
    var m := Mark(f, i);
    if m == |f| {
      PlainJoins(f, g, i, args, more);
    } else {
      var d := Parse(f, m + 1);
      CompleteStep(f, i, args, m, d);
      FormattedJoins(f, g, d.next, Left(d, args), more);
      DirectedJoins(f, g, i, args, more);
    }
  }

  lemma PlainJoins(f: string, g: string, i: nat, args: seq<Arg>, more: seq<Arg>)
    requires i <= |f| && Mark(f, i) == |f| && Taken(Directives(f, i)) == |args|
    requires Formatted(g, 0, more).end == Complete
    ensures Formatted(f + g, i, args + more)
         == Output(Formatted(f, i, args).text + Formatted(g, 0, more).text, Complete)
  {
    hide Parse, Mark, Body, Prefix, Accepts, Formatted, Directed;
    assert args + more == more;
    FormattedAt(f, i, args);
    FormattedShift(f, g, 0, more);
    PlainThen(f, g, i, more);
  }

  lemma DirectedJoins(f: string, g: string, i: nat, args: seq<Arg>, more: seq<Arg>)
    requires i <= |f| && Formatted(f, i, args).end == Complete && Mark(f, i) < |f|
    requires Formatted(g, 0, more).end == Complete
    requires var d := Parse(f, Mark(f, i) + 1);
      && Known(d.conv) && d.next <= |f|
      && var rest := Formatted(f, d.next, Left(d, args));
         Formatted(f + g, d.next, Left(d, args) + more) == Output(rest.text + Formatted(g, 0, more).text, Complete)
    ensures Formatted(f + g, i, args + more)
         == Output(Formatted(f, i, args).text + Formatted(g, 0, more).text, Complete)
  {
    hide Parse, Mark, Body, Prefix, Accepts, Formatted, Directives, Taken, Directed;
    var m := Mark(f, i);
    var d := Parse(f, m + 1);
    CompleteStep(f, i, args, m, d);
    MarkFront(f, g, i);
    FormattedAt(f + g, i, args + more);
    ParseFront(f, g, m + 1);
    assert (f + g)[i..m] == f[i..m];
    assert Left(d, args + more) == Left(d, args) + more;
    DirectedOn(f[i..m], d, args, more, Formatted(f, d.next, Left(d, args)), Formatted(g, 0, more).text);
  }

  /** Arguments and text behind. */
  lemma DirectedOn(text: string, d: Directive, args: seq<Arg>, more: seq<Arg>, rest: Output, s: string)
    requires Known(d.conv) && Directed(text, d, args, rest).end == Complete == rest.end
    ensures var o := Directed(text, d, args, rest);
      Directed(text, d, args + more, Output(rest.text + s, Complete)) == Output(o.text + s, Complete)
  {
    hide Prefix, Accepts, Body;
    if !TakesArg(d.conv) {
      BodyPlain(d, if args == [] then U32(0) else args[0], if args + more == [] then U32(0) else (args + more)[0]);
    }
  }

  lemma BodyPlain(d: Directive, a: Arg, b: Arg)
    requires Known(d.conv) && !TakesArg(d.conv)
    ensures Body(d, a) == Body(d, b)
  {}

  /** Plain text in front. */
  lemma PlainThen(f: string, g: string, i: nat, args: seq<Arg>)
    requires i <= |f| && Mark(f, i) == |f| && Formatted(f + g, |f|, args).end == Complete
    ensures Formatted(f + g, i, args) == Output(f[i..] + Formatted(f + g, |f|, args).text, Complete)
  {
    hide Parse, Mark, Body, Prefix, Accepts, Directed, Formatted;
    MarkFront(f, g, i);
    MarkShift(f, g, 0);
    PlainFront(f, f + g, i, args);
  }

  lemma PlainFront(f: string, fg: string, i: nat, args: seq<Arg>)
    requires i <= |f| <= |fg| && fg[..|f|] == f && Mark(fg, i) == Mark(fg, |f|)
    requires Formatted(fg, |f|, args).end == Complete
    ensures Formatted(fg, i, args) == Output(f[i..] + Formatted(fg, |f|, args).text, Complete)
  {
    hide Parse, Mark, Body, Prefix, Accepts, Directed, Formatted;
    FormattedAt(fg, i, args);
    FormattedAt(fg, |f|, args);
    var m := Mark(fg, i);
    assert fg[i..m] == fg[i..|f|] + fg[|f|..m] && fg[i..|f|] == f[i..];
    if m == |fg| {
      assert fg[i..] == f[i..] + fg[|f|..];
    } else {
      var d := Parse(fg, m + 1);
      DirectedBehind(f[i..], fg[|f|..m], d, args, Formatted(fg, d.next, Left(d, args)));
    }
  }

  lemma DirectedBehind(t: string, text: string, d: Directive, args: seq<Arg>, rest: Output)
    requires Known(d.conv) && Directed(text, d, args, rest).end == Complete
    ensures Directed(t + text, d, args, rest) == Output(t + Directed(text, d, args, rest).text, Complete)
  {
    hide Prefix, Accepts, Body;
  }
}
