/** The text of each conversion, told without the functions that make it: what a directive written with
    any flags prints, and that the number in it reads back. With FormattedJoins and FormattedTail this is
    the text of every format. */
module Conversions {
  import opened Options
  import opened Numerals
  import opened DigitLaws
  import opened Format
  import opened Formatters
  import opened Sprintf

  /** A directive as it is written: '#', a zero-fill width of one digit (none for 0), 'l'. */
  function Written(hash: bool, w: nat, long: bool, conv: char): (fmt: string)
    requires w < 10
  {
    "%" + (if hash then "#" else "") + (if w > 0 then "0" + [UPPER[w]] else "") + (if long then "l" else "") + [conv]
  }

  predicate FlagChar(c: char) {
    c == '#' || c == 'l' || '0' <= c <= '9'
  }

  lemma ParseWritten(hash: bool, w: nat, long: bool, conv: char, rest: string)
    requires w < 10 && !FlagChar(conv)
    ensures var fmt := Written(hash, w, long, conv);
      Parse(fmt + rest, 1) == Directive(hash, w > 0, if w > 0 then w else -1, long, conv, |fmt|)
  {
    var f := Written(hash, w, long, conv);
    var i := if hash then 2 else 1;
    assert forall k: nat :: k < |f| ==> At(f + rest, k) == f[k];
    if w > 0 {
      assert f[i] == '0' && f[i + 1] == UPPER[w] && !IsDigit(f[i + 2]);
      WidthOne(f + rest, i + 1, w);
    }
  }

  lemma WidthOne(fmt: string, i: nat, w: nat)
    requires 0 < w < 10 && i + 1 < |fmt| && fmt[i] == UPPER[w] && !IsDigit(fmt[i + 1])
    ensures WidthFrom(fmt, i, 0) == (w, i + 1)
  {
    assert WidthFrom(fmt, i + 1, w) == (w, i + 1);
  }

  lemma MarkFirst(hash: bool, w: nat, long: bool, conv: char, rest: string)
    requires w < 10
    ensures Mark(Written(hash, w, long, conv) + rest, 0) == 0
  {}

  lemma OneDirective(hash: bool, w: nat, long: bool, conv: char, args: seq<Arg>)
    requires w < 10 && Known(conv)
    requires var d := Directive(hash, w > 0, if w > 0 then w else -1, long, conv, |Written(hash, w, long, conv)|);
      TakesArg(conv) ==> args != [] && Accepts(d, args[0])
    ensures var fmt := Written(hash, w, long, conv);
      var d := Directive(hash, w > 0, if w > 0 then w else -1, long, conv, |fmt|);
      Formatted(fmt, 0, args) == Output(Prefix(d) + Body(d, if args == [] then U32(0) else args[0]), Complete)
  {
    hide Parse, Mark, Body, Prefix, Accepts, Formatted, Written;
    var fmt := Written(hash, w, long, conv);
    assert fmt + "" == fmt;
    NoFlag(conv);
    MarkFirst(hash, w, long, conv, "");
    ParseWritten(hash, w, long, conv, "");
    FormattedAt(fmt, 0, args);
    WrittenEnds(hash, w, long, conv);
    assert fmt[0..0] == "" && fmt[|fmt|..] == "";
    FormattedTail(fmt, |fmt|, if TakesArg(conv) then args[1..] else args);
  }

  lemma NoFlag(conv: char)
    requires Known(conv)
    ensures !FlagChar(conv)
  {}

  lemma WrittenEnds(hash: bool, w: nat, long: bool, conv: char)
    requires w < 10
    ensures |Written(hash, w, long, conv)| > 1
  {}

  // ---------------------------------------------------------------- what stands in front

  /** The mark of the base. */
  function BaseMark(hash: bool, conv: char): string {
    match conv
    case 'p' => if hash then "0x" else ""
    case 'x' => if hash then "0x" else ""
    case 'b' => if hash then "1'b" else ""
    case _ => ""
  }

  /** The zeros in front of `n` characters for a width of `w`. */
  function Fill(w: nat, n: nat): int {
    if w == 0 then 0 else if n <= w then w - n else w - n + 0x1_0000_0000
  }

  lemma {:induction false} LeadingZeros(k: nat, s: string, base: int)
    requires GoodBase(base) && AllDigits(s, base)
    ensures AllDigits(Zeros(k) + s, base) && Value(Zeros(k) + s, base) == Value(s, base)
    decreases |s|
  {
    hide IsDigitInBase, Value, DigitValue;
    var z := Zeros(k) + s;
    ZeroIsDigit(base);
    if s == [] {
      assert z == Zeros(k);
      ZerosValue(k, base);
      assert s == [];
      ZerosValue(0, base);
      assert Zeros(0) == [];
    } else {
      var last := |s| - 1;
      LeadingZeros(k, s[..last], base);
      assert z[..|z| - 1] == Zeros(k) + s[..last];
      ValueOfLast(z, base);
      ValueOfLast(s, base);
    }
  }

  lemma ZeroIsDigit(base: int)
    requires GoodBase(base)
    ensures IsDigitInBase('0', base)
  {}

  lemma {:induction false} ZerosValue(k: nat, base: int)
    requires GoodBase(base)
    ensures AllDigits(Zeros(k), base) && Value(Zeros(k), base) == 0
  {
    if k > 0 {
      ZerosValue(k - 1, base);
      assert Zeros(k)[..k - 1] == Zeros(k - 1);
    }
  }

  // ---------------------------------------------------------------- numbers

  /** %u and %b print the number in base 10, %x and %p in base 16, filled up with zeros; '#' puts 0x in
      front for x and p, and 1'b for b. Reading the digits gives the number back. */
  lemma UnsignedText(hash: bool, w: nat, long: bool, conv: char, v: nat)
    requires w < 10 && conv in "bpux" && v < if long then TWO_64 else TWO_32
    ensures var o := Formatted(Written(hash, w, long, conv), 0, [if long then U64(v) else U32(v)]);
      var base := if conv == 'x' || conv == 'p' then 16 else 10;
      var k := Fill(w, |Digits(v, base)|);
      && o.end == Complete && k >= 0
      && o.text == BaseMark(hash, conv) + Zeros(k) + Digits(v, base)
      && Parsed(Zeros(k) + Digits(v, base), base) == v
      && DigitPrefix(Zeros(k) + Digits(v, base), base) == k + |Digits(v, base)|
  {
    hide Formatted, Written, Digits, Prefix, Body, BaseMark, Fill, Parsed, DigitPrefix, Accepts;
    var a := if long then U64(v) else U32(v);
    var base := if conv == 'x' || conv == 'p' then 16 else 10;
    UnsignedBody(hash, w, long, conv, v, |Written(hash, w, long, conv)|);
    OneDirective(hash, w, long, conv, [a]);
    FilledReads(Fill(w, |Digits(v, base)|), v, base);
  }

  lemma UnsignedBody(hash: bool, w: nat, long: bool, conv: char, v: nat, next: nat)
    requires w < 10 && conv in "bpux" && v < if long then TWO_64 else TWO_32
    ensures var d := Directive(hash, w > 0, if w > 0 then w else -1, long, conv, next);
      var a := if long then U64(v) else U32(v);
      var base := if conv == 'x' || conv == 'p' then 16 else 10;
      var k := Fill(w, |Digits(v, base)|);
      && Known(conv) && Accepts(d, a) && k >= 0
      && Prefix(d) + Body(d, a) == BaseMark(hash, conv) + Zeros(k) + Digits(v, base)
  {
    hide Digits;
    var base := if conv == 'x' || conv == 'p' then 16 else 10;
    var n := Digits(v, base);
    DigitsFit(v, base);
    FillPads(w, |n|);
    if w == 0 {
      assert Zeros(0) + n == n;
    }
    assert BaseMark(hash, conv) + (Zeros(Fill(w, |n|)) + n) == BaseMark(hash, conv) + Zeros(Fill(w, |n|)) + n;
  }

  lemma FillPads(w: nat, n: nat)
    requires w < 10 && n <= 64
    ensures Fill(w, n) >= 0 && (w > 0 ==> Padding(w, n) == Fill(w, n))
  {}

  lemma FilledReads(k: nat, v: nat, base: int)
    requires GoodBase(base) && v < TWO_64
    ensures var t := Zeros(k) + Digits(v, base); Parsed(t, base) == v && DigitPrefix(t, base) == |t|
  {
    hide Digits, Value, IsDigitInBase;
    var t := Zeros(k) + Digits(v, base);
    LeadingZeros(k, Digits(v, base), base);
    ValueOfDigits(v, base);
    PrefixOfDigits(t, [], base);
    assert t + [] == t && t[..|t|] == t;
  }

  /** %d prints the number in base 10, with a sign below zero, and reads back; '#' puts nothing in front. */
  lemma SignedText(hash: bool, long: bool, i: int)
    requires if long then -TWO_63 < i < TWO_63 else -0x8000_0000 <= i < 0x8000_0000
    ensures var o := Formatted(Written(hash, 0, long, 'd'), 0, [if long then I64(i) else I32(i)]);
      o == Output(SignedDigits(i, 10), Complete) && SignedParsed(o.text, 10) == i
  {
    hide Formatted, Written, Digits, SignedParsed, SignedDigits;
    OneDirective(hash, 0, long, 'd', [if long then I64(i) else I32(i)]);
    SignedRoundTrip(i, 10, []);
    assert SignedDigits(i, 10) + [] == SignedDigits(i, 10) == "" + SignedDigits(i, 10);
  }

  /** Zeros go in front of the sign: filled up, a number reads back exactly if it is not below zero, or
      needs no zeros. */
  lemma FilledSignIff(hash: bool, w: nat, long: bool, i: int)
    requires 0 < w < 10 && |SignedDigits(i, 10)| <= w
    requires if long then -TWO_63 < i < TWO_63 else -0x8000_0000 <= i < 0x8000_0000
    ensures var o := Formatted(Written(hash, w, long, 'd'), 0, [if long then I64(i) else I32(i)]);
      && o == Output(Zeros(w - |SignedDigits(i, 10)|) + SignedDigits(i, 10), Complete) && |o.text| == w
      && (SignedParsed(o.text, 10) == i <==> i >= 0 || |SignedDigits(i, 10)| == w)
  {
    hide Formatted, Written, Digits, SignedParsed, SignedDigits, Prefix, Body, Accepts;
    SignedBody(hash, w, long, i, |Written(hash, w, long, 'd')|);
    OneDirective(hash, w, long, 'd', [if long then I64(i) else I32(i)]);
    FilledSignReads(w, i);
  }

  lemma SignedBody(hash: bool, w: nat, long: bool, i: int, next: nat)
    requires 0 < w < 10 && |SignedDigits(i, 10)| <= w
    requires if long then -TWO_63 < i < TWO_63 else -0x8000_0000 <= i < 0x8000_0000
    ensures var d := Directive(hash, true, w, long, 'd', next);
      var a := if long then I64(i) else I32(i);
      Accepts(d, a) && Prefix(d) + Body(d, a) == Zeros(w - |SignedDigits(i, 10)|) + SignedDigits(i, 10)
  {
    hide Digits, SignedDigits;
    var n := SignedDigits(i, 10);
    FillPads(w, |n|);
    assert "" + (Zeros(w - |n|) + n) == Zeros(w - |n|) + n;
  }

  lemma FilledSignReads(w: nat, i: int)
    requires |SignedDigits(i, 10)| <= w && -TWO_63 < i < TWO_63
    ensures var k := w - |SignedDigits(i, 10)|;
      SignedParsed(Zeros(k) + SignedDigits(i, 10), 10) == i <==> i >= 0 || k == 0
  {
    hide Digits, SignedParsed, SignedDigits;
    var n := SignedDigits(i, 10);
    if w == |n| {
      assert Zeros(0) + n == n == n + [];
      SignedRoundTrip(i, 10, []);
    } else {
      ZerosThenSign(w - |n|, i);
    }
  }

  lemma ZerosThenSign(k: nat, i: int)
    requires k > 0 && -TWO_63 < i < TWO_63
    ensures SignedParsed(Zeros(k) + SignedDigits(i, 10), 10) == i <==> i >= 0
  {
    hide Digits, Parsed, SignedParsed, DigitPrefix, Value, IsDigitInBase;
    var t := Zeros(k) + SignedDigits(i, 10);
    ZeroIsDigit(10);
    assert t[0] == '0';
    DigitFirstParsed(t, 10);
    if i >= 0 {
      FilledReads(k, i, 10);
    } else {
      ZerosThenMinus(k, Digits(-i, 10));
      assert t == Zeros(k) + ("-" + Digits(-i, 10));
    }
  }

  lemma ZerosThenMinus(k: nat, s: string)
    ensures Parsed(Zeros(k) + ("-" + s), 10) == 0
  {
    var t := Zeros(k) + ("-" + s);
    ZerosValue(k, 10);
    PrefixOfDigits(Zeros(k), "-" + s, 10);
    assert t[..k] == Zeros(k);
  }

  // ---------------------------------------------------------------- the rest

  /** %s prints the string, or "null"; %c the character; %% a percent sign. The flags add nothing. */
  lemma StringText(hash: bool, w: nat, long: bool, s: Option<string>)
    requires w < 10 && (s.Some? ==> '\0' !in s.value)
    ensures Formatted(Written(hash, w, long, 's'), 0, [Str(s)])
         == Output(if s == None then "null" else s.value, Complete)
  {
    hide Formatted, Written;
    OneDirective(hash, w, long, 's', [Str(s)]);
  }

  lemma CharText(hash: bool, w: nat, long: bool, u: nat)
    requires w < 10 && u < TWO_32
    ensures Formatted(Written(hash, w, long, 'c'), 0, [U32(u)]) == Output([(u % 0x100) as char], Complete)
  {
    hide Formatted, Written;
    OneDirective(hash, w, long, 'c', [U32(u)]);
  }

  lemma PercentText(hash: bool, w: nat, long: bool)
    requires w < 10
    ensures Formatted(Written(hash, w, long, '%'), 0, []) == Output("%", Complete)
  {
    hide Formatted, Written;
    OneDirective(hash, w, long, '%', []);
  }

  /** Any other symbol ends the call, and the text in front of it is not printed. */
  lemma OthersStop(plain: string, hash: bool, w: nat, long: bool, conv: char, rest: string, args: seq<Arg>)
    requires w < 10 && '%' !in plain && conv !in "bcdpsux%" && !FlagChar(conv)
    ensures Formatted(plain + (Written(hash, w, long, conv) + rest), 0, args) == Output("", UnknownSymbol)
  {
    hide Parse, Mark, Body, Prefix, Accepts, Formatted, Written;
    var g := Written(hash, w, long, conv) + rest;
    MarkFirst(hash, w, long, conv, rest);
    ParseWritten(hash, w, long, conv, rest);
    WrittenEnds(hash, w, long, conv);
    PlainMark(plain);
    MarkFront(plain, g, 0);
    ParseShift(plain, g, 1);
    FormattedAt(plain + g, 0, args);
    assert !Known(conv);
  }

  lemma PlainMark(plain: string)
    requires '%' !in plain
    ensures Mark(plain, 0) == |plain|
  {
    hide Mark;
    assert plain[0..|plain|] == plain;
    MarkUnique(plain, 0, |plain|);
  }

  // ---------------------------------------------------------------- the NUL of vsprintf

  /** A string that vsprintf makes of one directive and text is ended by a NUL exactly if the text is
      empty and the directive is %c, %%, or the %s of an empty string. */
  lemma NulAfter(hash: bool, w: nat, long: bool, conv: char, args: seq<Arg>, text: string)
    requires w < 10 && Known(conv) && '%' !in text
    requires var d := Directive(hash, w > 0, if w > 0 then w else -1, long, conv, |Written(hash, w, long, conv)|);
      TakesArg(conv) ==> args != [] && Accepts(d, args[0])
    ensures EndsInNul(Written(hash, w, long, conv) + text, 0, args, false)
       <==> text == "" && (conv == 'c' || conv == '%' || (conv == 's' && args[0] == Str(Some(""))))
  {
    hide Parse, Mark, Body, Prefix, Accepts, EndsInNul, Written, LeavesNul;
    var f := Written(hash, w, long, conv);
    var fmt := f + text;
    var d := Directive(hash, w > 0, if w > 0 then w else -1, long, conv, |f|);
    var x := if args == [] then U32(0) else args[0];
    NoFlag(conv);
    WrittenEnds(hash, w, long, conv);
    MarkFirst(hash, w, long, conv, text);
    ParseWritten(hash, w, long, conv, text);
    EndsStep(fmt, 0, args, false);
    NulLeftIff(d, x);
    assert fmt[|f|..] == text;
    NulTail(fmt, |f|, Left(d, args), LeavesNul(d, x));
  }
}
