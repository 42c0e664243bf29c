/** The line that the shell's time command prints (shell/time.c:17-19) for any reading of the clock. */
module TimeText {
  import opened Numerals
  import opened Format
  import opened Formatters
  import opened Conversions
  import Clock

  const TIME_FORMAT: string := "time: %lu.%09lu seconds\r\n"

  /** A number filled up with zeros to nine characters. */
  function NineDigits(n: nat): (s: string)
    requires n < Clock.NSEC_PER_SEC
  {
    Zeros(Padding(9, |Digits(n, 10)|)) + Digits(n, 10)
  }

  lemma {:induction false} DecimalLength(n: nat, k: nat, bound: nat)
    requires k > 0 && n < bound
    requires bound == TenTo(k)
    ensures |Digits(n, 10)| <= k
  {
    if n >= 10 {
      assert k > 1 ==> n / 10 < TenTo(k - 1);
      DecimalLength(n / 10, k - 1, TenTo(k - 1));
    }
  }

  function TenTo(k: nat): nat {
    if k == 0 then 1 else 10 * TenTo(k - 1)
  }

  /** The fraction is padded to exactly nine digits, and strtoull reads it back and stops behind them. */
  lemma FractionReadsBack(n: nat, rest: string)
    requires n < Clock.NSEC_PER_SEC
    requires rest == [] || !IsDigitInBase(rest[0], 10)
    ensures |NineDigits(n)| == 9 && AllDigits(NineDigits(n), 10)
    ensures Parsed(NineDigits(n) + rest, 10) == n && DigitPrefix(NineDigits(n) + rest, 10) == 9
  {
    assert TenTo(3) == 1000 && TenTo(6) == 1_000_000 && TenTo(9) == Clock.NSEC_PER_SEC;
    DecimalLength(n, 9, TenTo(9));
    PaddingFills(9, |Digits(n, 10)|);
    var z := Padding(9, |Digits(n, 10)|);
    LeadingZeros(z, Digits(n, 10), 10);
    ValueOfDigits(n, 10);
    PrefixOfDigits(NineDigits(n), rest, 10);
    assert (NineDigits(n) + rest)[..9] == NineDigits(n);
  }

  lemma TimeMarks()
    ensures Mark(TIME_FORMAT, 0) == 6 && TIME_FORMAT[0..6] == "time: "
    ensures Mark(TIME_FORMAT, 9) == 10 && TIME_FORMAT[9..10] == "."
    ensures Mark(TIME_FORMAT, 15) == |TIME_FORMAT| && TIME_FORMAT[15..] == " seconds\r\n"
  {
    hide Mark;
    var f := TIME_FORMAT;
    assert f[15..|f|] == f[15..] == " seconds\r\n";
    assert f[0..6] == "time: ";
    MarkUnique(f, 0, 6);
    MarkUnique(f, 9, 10);
    MarkUnique(f, 15, |f|);
  }

  lemma ParseSeconds()
    ensures Parse(TIME_FORMAT, 7) == Directive(false, false, -1, true, 'u', 9)
  {}

  lemma ParseNanoseconds()
    ensures Parse(TIME_FORMAT, 11) == Directive(false, true, 9, true, 'u', 15)
  {
    assert WidthFrom(TIME_FORMAT, 13, 9) == (9, 13);
    assert WidthFrom(TIME_FORMAT, 12, 0) == WidthFrom(TIME_FORMAT, 13, 9);
  }

  lemma UnsignedStep(fmt: string, i: nat, m: nat, d: Directive, args: seq<Arg>)
    requires i <= m < |fmt| && m == Mark(fmt, i) && d == Parse(fmt, m + 1)
    requires Unsigned(d.conv) && args != [] && Accepts(d, args[0])
    ensures d.next <= |fmt|
    ensures var rest := Formatted(fmt, d.next, args[1..]);
      Formatted(fmt, i, args) == Output(fmt[i..m] + Prefix(d) + Body(d, args[0]) + rest.text, rest.end)
  {
    hide Body, Prefix, Mark, Parse, Formatted, Accepts;
    FormattedAt(fmt, i, args);
  }

  lemma FractionText(n: nat)
    requires n < Clock.NSEC_PER_SEC
    ensures Formatted(TIME_FORMAT, 9, [U64(n)]) == Output("." + NineDigits(n) + " seconds\r\n", Complete)
  {
    hide Parse, Mark, WidthFrom, Digits, Formatted;
    TimeMarks();
    ParseNanoseconds();
    var d := Directive(false, true, 9, true, 'u', 15);
    UnsignedStep(TIME_FORMAT, 9, 10, d, [U64(n)]);
    assert Body(d, U64(n)) == NineDigits(n);
    TailText([U64(n)][1..]);
  }

  lemma TailText(args: seq<Arg>)
    ensures Formatted(TIME_FORMAT, 15, args) == Output(" seconds\r\n", Complete)
  {
    hide Mark;
    TimeMarks();
  }

  /** The printed line, for every clock reading. */
  lemma TimeLine(t: Clock.Timespec)
    requires t.Normalized() && t.sec < TWO_64
    ensures Formatted(TIME_FORMAT, 0, [U64(t.sec), U64(t.nsec)])
         == Output("time: " + Digits(t.sec, 10) + "." + NineDigits(t.nsec) + " seconds\r\n", Complete)
  {
    hide Parse, Mark, WidthFrom, NineDigits, Digits, Formatted;
    TimeMarks();
    ParseSeconds();
    var d, args := Directive(false, false, -1, true, 'u', 9), [U64(t.sec), U64(t.nsec)];
    UnsignedStep(TIME_FORMAT, 0, 6, d, args);
    assert Body(d, args[0]) == Digits(t.sec, 10);
    assert args[1..] == [U64(t.nsec)];
    FractionText(t.nsec);
  }

  /** The two fields of a line, read where they stand. */
  lemma FieldsReadBack(sec: nat, nsec: nat, line: string)
    requires sec < TWO_64 && nsec < Clock.NSEC_PER_SEC
    requires line == "time: " + Digits(sec, 10) + "." + NineDigits(nsec) + " seconds\r\n"
    ensures var dot := 6 + DigitPrefix(line[6..], 10);
      && dot < |line| && line[dot] == '.'
      && Parsed(line[6..], 10) == sec
      && Parsed(line[dot + 1..], 10) == nsec && DigitPrefix(line[dot + 1..], 10) == 9
  {
    hide Digits, NineDigits, Parsed, DigitPrefix;
    var digits, behind := Digits(sec, 10), "." + NineDigits(nsec) + " seconds\r\n";
    RoundTrip(sec, 10, behind);
    assert line[6..] == digits + behind;
    assert line[6 + |digits|..] == behind;
    FractionReadsBack(nsec, " seconds\r\n");
    assert line[6 + |digits| + 1..] == behind[1..] == NineDigits(nsec) + " seconds\r\n";
  }

  /** After any number of ticks strtoull reads the clock back from the printed line: the seconds from
      its seventh character on, up to the '.', and nine digits from there. */
  lemma TimeReadsBack(k: nat)
    requires k < 100 * Clock.UINT64
    ensures var t := Clock.TickedTimes(k);
      var line := Formatted(TIME_FORMAT, 0, [U64(t.sec), U64(t.nsec)]).text;
      && 6 <= |line|
      && var dot := 6 + DigitPrefix(line[6..], 10);
         && dot < |line| && line[dot] == '.'
         && DigitPrefix(line[dot + 1..], 10) == 9
         && Parsed(line[6..], 10) * Clock.NSEC_PER_SEC + Parsed(line[dot + 1..], 10) == k * Clock.TICK_NSEC
  {
    hide Digits, NineDigits, Formatted, Parsed, DigitPrefix, Clock.TickedTimes;
    Clock.ClockExactIff(k);
    var t := Clock.TickedTimes(k);
    TimeLine(t);
    FieldsReadBack(t.sec, t.nsec, Formatted(TIME_FORMAT, 0, [U64(t.sec), U64(t.nsec)]).text);
  }
}
