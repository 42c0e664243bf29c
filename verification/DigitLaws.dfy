/** What the digits are, character by character, and what reading and writing come to at the edges:
    either case of a letter, powers of the base, and numbers of more than 64 bits. */
module DigitLaws {
  import opened Division
  import opened Numerals

  const UPPER: string := "0123456789ABCDEF"
  const LOWER: string := "0123456789abcdef"

  // ---------------------------------------------------------------- the characters

  /** The digits of base 16, by name, and their values; a digit of a smaller base is one of a smaller
      value. */
  lemma DigitsByName(c: char, base: int)
    requires GoodBase(base)
    ensures IsDigitInBase(c, base) <==> exists i :: 0 <= i < base && (c == UPPER[i] || c == LOWER[i])
    ensures forall i :: 0 <= i < base && (c == UPPER[i] || c == LOWER[i]) ==>
              IsDigitInBase(c, base) && DigitValue(c, base) == i
  {
    ByName(c);
    if IsDigitInBase(c, base) {
      var i := DigitValue(c, base);
      assert c == UPPER[i] || c == LOWER[i];
    }
  }

  lemma ByName(c: char)
    ensures forall i :: 0 <= i < 16 && (c == UPPER[i] || c == LOWER[i]) ==>
              IsDigitInBase(c, 16) && DigitValue(c, 16) == i
    ensures IsDigitInBase(c, 16) ==> var i := DigitValue(c, 16); c == UPPER[i] || c == LOWER[i]
  {}

  /** Capitals are written. */
  lemma WrittenByName(d: int)
    requires 0 <= d < 16
    ensures DigitChar(d) == UPPER[d]
  {}

  // ---------------------------------------------------------------- either case

  /** `t` is `s` with some of the letters A to F in lower case. */
  ghost predicate SomeLower(s: string, t: string) {
    |s| == |t| && forall i :: 0 <= i < |s| ==>
      t[i] == s[i] || exists d :: 10 <= d < 16 && s[i] == UPPER[d] && t[i] == LOWER[d]
  }

  lemma {:induction false} ValueIgnoresCase(s: string, t: string, base: int)
    requires GoodBase(base) && AllDigits(s, base) && SomeLower(s, t)
    ensures AllDigits(t, base) && Value(t, base) == Value(s, base)
  {
    hide Value, IsDigitInBase, DigitValue;
    forall i | 0 <= i < |s|
      ensures IsDigitInBase(t[i], base) && DigitValue(t[i], base) == DigitValue(s[i], base)
    {
      LowerSame(s[i], t[i], base);
    }
    if s != [] {
      var last := |s| - 1;
      ValueIgnoresCase(s[..last], t[..last], base);
      ValueOfLast(s, base);
      ValueOfLast(t, base);
    } else {
      assert s == t;
    }
  }

  lemma LowerSame(c: char, e: char, base: int)
    requires GoodBase(base) && IsDigitInBase(c, base)
    requires e == c || exists d :: 10 <= d < 16 && c == UPPER[d] && e == LOWER[d]
    ensures IsDigitInBase(e, base) && DigitValue(e, base) == DigitValue(c, base)
  {}

  /** Reading does not depend on the case of the digits. */
  lemma CaseIgnored(n: nat, base: int, t: string, rest: string)
    requires GoodBase(base) && n < TWO_64 && SomeLower(Digits(n, base), t)
    requires rest == [] || !IsDigitInBase(rest[0], base)
    ensures Parsed(t + rest, base) == n && DigitPrefix(t + rest, base) == |t|
  {
    hide IsDigitInBase, Value, Digits, SomeLower;
    ValueIgnoresCase(Digits(n, base), t, base);
    ValueOfDigits(n, base);
    PrefixOfDigits(t, rest, base);
    assert (t + rest)[..|t|] == t;
  }

  // ---------------------------------------------------------------- powers of the base

  function Power(base: int, k: nat): (p: int)
    requires base > 0
    ensures p > 0
  {
    if k == 0 then 1 else
      Positive(Power(base, k - 1) - 1, base, base - 1);
      Power(base, k - 1) * base
  }

  function OneAndZeros(k: nat): string {
    if k == 0 then "1" else OneAndZeros(k - 1) + "0"
  }

  /** A power of the base is written as one and zeros, the one first. */
  lemma {:induction false} PowerDigits(base: int, k: nat)
    requires GoodBase(base)
    ensures Digits(Power(base, k), base) == OneAndZeros(k)
  {
    hide Digits, DigitChar;
    WrittenByName(if k == 0 then 1 else 0);
    if k == 0 {
      DigitAlone(1, base);
    } else {
      PowerDigits(base, k - 1);
      DigitsAppend(Power(base, k - 1), 0, base);
    }
  }

  // ---------------------------------------------------------------- more than 64 bits

  /** A number of any size is read modulo 2^64. */
  lemma ParsedWraps(n: nat, base: int, rest: string)
    requires GoodBase(base) && (rest == [] || !IsDigitInBase(rest[0], base))
    ensures var s := Digits(n, base) + rest;
      0 <= Parsed(s, base) < TWO_64 && (n - Parsed(s, base)) % TWO_64 == 0
  {
    hide IsDigitInBase, Value, Digits;
    var d := Digits(n, base);
    PrefixOfDigits(d, rest, base);
    assert (d + rest)[..|d|] == d;
    ValueOfDigits(n, base);
    assert n - n % TWO_64 == n / TWO_64 * TWO_64;
  }

  /** And as a signed number: the one of the 64-bit range that differs by whole multiples of 2^64. */
  lemma SignedWraps(n: nat, base: int, rest: string)
    requires GoodBase(base) && (rest == [] || !IsDigitInBase(rest[0], base))
    ensures var r := SignedParsed(Digits(n, base) + rest, base);
      && -TWO_63 <= r < TWO_63 && (n - r) % TWO_64 == 0
      && SignedParsed("-" + (Digits(n, base) + rest), base) == -r
  {
    hide Digits, Parsed, SignedParsed, IsDigitInBase;
    ParsedWraps(n, base, rest);
    DigitFirstParsed(Digits(n, base) + rest, base);
    MinusParsed(Digits(n, base) + rest, base);
    var u := Parsed(Digits(n, base) + rest, base);
    WholeMore(n - u);
  }

  lemma WholeMore(x: int)
    requires x % TWO_64 == 0
    ensures (x + TWO_64) % TWO_64 == 0
  {}

  /** A sign is written for the numbers below zero, and in front. */
  lemma SignInFront(n: int, base: int)
    requires GoodBase(base)
    ensures var s := SignedDigits(n, base);
      if n < 0 then s[..1] == "-" && Canonical(s[1..], base) && Value(s[1..], base) == -n
      else Canonical(s, base) && Value(s, base) == n
  {
    hide Value, Digits;
    var m: nat := if n < 0 then -n else n;
    DigitsCanonical(m, base);
    ValueOfDigits(m, base);
    if n < 0 {
      assert ("-" + Digits(m, base))[1..] == Digits(m, base);
    }
  }
}
