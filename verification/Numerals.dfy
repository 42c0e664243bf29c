/** Numbers as digit strings, most significant digit first: what uinttostring writes
    (libc/string/nb_to_str.c) and strtoull reads back (libc/string/str_to_nb.c). */
module Numerals {
  import opened Division

  const TWO_63: int := 0x8000_0000_0000_0000
  const TWO_64: int := 0x1_0000_0000_0000_0000

  predicate GoodBase(base: int) {
    2 <= base <= 16
  }

  // ---------------------------------------------------------------- libc/ctype/ctype.c

  predicate IsDigit(c: char) {
    '0' <= c <= '9'
  }

  predicate IsUpper(c: char) {
    'A' <= c <= 'Z'
  }

  predicate IsXDigit(c: char) {
    IsDigit(c) || 'A' <= c <= 'F' || 'a' <= c <= 'f'
  }

  function ToLower(c: char): char {
    if IsUpper(c) then (c as int + 'a' as int - 'A' as int) as char else c
  }

  predicate IsDigitInBase(c: char, base: int) {
    if IsDigit(c) then base > 10 || c as int - '0' as int < base
    else IsXDigit(c) && ToLower(c) as int - 'a' as int + 10 < base
  }

  /** What str_to_nb.c:17-22 adds for a digit. */
  function DigitValue(c: char, base: int): (d: int)
    requires GoodBase(base) && IsDigitInBase(c, base)
    ensures 0 <= d < base
  {
    if IsDigit(c) then c as int - '0' as int else ToLower(c) as int - 'a' as int + 10
  }

  // ---------------------------------------------------------------- division by a base

  lemma Divide(n: nat, base: int)
    requires base >= 2
    ensures n == (n / base) * base + n % base
    ensures n > 0 ==> n / base < n
    ensures n >= base <==> n / base > 0
  {
    var q, r := n / base, n % base;
    assert n == q * base + r;
    assert q >= 1 ==> q * base >= base;
    assert q * base >= 2 * q;
  }

  // ---------------------------------------------------------------- strings of digits

  /** nb_to_str.c:17-20: capitals follow the ten digits after a gap of seven. */
  function DigitChar(d: int): (c: char)
    requires 0 <= d < 16
    ensures if d < 10 then c as int == d + 48 else c as int == d + 55
  {
    if d + '0' as int > '9' as int then (d + '0' as int + 7) as char else (d + '0' as int) as char
  }

  function Digits(n: nat, base: int): (s: string)
    requires GoodBase(base)
    ensures s != [] && AllDigits(s, base)
  {
    if n < base then [DigitChar(n)]
    else
      Divide(n, base);
      Digits(n / base, base) + [DigitChar(n % base)]
  }

  predicate AllDigits(s: string, base: int) {
    forall i :: 0 <= i < |s| ==> IsDigitInBase(s[i], base)
  }

  /** The number a digit string stands for. */
  function Value(s: string, base: int): (v: nat)
    requires GoodBase(base) && AllDigits(s, base)
  {
    if s == [] then 0
    else
      var last := |s| - 1;
      var v, d := Value(s[..last], base), DigitValue(s[last], base);
      Positive(v, base, d);
      v * base + d
  }

  /** How many characters strtoull takes. */
  function DigitPrefix(s: string, base: int): (k: nat)
    ensures k <= |s| && AllDigits(s[..k], base)
    ensures k < |s| ==> !IsDigitInBase(s[k], base)
  {
    if s == [] || !IsDigitInBase(s[0], base) then 0
    else
      var k := 1 + DigitPrefix(s[1..], base);
      assert s[..k] == [s[0]] + s[1..][..k - 1];
      k
  }

  /** No leading zero, and capitals only. */
  predicate Canonical(s: string, base: int) {
    && s != [] && AllDigits(s, base)
    && (|s| > 1 ==> s[0] != '0')
    && forall i :: 0 <= i < |s| ==> !('a' <= s[i] <= 'f')
  }

  // ---------------------------------------------------------------- round trips

  lemma {:induction false} ValueOfDigits(n: nat, base: int)
    requires GoodBase(base)
    ensures Value(Digits(n, base), base) == n
  {
    var s := Digits(n, base);
    var last := |s| - 1;
    if n >= base {
      Divide(n, base);
      ValueOfDigits(n / base, base);
      assert s[..last] == Digits(n / base, base);
    } else {
      assert s[..last] == [];
    }
  }

  lemma {:induction false} DigitsCanonical(n: nat, base: int)
    requires GoodBase(base)
    ensures Canonical(Digits(n, base), base)
    ensures Digits(n, base) == "0" <==> n == 0
    ensures n > 0 ==> Digits(n, base)[0] != '0'
  {
    if n >= base {
      Divide(n, base);
      DigitsCanonical(n / base, base);
    }
  }

  lemma DigitsAppend(v: nat, d: nat, base: int)
    requires GoodBase(base) && v > 0 && d < base
    ensures Digits(v * base + d, base) == Digits(v, base) + [DigitChar(d)]
  {
    QuotientRemainder(v, d, base);
    Divide(v * base + d, base);
  }

  /** Every canonical numeral is the one that is written for its value. */
  lemma {:induction false} DigitsOfValue(s: string, base: int)
    requires GoodBase(base) && Canonical(s, base)
    ensures Digits(Value(s, base), base) == s
  {
    hide Digits, DigitChar, DigitValue, IsDigitInBase, Value;
    var last := |s| - 1;
    var front, d := s[..last], DigitValue(s[last], base);
    CanonicalDigit(s[last], base);
    ValueOfLast(s, base);
    assert s == front + [DigitChar(d)];
    if last == 0 {
      DigitAlone(d, base);
    } else {
      DigitsOfValue(front, base);
      DigitsCanonical(Value(front, base), base);
      DigitsAppend(Value(front, base), d, base);
    }
  }

  lemma ValueOfLast(s: string, base: int)
    requires GoodBase(base) && s != [] && AllDigits(s, base)
    ensures var last := |s| - 1;
      && Value(s, base) == Value(s[..last], base) * base + DigitValue(s[last], base)
      && (last == 0 ==> Value(s, base) == DigitValue(s[last], base))
  {
    hide IsDigitInBase, DigitValue;
    if |s| == 1 {
      assert s[..0] == [] && Value([], base) == 0;
    }
  }

  /** The same digits stand for no less in base 10 than in base 2. */
  lemma {:induction false} TenAtLeastTwo(s: string)
    requires AllDigits(s, 2)
    ensures AllDigits(s, 10) && Value(s, 2) <= Value(s, 10)
  {
    hide IsDigitInBase;
    BinaryDigits(s);
    if s != [] {
      var last := |s| - 1;
      TenAtLeastTwo(s[..last]);
      ValueOfLast(s, 2);
      ValueOfLast(s, 10);
    }
  }

  lemma BinaryDigits(s: string)
    requires AllDigits(s, 2)
    ensures AllDigits(s, 10)
    ensures forall i :: 0 <= i < |s| ==> DigitValue(s[i], 2) == DigitValue(s[i], 10)
  {
    forall i | 0 <= i < |s|
      ensures s[i] == '0' || s[i] == '1'
    {
      assert IsDigitInBase(s[i], 2);
    }
  }

  /** Only zero and one are written alike in base 10 and in base 2. */
  lemma TenIsTwoIff(n: nat)
    ensures Digits(n, 10) == Digits(n, 2) <==> n < 2
  {
    hide Digits, IsDigitInBase;
    if n < 2 {
      DigitAlone(n, 10);
      DigitAlone(n, 2);
    } else {
      Divide(n, 2);
      DigitsStep(n, 2);
      var front, s := Digits(n / 2, 2), Digits(n, 2);
      assert s[..|s| - 1] == front;
      ValueOfDigits(n / 2, 2);
      ValueOfDigits(n, 2);
      ValueOfDigits(n, 10);
      TenAtLeastTwo(front);
      TenAtLeastTwo(s);
      BinaryDigits(s);
      ValueOfLast(s, 2);
      ValueOfLast(s, 10);
    }
  }

  lemma DigitsStep(n: nat, base: int)
    requires GoodBase(base) && n >= base
    ensures Digits(n, base) == Digits(n / base, base) + [DigitChar(n % base)]
  {}

  lemma DigitAlone(d: nat, base: int)
    requires GoodBase(base) && d < base
    ensures Digits(d, base) == [DigitChar(d)]
  {}

  lemma CanonicalDigit(c: char, base: int)
    requires GoodBase(base) && IsDigitInBase(c, base) && !('a' <= c <= 'f')
    ensures DigitChar(DigitValue(c, base)) == c
  {}

  function Pow2(k: nat): (p: nat)
    ensures p >= 1
  {
    if k == 0 then 1 else 2 * Pow2(k - 1)
  }

  /** A number below 2^k has at most k digits in any base. */
  lemma {:induction false} DigitsLength(n: nat, base: int, k: nat)
    requires GoodBase(base) && k > 0 && n < Pow2(k)
    ensures |Digits(n, base)| <= k
  {
    hide Digits, Pow2;
    Pow2Step(k - 1);
    if n < base {
      DigitAlone(n, base);
    } else {
      Divide(n, base);
      AtLeastTwice(n / base, base);
      DigitsStep(n, base);
      Pow2Zero();
      assert n / base < Pow2(k - 1);
      DigitsLength(n / base, base, k - 1);
    }
  }

  lemma {:induction false} Pow2Add(j: nat, k: nat)
    ensures Pow2(j + k) == Pow2(j) * Pow2(k)
  {
    hide Pow2;
    if j == 0 {
      Pow2Zero();
    } else {
      Pow2Add(j - 1, k);
      Pow2Step(j - 1);
      Pow2Step(j + k - 1);
      Associate(2, Pow2(j - 1), Pow2(k));
    }
  }

  lemma Pow2Zero()
    ensures Pow2(0) == 1
  {}

  lemma Pow2Step(k: nat)
    ensures Pow2(k + 1) == 2 * Pow2(k)
  {}

  lemma Pow2Of64()
    ensures Pow2(64) == TWO_64
  {
    assert Pow2(2) == 4 && Pow2(4) == 16;
    assert Pow2(8) == 0x100 by { Pow2Add(4, 4); }
    assert Pow2(16) == 0x1_0000 by { Pow2Add(8, 8); }
    assert Pow2(32) == 0x1_0000_0000 by { Pow2Add(16, 16); }
    assert Pow2(64) == TWO_64 by { Pow2Add(32, 32); }
  }

  /** 64 characters hold every 64-bit number in every base. */
  lemma DigitsFit(n: nat, base: int)
    requires GoodBase(base) && n < TWO_64
    ensures |Digits(n, base)| <= 64
  {
    Pow2Of64();
    DigitsLength(n, base, 64);
  }

  /** What strtoull returns and where it stops. */
  function Parsed(s: string, base: int): nat
    requires GoodBase(base)
  {
    Value(s[..DigitPrefix(s, base)], base) % TWO_64
  }

  lemma {:induction false} PrefixOfDigits(s: string, rest: string, base: int)
    requires AllDigits(s, base)
    requires rest == [] || !IsDigitInBase(rest[0], base)
    ensures DigitPrefix(s + rest, base) == |s|
  {
    if s == [] {
      assert s + rest == rest;
    } else {
      assert (s + rest)[1..] == s[1..] + rest;
      PrefixOfDigits(s[1..], rest, base);
    }
  }

  /** Reading what was written gives the number back, and stops at the terminator. */
  lemma RoundTrip(n: nat, base: int, rest: string)
    requires GoodBase(base) && n < TWO_64
    requires rest == [] || !IsDigitInBase(rest[0], base)
    ensures var s := Digits(n, base) + rest;
      Parsed(s, base) == n && DigitPrefix(s, base) == |Digits(n, base)|
  {
    var d := Digits(n, base);
    PrefixOfDigits(d, rest, base);
    assert (d + rest)[..|d|] == d;
    ValueOfDigits(n, base);
  }

  // ---------------------------------------------------------------- signed numbers

  /** What inttostring writes. */
  function SignedDigits(n: int, base: int): string
    requires GoodBase(base)
  {
    if n < 0 then "-" + Digits(-n, base) else Digits(n, base)
  }

  /** A 64-bit pattern read as a signed number. */
  function ToSigned(u: nat): int {
    if u < TWO_63 then u else u - TWO_64
  }

  /** What strtoll returns. */
  function SignedParsed(s: string, base: int): int
    requires GoodBase(base)
  {
    if s != [] && s[0] == '-' then -ToSigned(Parsed(s[1..], base)) else ToSigned(Parsed(s, base))
  }

  /** strtoll after inttostring is the identity on every number but the least. */
  lemma SignedRoundTrip(n: int, base: int, rest: string)
    requires GoodBase(base) && -TWO_63 < n < TWO_63
    requires rest == [] || !IsDigitInBase(rest[0], base)
    ensures SignedParsed(SignedDigits(n, base) + rest, base) == n
  {
    hide Digits, Parsed, SignedParsed, DigitPrefix, IsDigitInBase;
    if n < 0 {
      RoundTrip(-n, base, rest);
      MinusParsed(Digits(-n, base) + rest, base);
      assert SignedDigits(n, base) + rest == "-" + (Digits(-n, base) + rest);
    } else {
      RoundTrip(n, base, rest);
      DigitFirstParsed(Digits(n, base) + rest, base);
    }
  }

  lemma DigitFirstParsed(s: string, base: int)
    requires GoodBase(base) && s != [] && IsDigitInBase(s[0], base)
    ensures SignedParsed(s, base) == ToSigned(Parsed(s, base))
  {}

  lemma MinusParsed(s: string, base: int)
    requires GoodBase(base)
    ensures SignedParsed("-" + s, base) == -ToSigned(Parsed(s, base))
  {
    assert ("-" + s)[1..] == s;
  }
}
