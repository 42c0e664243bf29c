/** The loops of libc/string/nb_to_str.c and str_to_nb.c, and the string loops they use
    (libc/string/str_operations.c), over C strings in character arrays. */
module NumberText {
  import opened Numerals

  // ---------------------------------------------------------------- libc/string/str_operations.c

  function Reversed<T>(s: seq<T>): (r: seq<T>)
    ensures |r| == |s|
  {
    if s == [] then [] else Reversed(s[1..]) + [s[0]]
  }

  lemma {:induction false} ReversedAt<T>(s: seq<T>, k: nat)
    requires k < |s|
    ensures Reversed(s)[k] == s[|s| - 1 - k]
  {
    if k < |s| - 1 {
      ReversedAt(s[1..], k);
    }
  }

  /** strnrev, str_operations.c:141-156 */
  method StrNRev(a: array<char>, str: nat, n: nat)
    requires str + n <= a.Length
    modifies a
    ensures a[str..str + n] == Reversed(old(a[str..str + n]))
    ensures forall i :: 0 <= i < a.Length && !(str <= i < str + n) ==> a[i] == old(a[i])
  {
    var lo: int, hi: int := str, str + n - 1;
    while lo != hi && lo < hi
      invariant str <= lo && lo + hi == 2 * str + n - 1 && lo <= hi + 1
      invariant forall i :: str <= i < lo || hi < i < str + n ==> a[i] == old(a[2 * str + n - 1 - i])
      invariant forall i :: 0 <= i < a.Length && (lo <= i <= hi || !(str <= i < str + n)) ==> a[i] == old(a[i])
      decreases hi - lo
    {
      var tmp := a[lo];
      a[lo] := a[hi];
      a[hi] := tmp;
      lo := lo + 1;
      hi := hi - 1;
    }
    MirrorIsReversed(old(a[..]), a[..], str, n);
    assert a[..][str..str + n] == a[str..str + n];
  }

  lemma MirrorIsReversed<T>(m: seq<T>, r: seq<T>, str: nat, n: nat)
    requires str + n <= |m| == |r|
    requires forall i :: str <= i < str + n ==> r[i] == m[2 * str + n - 1 - i]
    ensures r[str..str + n] == Reversed(m[str..str + n])
  {
    var was := m[str..str + n];
    forall k | 0 <= k < n
      ensures r[str..str + n][k] == Reversed(was)[k]
    {
      ReversedAt(was, k);
      assert r[str + k] == m[2 * str + n - 1 - (str + k)];
    }
  }

  /** The string that starts at `str`: the characters before the first NUL. */
  ghost predicate IsString(a: seq<char>, str: nat, s: string) {
    str + |s| < |a| && a[str..str + |s|] == s && a[str + |s|] == '\0' && '\0' !in s
  }

  // ---------------------------------------------------------------- libc/string/nb_to_str.c

  lemma {:induction false} ReversedSnoc<T>(s: seq<T>, x: T)
    ensures Reversed(s + [x]) == [x] + Reversed(s)
  {
    if s == [] {
      assert s + [x] == [x];
    } else {
      ReversedSnoc(s[1..], x);
      assert (s + [x])[1..] == s[1..] + [x];
    }
  }

  lemma DigitsHaveNoNul(n: nat, base: int)
    requires GoodBase(base)
    ensures '\0' !in Digits(n, base) && '\0' !in SignedDigits(n, base)
  {
    forall i | 0 <= i < |Digits(n, base)|
      ensures Digits(n, base)[i] != '\0'
    {
      assert IsDigitInBase(Digits(n, base)[i], base);
    }
  }

  /** nb_to_str.c:14-20: the last digit of `nb`, which goes behind those written, and the rest of it. */
  method LastDigit(nb: nat, base: int, ghost written: string) returns (digit: char, quotient: nat)
    requires GoodBase(base)
    ensures digit == DigitChar(nb % base) && quotient == nb / base
    ensures quotient != 0 ==> quotient < nb
    ensures Digits(nb, base) + Reversed(written)
            == (if quotient != 0 then Digits(quotient, base) else []) + Reversed(written + [digit])
  {
    hide Reversed, Digits, DigitChar;
    Divide(nb, base);
    quotient := nb / base;
    var remaining := nb % base + '0' as int;
    if remaining > '9' as int {
      remaining := remaining + 7;
    }
    digit := remaining as char;
    assert digit == DigitChar(nb % base);
    LastGoesFirst(nb, base, written);
  }

  lemma LastGoesFirst(nb: nat, base: int, written: string)
    requires GoodBase(base)
    ensures Digits(nb, base) + Reversed(written)
            == (if nb / base != 0 then Digits(nb / base, base) else [])
               + Reversed(written + [DigitChar(nb % base)])
  {
    hide Reversed, Digits, DigitChar;
    Divide(nb, base);
    ReversedSnoc(written, DigitChar(nb % base));
    if nb < base {
      DigitAlone(nb, base);
    } else {
      DigitsStep(nb, base);
    }
  }

  lemma ReversedNothing()
    ensures Reversed<char>("") == ""
  {}

  /** uinttostring: the digits least first, then reversed in place. */
  method UIntToString(number: nat, a: array<char>, str: nat, base: int)
    requires GoodBase(base) && number < TWO_64
    requires str + |Digits(number, base)| < a.Length
    modifies a
    ensures IsString(a[..], str, Digits(number, base))
    ensures forall i :: 0 <= i < a.Length && !(str <= i <= str + |Digits(number, base)|) ==> a[i] == old(a[i])
  {
    hide Digits, Reversed, SignedDigits;
    var nb: nat, nbdigits: nat := number, 0;
    ghost var goal, written := Digits(number, base), "";
    ReversedNothing();
    var again := true;
    while again
      invariant nbdigits == |written| <= |goal|
      invariant goal == (if again then Digits(nb, base) else []) + Reversed(written)
      invariant a[str..str + nbdigits] == written
      invariant forall i :: 0 <= i < a.Length && !(str <= i < str + |goal|) ==> a[i] == old(a[i])
      decreases again, nb
    {
      var digit, quotient := LastDigit(nb, base, written);
      written := written + [digit];
      a[str + nbdigits] := digit;
      nbdigits := nbdigits + 1;
      nb := quotient;
      again := quotient != 0;
    }
    StrNRev(a, str, nbdigits);
    a[str + nbdigits] := '\0';
    DigitsHaveNoNul(number, base);
    assert a[..][str..str + nbdigits] == a[str..str + nbdigits] == goal;
  }

  /** inttostring; the least number has no negation to write. */
  method IntToString(number: int, a: array<char>, str: nat, base: int)
    requires GoodBase(base) && -TWO_63 < number < TWO_63
    requires str + |SignedDigits(number, base)| < a.Length
    modifies a
    ensures IsString(a[..], str, SignedDigits(number, base))
    ensures forall i :: 0 <= i < a.Length && !(str <= i <= str + |SignedDigits(number, base)|) ==> a[i] == old(a[i])
  {
    if number < 0 {
      a[str] := '-';
      UIntToString(-number, a, str + 1, base);
      MinusString(a[..], str, Digits(-number, base));
    } else {
      UIntToString(number, a, str, base);
    }
  }

  lemma MinusString(a: seq<char>, str: nat, s: string)
    requires IsString(a, str + 1, s) && a[str] == '-'
    ensures IsString(a, str, "-" + s)
  {
    assert a[str..str + 1 + |s|] == [a[str]] + a[str + 1..str + 1 + |s|];
  }

  // ---------------------------------------------------------------- libc/string/str_to_nb.c

  /** strtoull on a string that ends at the latest with its NUL. */
  method StrToULL(str: string, base: int) returns (n: nat, endptr: nat)
    requires GoodBase(base) && '\0' in str
    ensures endptr == DigitPrefix(str, base) && endptr < |str|
    ensures n == Parsed(str, base)
  {
    n, endptr := 0, 0;
    ghost var k := DigitPrefix(str, base);
    while IsDigitInBase(str[endptr], base)
      invariant endptr <= k < |str|
      invariant n == Value(str[..k][..endptr], base) % TWO_64
      decreases k - endptr
    {
      var c := str[endptr];
      ghost var front := str[..k][..endptr + 1];
      assert front[..endptr] == str[..k][..endptr] && front[endptr] == c;
      ModStep(Value(str[..k][..endptr], base), base, DigitValue(c, base));
      n := (n * base) % TWO_64;
      if IsDigit(c) {
        n := (n + (c as int - '0' as int)) % TWO_64;
      } else {
        c := ToLower(c);
        n := (n + (c as int - 'a' as int + 10)) % TWO_64;
      }
      endptr := endptr + 1;
    }
    assert str[..k][..k] == str[..k];
  }

  lemma ModStep(v: nat, base: nat, d: nat)
    ensures (v * base + d) % TWO_64 == ((v % TWO_64 * base) % TWO_64 + d) % TWO_64
  {
    var r := v % TWO_64;
    var q := v / TWO_64;
    assert v * base == (q * base) * TWO_64 + r * base by {
      assert v == q * TWO_64 + r;
    }
    AddMultiple(r * base + d, q * base);
    AddMultiple((r * base) % TWO_64 + d, (r * base) / TWO_64);
  }

  lemma AddMultiple(a: int, k: int)
    ensures (a + k * TWO_64) % TWO_64 == a % TWO_64
  {}

  /** strtoll; the pattern of the least number has no negation to return. */
  method StrToLL(str: string, base: int) returns (n: int, endptr: nat)
    requires GoodBase(base) && '\0' in str
    requires str[0] == '-' ==> Parsed(str[1..], base) != TWO_63
    ensures n == SignedParsed(str, base)
    ensures endptr == if str[0] == '-' then 1 + DigitPrefix(str[1..], base) else DigitPrefix(str, base)
  {
    var negative := str[0] == '-';
    var u;
    if negative {
      u, endptr := StrToULL(str[1..], base);
      endptr := endptr + 1;
    } else {
      u, endptr := StrToULL(str, base);
    }
    n := if negative then -ToSigned(u) else ToSigned(u);
  }

  /** A number written to a buffer and read back from it. */
  method WriteThenRead(number: nat, a: array<char>, str: nat, base: int) returns (n: nat, endptr: nat)
    requires GoodBase(base) && number < TWO_64
    requires str + 65 <= a.Length
    modifies a
    ensures n == number && str + endptr < a.Length && a[str + endptr] == '\0'
  {
    DigitsFit(number, base);
    UIntToString(number, a, str, base);
    ghost var d := Digits(number, base);
    ghost var rest := a[str + |d|..];
    assert a[str..] == d + rest;
    RoundTrip(number, base, rest);
    n, endptr := StrToULL(a[str..], base);
  }
}
