/** The bit operators of C on numbers that are not negative. */
module Bits {
  function Bit(x: nat, i: nat): bool {
    if i == 0 then x % 2 == 1 else Bit(x / 2, i - 1)
  }

  /** x & y */
  function And(x: nat, y: nat): nat {
    if x == 0 || y == 0 then 0 else (if x % 2 == 1 && y % 2 == 1 then 1 else 0) + 2 * And(x / 2, y / 2)
  }

  /** x | y */
  function Or(x: nat, y: nat): nat
    decreases x + y
  {
    if x == 0 then y else if y == 0 then x
    else (if x % 2 == 1 || y % 2 == 1 then 1 else 0) + 2 * Or(x / 2, y / 2)
  }

  /** x << k, without a bound. */
  function Shl(x: nat, k: nat): nat {
    if k == 0 then x else 2 * Shl(x, k - 1)
  }

  /** x >> k */
  function Shr(x: nat, k: nat): nat {
    if k == 0 then x else Shr(x / 2, k - 1)
  }

  /** The `k` low bits. */
  function Mask(k: nat): nat {
    if k == 0 then 0 else 1 + 2 * Mask(k - 1)
  }

  lemma {:induction false} NoBits(i: nat)
    ensures !Bit(0, i)
  {
    if i > 0 {
      NoBits(i - 1);
    }
  }

  /** Bit by bit. */
  lemma {:induction false} AndBits(x: nat, y: nat, i: nat)
    ensures Bit(And(x, y), i) <==> Bit(x, i) && Bit(y, i)
    decreases i
  {
    if x == 0 || y == 0 {
      NoBits(i);
    } else {
      var a := And(x / 2, y / 2);
      var b := if x % 2 == 1 && y % 2 == 1 then 1 else 0;
      assert (b + 2 * a) / 2 == a && (b + 2 * a) % 2 == b;
      if i > 0 {
        AndBits(x / 2, y / 2, i - 1);
      }
    }
  }

  lemma {:induction false} OrBits(x: nat, y: nat, i: nat)
    ensures Bit(Or(x, y), i) <==> Bit(x, i) || Bit(y, i)
    decreases i
  {
    if x == 0 || y == 0 {
      NoBits(i);
    } else {
      var a := Or(x / 2, y / 2);
      var b := if x % 2 == 1 || y % 2 == 1 then 1 else 0;
      assert (b + 2 * a) / 2 == a && (b + 2 * a) % 2 == b;
      if i > 0 {
        OrBits(x / 2, y / 2, i - 1);
      }
    }
  }

  lemma AndStep(x: nat, y: nat)
    ensures And(x, y) == (if x % 2 == 1 && y % 2 == 1 then 1 else 0) + 2 * And(x / 2, y / 2)
  {}

  lemma OrStep(x: nat, y: nat)
    ensures Or(x, y) == (if x % 2 == 1 || y % 2 == 1 then 1 else 0) + 2 * Or(x / 2, y / 2)
  {}

  /** A mask leaves what the bits above it leave over. */
  lemma {:induction false} AndLow(x: nat, k: nat)
    ensures And(x, Mask(k)) + Shl(Shr(x, k), k) == x
    decreases k
  {
    hide And;
    if k == 0 {
      AndZero(x);
    } else {
      AndLow(x / 2, k - 1);
      AndStep(x, Mask(k));
    }
  }

  lemma AndZero(x: nat)
    ensures And(x, 0) == 0
  {}

  /** A shifted mask selects shifted bits. */
  lemma {:induction false} AndShifted(x: nat, m: nat, k: nat)
    ensures And(x, Shl(m, k)) == Shl(And(Shr(x, k), m), k)
    decreases k
  {
    hide And;
    if k > 0 {
      AndShifted(x / 2, m, k - 1);
      AndStep(x, Shl(m, k));
    }
  }

  /** Bits below and bits above do not meet: their union is their sum. */
  lemma {:induction false} OrApart(h: nat, y: nat, k: nat)
    requires Shr(y, k) == 0
    ensures Or(Shl(h, k), y) == Shl(h, k) + y
    decreases k
  {
    hide Or;
    if k == 0 {
      OrZero(h);
    } else {
      OrApart(h, y / 2, k - 1);
      OrStep(Shl(h, k), y);
    }
  }

  lemma OrZero(x: nat)
    ensures Or(x, 0) == x
  {}

  lemma {:induction false} OrSwaps(x: nat, y: nat)
    ensures Or(x, y) == Or(y, x)
    decreases x + y
  {
    if x > 0 && y > 0 {
      OrSwaps(x / 2, y / 2);
    }
  }

  lemma {:induction false} AndSwaps(x: nat, y: nat)
    ensures And(x, y) == And(y, x)
  {
    if x > 0 && y > 0 {
      AndSwaps(x / 2, y / 2);
    }
  }

  /** The shifts that the registers and the colours use. */
  lemma Shifts(x: nat)
    ensures Shl(x, 2) == 4 * x && Shl(x, 4) == 0x10 * x && Shl(x, 6) == 0x40 * x && Shl(x, 8) == 0x100 * x
    ensures Shr(x, 2) == x / 4 && Shr(x, 4) == x / 0x10 && Shr(x, 6) == x / 0x40 && Shr(x, 8) == x / 0x100
    ensures Mask(2) == 3 && Mask(4) == 0xf && Mask(6) == 0x3f && Mask(8) == 0xff
  {
    TwoMore(x, 0);
    TwoMore(x, 2);
    TwoMore(x, 4);
    TwoMore(x, 6);
    assert Shr(x, 0) == x && Shl(x, 0) == x && Mask(0) == 0;
  }

  /** Two, four, six or eight low bits. */
  lemma LowBits(x: nat)
    ensures And(x, 3) == x % 4 && And(x, 0xf) == x % 0x10 && And(x, 0x3f) == x % 0x40 && And(x, 0xff) == x % 0x100
  {
    Shifts(x);
    AndLow(x, 2);
    AndLow(x, 4);
    AndLow(x, 6);
    AndLow(x, 8);
    Shifts(x / 4);
    Shifts(x / 0x10);
    Shifts(x / 0x40);
    Shifts(x / 0x100);
  }

  lemma {:induction false} TwoMore(x: nat, k: nat)
    ensures Shl(x, k + 2) == 4 * Shl(x, k) && Shr(x, k + 2) == Shr(x, k) / 4 && Mask(k + 2) == 3 + 4 * Mask(k)
    decreases k
  {
    if k > 0 {
      TwoMore(x / 2, k - 1);
      TwoMore(x, k - 1);
    } else {
      assert Shr(x, 2) == Shr(x / 2, 1) == Shr(x / 2 / 2, 0);
      assert Mask(1) == 1 + 2 * Mask(0);
    }
  }
}
