/**
 Bits of integers. A negative number is read as infinite two's complement, as
 floor division by powers of two does; the bitwise operations on machine words
 are defined on naturals.
 */
module Bits {
  import opened Arith

  predicate Bit(x: int, i: nat) {
    (x / Pow(2, i)) % 2 == 1
  }

  function Flag(b: bool): nat { if b then 1 else 0 }

  function And(x: nat, y: nat): nat {
    if x == 0 || y == 0 then 0 else 2 * And(x / 2, y / 2) + Flag(x % 2 == 1 && y % 2 == 1)
  }

  function Or(x: nat, y: nat): nat {
    if x == 0 && y == 0 then 0 else 2 * Or(x / 2, y / 2) + Flag(x % 2 == 1 || y % 2 == 1)
  }

  function Xor(x: nat, y: nat): nat {
    if x == 0 && y == 0 then 0 else 2 * Xor(x / 2, y / 2) + Flag(x % 2 != y % 2)
  }

  // The complement of a w-bit word.
  function Not(x: nat, w: nat): nat
    requires x < Pow(2, w)
  {
    Pow(2, w) - 1 - x
  }

  lemma BitZeroth(x: int)
    ensures Bit(x, 0) <==> x % 2 == 1
  {
    assert x / 1 == x;
  }

  // Bits of x beyond the first are the bits of x / 2.
  lemma BitHalf(x: int, i: nat)
    requires i > 0
    ensures Bit(x, i) == Bit(x / 2, i - 1)
  {
    DivDiv(x, 2, Pow(2, i - 1));
  }

  // Shifting right by n renumbers the bits.
  lemma BitShift(x: int, n: nat, i: nat)
    ensures Bit(x / Pow(2, n), i) == Bit(x, n + i)
  {
    DivDiv(x, Pow(2, n), Pow(2, i));
    PowAdd(2, n, i);
  }

  lemma {:induction false} BitAnd(x: nat, y: nat, i: nat)
    ensures Bit(And(x, y), i) == (Bit(x, i) && Bit(y, i))
    decreases i
  {
    BitZeroOf(i);
    if x != 0 && y != 0 {
      if i == 0 {
        BitZeroth(x); BitZeroth(y); BitZeroth(And(x, y));
      } else {
        BitHalf(x, i); BitHalf(y, i); BitHalf(And(x, y), i);
        BitAnd(x / 2, y / 2, i - 1);
      }
    }
  }

  lemma {:induction false} BitOr(x: nat, y: nat, i: nat)
    ensures Bit(Or(x, y), i) == (Bit(x, i) || Bit(y, i))
    decreases i
  {
    BitZeroOf(i);
    if x != 0 || y != 0 {
      if i == 0 {
        BitZeroth(x); BitZeroth(y); BitZeroth(Or(x, y));
      } else {
        BitHalf(x, i); BitHalf(y, i); BitHalf(Or(x, y), i);
        BitOr(x / 2, y / 2, i - 1);
      }
    }
  }

  lemma {:induction false} BitXor(x: nat, y: nat, i: nat)
    ensures Bit(Xor(x, y), i) == (Bit(x, i) != Bit(y, i))
    decreases i
  {
    BitZeroOf(i);
    if x != 0 || y != 0 {
      if i == 0 {
        BitZeroth(x); BitZeroth(y); BitZeroth(Xor(x, y));
      } else {
        BitHalf(x, i); BitHalf(y, i); BitHalf(Xor(x, y), i);
        BitXor(x / 2, y / 2, i - 1);
      }
    }
  }

  lemma BitZeroOf(i: nat)
    ensures !Bit(0, i)
  {
    DivUnique(0, Pow(2, i), 0, 0);
  }

  // Complement: -1 - x has every bit of x flipped.
  lemma BitComplement(x: int, i: nat)
    ensures Bit(-1 - x, i) == !Bit(x, i)
  {
    var p := Pow(2, i);
    DivMod(x, p);
    assert -1 - x == (-1 - x / p) * p + (p - 1 - x % p);
    DivUnique(-1 - x, p, -1 - x / p, p - 1 - x % p);
  }

  // Reducing modulo 2^w keeps the low w bits and clears the others.
  lemma BitMod(x: int, w: nat, i: nat)
    ensures Bit(x % Pow(2, w), i) == (i < w && Bit(x, i))
  {
    var p := Pow(2, w);
    DivMod(x, p);
    var r := x % p;
    if i < w {
      var q, s := Pow(2, i), Pow(2, w - i);
      PowAdd(2, i, w - i);
      DivDiv(x, q, s);
      DivMod(x / q, s);
      DivMod(x, q);
      DivUnique(r, q, (x / q) % s, x % q);
      assert s == 2 * Pow(2, w - i - 1);
      DivDiv(x / q, 2, Pow(2, w - i - 1));
      DivUnique((x / q) % s, 2, ((x / q) / 2) % Pow(2, w - i - 1), (x / q) % 2);
    } else {
      PowMono(2, w, i);
      DivUnique(r, Pow(2, i), 0, r);
    }
  }

  lemma BitNot(x: nat, w: nat, i: nat)
    requires x < Pow(2, w)
    ensures Bit(Not(x, w), i) == (i < w && !Bit(x, i))
  {
    DivUnique(-1 - x, Pow(2, w), -1, Not(x, w));
    BitMod(-1 - x, w, i);
    BitComplement(x, i);
  }

  // A w-bit word has no bits from w on.
  lemma BitSmall(x: nat, w: nat, i: nat)
    requires x < Pow(2, w) && w <= i
    ensures !Bit(x, i)
  {
    PowMono(2, w, i);
    DivUnique(x, Pow(2, i), 0, x);
  }

  // The words stay words.
  lemma {:induction false} AndBound(x: nat, y: nat)
    ensures And(x, y) <= x && And(x, y) <= y
  {
    if x != 0 && y != 0 {
      AndBound(x / 2, y / 2);
    }
  }

  lemma {:induction false} OrXorBound(x: nat, y: nat, w: nat)
    requires x < Pow(2, w) && y < Pow(2, w)
    ensures Or(x, y) < Pow(2, w) && Xor(x, y) < Pow(2, w)
  {
    if w > 0 && (x != 0 || y != 0) {
      assert Pow(2, w) == 2 * Pow(2, w - 1);
      OrXorBound(x / 2, y / 2, w - 1);
    }
  }

  // Or of a multiple of 2^w and a w-bit word is their sum.
  lemma {:induction false} OrDisjoint(h: nat, l: nat, w: nat)
    requires l < Pow(2, w)
    ensures Or(h * Pow(2, w), l) == h * Pow(2, w) + l
  {
    if w == 0 {
      OrZero(h);
    } else {
      var x: nat, y: nat := h * Pow(2, w), h * Pow(2, w - 1);
      assert x == 2 * y;
      OrDisjoint(h, l / 2, w - 1);
      if x != 0 || l != 0 {
        assert Or(x, l) == 2 * Or(y, l / 2) + Flag(l % 2 == 1);
      }
    }
  }

  lemma {:induction false} OrComm(x: nat, y: nat)
    ensures Or(x, y) == Or(y, x)
  {
    if x != 0 || y != 0 {
      OrComm(x / 2, y / 2);
    }
  }

  lemma {:induction false} OrZero(x: nat)
    ensures Or(x, 0) == x
  {
    if x != 0 {
      OrZero(x / 2);
    }
  }

  // And with 2^w - 1 keeps the low w bits.
  lemma {:induction false} AndMask(x: nat, w: nat)
    ensures And(x, Pow(2, w) - 1) == x % Pow(2, w)
  {
    if w == 0 {
    } else {
      var p: nat := Pow(2, w - 1);
      var m: nat := 2 * p - 1;
      DivUnique(m, 2, p - 1, 1);
      AndMask(x / 2, w - 1);
      DivDiv(x, 2, p);
      if x == 0 {
        DivUnique(0, 2 * p, 0, 0);
      } else {
        assert And(x, m) == 2 * And(x / 2, m / 2) + Flag(x % 2 == 1);
      }
    }
  }

  // Integers with the same bits are equal.
  lemma BitsDetermine(x: int, y: int)
    requires forall i: nat :: Bit(x, i) == Bit(y, i)
    ensures x == y
    decreases (if x < 0 then -x else x) + (if y < 0 then -y else y)
  {
    BitZeroth(x); BitZeroth(y);
    assert Bit(x, 0) == Bit(y, 0);
    forall i: nat ensures Bit(x / 2, i) == Bit(y / 2, i) {
      BitHalf(x, i + 1); BitHalf(y, i + 1);
    }
    if x in {0, -1} && y in {0, -1} {
    } else {
      BitsDetermine(x / 2, y / 2);
    }
  }

  // And with a mask shifted up by k looks only at the bits from k on.
  lemma {:induction false} AndShift(h: nat, l: nat, m: nat, k: nat)
    requires l < Pow(2, k)
    ensures And(h * Pow(2, k) + l, m * Pow(2, k)) == And(h, m) * Pow(2, k)
  {
    if k > 0 {
      var x: nat, y: nat := h * Pow(2, k - 1), m * Pow(2, k - 1);
      DoubleAssoc(h, Pow(2, k - 1)); DoubleAssoc(m, Pow(2, k - 1)); DoubleAssoc(And(h, m), Pow(2, k - 1));
      AndShift(h, l / 2, m, k - 1);
      AndDouble(x, l, y);
    }
  }

  lemma DoubleAssoc(h: int, p: int)
    ensures h * (2 * p) == 2 * (h * p)
  {
  }

  lemma AndDouble(x: nat, l: nat, y: nat)
    ensures And(2 * x + l, 2 * y) == 2 * And(x + l / 2, y)
  {
  }

  /** x | 1. */
  function SetLow(x: int): int { if x % 2 == 0 then x + 1 else x }

  /** It sets bit 0 and keeps the others, whatever the sign. */
  lemma SetLowBits(x: int, i: nat)
    ensures Bit(SetLow(x), i) == (i == 0 || Bit(x, i))
  {
    hide Bit;
    if i == 0 {
      BitZeroth(SetLow(x));
    } else {
      BitHalf(x, i);
      BitHalf(SetLow(x), i);
    }
  }
}
