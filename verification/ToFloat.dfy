/**
 Conversion to floating point of Zarith integers and rationals. However many bits
 the number has, the result is the number correctly rounded: the shift leaves 54 to
 56 bits and the rounding to odd hides it.
 */
module ToFloat {
  import opened Arith
  import opened BngDigit
  import Rational
  import opened Rounding
  import opened ZRep

  /** The number of significant bits. */
  function NumBits(m: nat): nat { if m == 0 then 0 else 1 + NumBits(m / 2) }

  lemma {:induction false} NumBitsBounds(m: nat)
    requires m > 0
    ensures NumBits(m) > 0 && Pow(2, NumBits(m) - 1) <= m < Pow(2, NumBits(m))
  {
    if m > 1 {
      NumBitsBounds(m / 2);
      assert Pow(2, NumBits(m) - 1) == 2 * Pow(2, NumBits(m / 2) - 1);
      assert Pow(2, NumBits(m)) == 2 * Pow(2, NumBits(m / 2));
    }
  }

  lemma FitsFromReal(r: real, e: nat)
    requires AbsReal(r) < Exp2(e) && e <= 62
    ensures FitsInt64(r.Floor)
  {
    hide Exp2;
    Exp2Pow(e);
    PowMono(2, e, 63);
  }

  // Integer division is the floor of the real one.
  lemma FloorDiv(p: int, q: int)
    requires q > 0
    ensures (p as real / q as real).Floor == p / q
    ensures p % q == 0 <==> p as real / q as real == (p / q) as real
  {
    var t, k, u := p as real / q as real, p / q, q as real;
    DivMod(p, q);
    assert t * u == p as real;
    assert (k * q) as real == k as real * u;
    assert p as real == k as real * u + (p % q) as real;
    UnitFloor(t, p as real, u, k);
    if p % q == 0 {
      Quotient(k as real, u, p as real);
    }
  }

  // Undoing the scaling after rounding.
  lemma ScaleBack(r: real, s: real, n: int)
    requires s == r * Exp2(n)
    ensures RoundNearest(s) * Exp2(-n) == RoundNearest(r)
  {
    hide Exp2, RoundNearest;
    RoundScale(r, s, n);
    Exp2Add(n, -n);
    Exp2Zero();
    RealReassoc(RoundNearest(r), Exp2(n), Exp2(-n));
  }

  /** The number shifted down to its 55 leading bits. */
  lemma TopBits(x: int, s: nat)
    requires Pow(2, s + 54) <= AbsInt(x) < Pow(2, s + 55)
    ensures Pow(2, s) > 0 && FitsInt64(x / Pow(2, s))
    ensures RoundToFloat(x / Pow(2, s), x == (x / Pow(2, s)) * Pow(2, s)) * Exp2(s) == RoundNearest(x as real)
  {
    hide Exp2, RoundNearest, RoundToFloat, Pow, FitsInt64, AbsReal;
    var p := Pow(2, s);
    PowPositive(s);
    var r := x as real / p as real;
    FloorDiv(x, p);
    DivMod(x, p);
    TopRange(x, s, r);
    FitsFromReal(r, 55);
    RoundToOdd(r, x == (x / p) * p);
    Exp2Pow(s);
    assert r * Exp2(s) == x as real;
    RoundScale(r, x as real, s);
  }

  lemma TopRange(x: int, s: nat, r: real)
    requires Pow(2, s + 54) <= AbsInt(x) < Pow(2, s + 55)
    requires Pow(2, s) > 0 && r == x as real / Pow(2, s) as real
    ensures Exp2(54) <= AbsReal(r) < Exp2(55)
  {
    hide Exp2, Pow, AbsReal;
    PowCast(54, s);
    PowCast(55, s);
    AbsQuotient(x, Pow(2, s), r);
    Between(Exp2(54), Exp2(55), AbsReal(r), Pow(2, s) as real, AbsInt(x) as real);
  }

  lemma Between(lo: real, hi: real, a: real, p: real, x: real)
    requires p > 0.0 && a * p == x && lo * p <= x < hi * p
    ensures lo <= a < hi
  {
    CancelLe(lo, a, p);
    CancelLt(a, hi, p);
  }

  lemma PowCast(m: nat, s: nat)
    ensures Pow(2, s + m) as real == Exp2(m) * Pow(2, s) as real
  {
    hide Exp2, Pow;
    PowAdd(2, m, s);
    Exp2Pow(m);
    assert (Pow(2, m) * Pow(2, s)) as real == Pow(2, m) as real * Pow(2, s) as real;
  }

  lemma AbsCast(x: int)
    ensures AbsReal(x as real) == AbsInt(x) as real
  {
  }

  /** Z.to_float; ldexp is the product with a power of two. */
  ghost function IntToFloat(z: Z, w: WordBits): real
    requires Valid(z, w)
  {
    if z.Small? then RoundNearest(z.n as real) else
      var x := Value(z, w);
      var n := NumBits(AbsInt(x));
      if n <= 63 then RoundNearest(x as real) else
        var s := n - 55;
        NumBitsBounds(AbsInt(x));
        PowMono(2, s + 54, n - 1);
        TopBits(x, s);
        var top := x / Pow(2, s);
        RoundToFloat(top, x == top * Pow(2, s)) * Exp2(s)
  }

  /** Every integer converts to itself correctly rounded. */
  lemma IntToFloatRounds(z: Z, w: WordBits)
    requires Valid(z, w)
    ensures IntToFloat(z, w) == RoundNearest(Value(z, w) as real)
  {
    hide RoundNearest, RoundToFloat, Exp2, Pow;
    var x := Value(z, w);
    var n := NumBits(AbsInt(x));
    if z.Block? && n > 63 {
      NumBitsBounds(AbsInt(x));
      TopBits(x, n - 55);
    }
  }

  // The scaled fraction, with the power of two on the side where it is an integer.
  function Scale(p: int, q: nat, n: int): (r: (int, int))
    requires q > 0
    ensures r.1 > 0
  {
    PowPositive(if n >= 0 then n else -n);
    if n >= 0 then (p * Pow(2, n), q) else (MulPositive(q, Pow(2, -n)); (p, q * Pow(2, -n)))
  }

  lemma ScaleIsProduct(p: int, q: nat, n: int)
    requires q > 0
    ensures Scale(p, q, n).0 as real / Scale(p, q, n).1 as real == (p as real / q as real) * Exp2(n)
  {
    hide Exp2, Pow;
    var (p', q') := Scale(p, q, n);
    var r, d := p as real / q as real, q as real;
    assert r * d == p as real;
    if n >= 0 {
      Exp2Pow(n);
      assert p' as real == p as real * Exp2(n);
      ProductQuotient(r, d, Exp2(n), p as real, p' as real, d, 1.0);
    } else {
      Exp2Pow(-n);
      Exp2Add(n, -n);
      Exp2Zero();
      assert q' as real == d * Exp2(-n);
      ProductQuotient(r, d, Exp2(n), p as real, p as real, q' as real, Exp2(-n));
    }
  }

  lemma ProductQuotient(r: real, d: real, e: real, p: real, n: real, m: real, f: real)
    requires m > 0.0 && r * d == p && m == d * f && ((n == p * e && f == 1.0) || (n == p && e * f == 1.0))
    ensures n / m == r * e
  {
    assert (r * e) * m == (r * d) * (e * f);
    Quotient(r * e, m, n);
  }

  /** The scaled fraction has 55 or 56 bits before the point. */
  lemma ScaledRange(p: int, q: nat, np: nat, nq: nat, r: real)
    requires q > 0 && p != 0 && np == NumBits(AbsInt(p)) && nq == NumBits(q)
    requires r == (p as real / q as real) * Exp2(55 - (np - nq))
    ensures Exp2(54) <= AbsReal(r) < Exp2(56)
  {
    hide Exp2, Pow, NumBits, AbsReal;
    var n: int := 55 - (np - nq);
    var s, d := p as real / q as real, q as real;
    BitsAsReals(AbsInt(p));
    BitsAsReals(q);
    Exp2Add(np - 1, n);
    Exp2Add(np, n);
    Exp2Add(54, nq);
    Exp2Add(56, nq - 1);
    assert np - 1 + n == 54 + nq && np + n == 56 + (nq - 1);
    AbsFraction(p, q, s, r, Exp2(n));
    CrossBounds(AbsReal(s), d, Exp2(n), AbsInt(p) as real, Exp2(np - 1), Exp2(np), Exp2(nq - 1), Exp2(nq),
                Exp2(54), Exp2(56));
  }

  lemma BitsAsReals(m: nat)
    requires m > 0
    ensures Exp2(NumBits(m) - 1) <= m as real < Exp2(NumBits(m))
  {
    hide Exp2, Pow, NumBits;
    NumBitsBounds(m);
    Exp2Pow(NumBits(m) - 1);
    Exp2Pow(NumBits(m));
  }

  lemma AbsQuotient(p: int, q: nat, s: real)
    requires q > 0 && s == p as real / q as real
    ensures AbsReal(s) * q as real == AbsInt(p) as real
  {
    hide AbsReal;
    assert s * q as real == p as real;
    AbsScale(s, p as real, q as real);
    AbsCast(p);
  }

  lemma AbsFraction(p: int, q: nat, s: real, r: real, e: real)
    requires q > 0 && e > 0.0 && s == p as real / q as real && r == s * e
    ensures AbsReal(r) == AbsReal(s) * e && AbsReal(s) * q as real == AbsInt(p) as real
  {
    hide AbsReal;
    AbsQuotient(p, q, s);
    AbsScale(s, r, e);
  }

  lemma CrossBounds(s: real, d: real, e: real, a: real, p0: real, p1: real, q0: real, q1: real, lo: real, hi: real)
    requires d > 0.0 && e > 0.0 && lo > 0.0 && hi > 0.0 && s * d == a
    requires p0 <= a < p1 && q0 <= d < q1 && p0 * e == lo * q1 && p1 * e == hi * q0
    ensures lo <= s * e < hi
  {
    assert (s * e) * d == a * e by {
      Regroup(s, e, d);
      assert (s * d) * e == a * e;
    }
    RealMulLe(p0, a, e);
    RealMul(a, p1, e);
    RealMul(d, q1, lo);
    RealMulLe(q0, d, hi);
    CancelLe(lo, s * e, d);
    CancelLt(s * e, hi, d);
  }

  /** Q.to_float on the finite non-zero rationals. */
  ghost function RatToFloat(p: int, q: nat): real
    requires p != 0 && q > 0
  {
    var np, nq := NumBits(AbsInt(p)), NumBits(q);
    if np <= 53 && nq <= 53 then
      SmallConverts(q);
      RoundNearest(RoundNearest(p as real) / RoundNearest(q as real))
    else
      var n := 55 - (np - nq);
      var (p', q') := Scale(p, q, n);
      var quo, rem := p' / q', p' % q';
      QuotientFits(p, q);
      RoundToFloat(quo, rem == 0) * Exp2(-n)
  }

  // Integers of at most 53 bits convert exactly.
  lemma SmallConverts(x: int)
    requires NumBits(AbsInt(x)) <= 53
    ensures RoundNearest(x as real) == x as real
  {
    hide Exp2, RoundNearest, NumBits, Pow;
    if x == 0 {
      RoundZero();
    } else {
      NumBitsBounds(AbsInt(x));
      PowMono(2, NumBits(AbsInt(x)), 53);
      Exp2Zero();
      assert FitsPrecision(x) && x as real == Scaled(x, 0);
      RoundExact(x as real);
    }
  }

  lemma QuotientFits(p: int, q: nat)
    requires p != 0 && q > 0
    ensures var n := 55 - (NumBits(AbsInt(p)) - NumBits(q));
            FitsInt64(Scale(p, q, n).0 / Scale(p, q, n).1)
  {
    hide Exp2, Pow, NumBits, Scale, FitsInt64;
    var n := 55 - (NumBits(AbsInt(p)) - NumBits(q));
    var (p', q') := Scale(p, q, n);
    ScaleIsProduct(p, q, n);
    var r := p' as real / q' as real;
    ScaledRange(p, q, NumBits(AbsInt(p)), NumBits(q), r);
    FitsFromReal(r, 56);
    FloorDiv(p', q');
  }

  /** Every rational converts to itself correctly rounded. */
  lemma RatToFloatRounds(p: int, q: nat)
    requires p != 0 && q > 0
    ensures RatToFloat(p, q) == RoundNearest(p as real / q as real)
  {
    hide Exp2, Pow, NumBits, Scale, RoundNearest, RoundToFloat, FitsInt64;
    var np: int, nq: int := NumBits(AbsInt(p)), NumBits(q);
    if np <= 53 && nq <= 53 {
      SmallConverts(p);
      SmallConverts(q);
    } else {
      var n := 55 - (np - nq);
      var (p', q') := Scale(p, q, n);
      ScaleIsProduct(p, q, n);
      QuotientFits(p, q);
      var r := p' as real / q' as real;
      ScaledRange(p, q, np, nq, r);
      FloorDiv(p', q');
      RoundToOdd(r, p' % q' == 0);
      ScaleBack(p as real / q as real, r, n);
    }
  }

  /** A float whose exponent is not bounded. */
  datatype Float = Finite(r: real) | Infinity | NegInfinity | NaN

  /** Q.to_float on every fraction. */
  ghost function FractionToFloat(x: Rational.Q): Float
    requires Rational.Canonical(x)
  {
    match Rational.Classify(x)
    case ZERO => Finite(0.0)
    case INF => Infinity
    case MINF => NegInfinity
    case UNDEF => NaN
    case NZERO => Finite(RatToFloat(x.num, x.den))
  }

  /** The float for a number, an infinity or the undefined value. */
  ghost function RoundExt(v: Rational.Ext): Float {
    match v
    case Fin(r) => Finite(RoundNearest(r))
    case PlusInf => Infinity
    case MinusInf => NegInfinity
    case Undefined => NaN
  }

  /** Every fraction converts to what it denotes, correctly rounded. */
  lemma FractionToFloatRounds(x: Rational.Q)
    requires Rational.Canonical(x)
    ensures FractionToFloat(x) == RoundExt(Rational.Denote(x))
    ensures x.den > 0 ==> FractionToFloat(x) == Finite(RoundNearest(x.num as real / x.den as real))
    ensures x.den == 0 ==> FractionToFloat(x) == if x.num > 0 then Infinity else if x.num < 0 then NegInfinity else NaN
  {
    hide RatToFloat, RoundNearest;
    if x.den > 0 && x.num != 0 {
      RatToFloatRounds(x.num, x.den);
    }
    RoundZero();
  }
}
