/** Order and algebra of Zarith rationals, over all values with the special ones. */
module RationalLaws {
  import opened Wrappers
  import opened Arith
  import opened Divisors
  import opened Rational

  // Z.compare.
  function CompareInt(a: int, b: int): int { if a < b then -1 else if a > b then 1 else 0 }

  function Compare(x: Q, y: Q): int {
    match (Classify(x), Classify(y))
    case (UNDEF, UNDEF) => 0
    case (INF, INF) => 0
    case (MINF, MINF) => 0
    case (UNDEF, _) => -1
    case (_, UNDEF) => 1
    case (MINF, _) => -1
    case (_, INF) => -1
    case (INF, _) => 1
    case (_, MINF) => 1
    case _ =>
      if x.den == y.den then CompareInt(x.num, y.num)
      else CompareInt(x.num * y.den, y.num * x.den)
  }

  predicate Leq(x: Q, y: Q) {
    match (Classify(x), Classify(y))
    case (UNDEF, _) => false
    case (_, UNDEF) => false
    case (MINF, _) => true
    case (_, INF) => true
    case (INF, _) => false
    case (_, MINF) => false
    case _ =>
      if x.den == y.den then x.num <= y.num
      else x.num * y.den <= y.num * x.den
  }

  predicate Lt(x: Q, y: Q) {
    match (Classify(x), Classify(y))
    case (UNDEF, _) => false
    case (_, UNDEF) => false
    case (INF, _) => false
    case (_, MINF) => false
    case (MINF, _) => true
    case (_, INF) => true
    case _ =>
      if x.den == y.den then x.num < y.num
      else x.num * y.den < y.num * x.den
  }

  predicate Equal(x: Q, y: Q) {
    x.num == y.num && x.den == y.den && Classify(x) != UNDEF
  }

  /** The order the comparison follows: undefined first, then by value. */
  predicate ExtBelow(x: Ext, y: Ext) {
    match (x, y)
    case (Undefined, _) => y != Undefined
    case (_, Undefined) => false
    case (MinusInf, _) => y != MinusInf
    case (_, MinusInf) => false
    case (Fin(r), Fin(s)) => r < s
    case (Fin(_), PlusInf) => true
    case (PlusInf, _) => false
  }

  lemma CrossOrder(x: Q, y: Q)
    requires Canonical(x) && Canonical(y) && x.den > 0 && y.den > 0
    ensures RealOf(x.num, x.den) < RealOf(y.num, y.den) <==>
            if x.den == y.den then x.num < y.num else x.num * y.den < y.num * x.den
  {
    hide RealOf;
    CrossCompare(x.num, x.den, y.num, y.den);
    if x.den == y.den {
      if x.num < y.num {
        MulStrict(x.num, y.num, x.den);
      } else {
        MulMono(y.num, x.num, x.den);
      }
    }
  }

  lemma CrossEqual(x: Q, y: Q)
    requires Canonical(x) && Canonical(y) && x.den > 0 && y.den > 0
    ensures x.num * y.den == y.num * x.den <==> x == y
  {
    if x.num * y.den == y.num * x.den {
      CanonicalUnique(x, y);
    }
  }

  /** compare gives the order of the values, and zero for identical fractions alone. */
  lemma CompareIsOrder(x: Q, y: Q)
    requires Canonical(x) && Canonical(y)
    ensures Compare(x, y) in {-1, 0, 1}
    ensures Compare(x, y) == 0 <==> x == y
    ensures Compare(x, y) == -1 <==> ExtBelow(Denote(x), Denote(y))
  {
    hide RealOf, Gcd;
    if x.den > 0 && y.den > 0 {
      CrossOrder(x, y);
      CrossEqual(x, y);
    }
  }

  /** Undefined is the smallest of all, then minus infinity, and infinity is the largest. */
  lemma CompareSpecial(x: Q)
    requires Canonical(x) && x != UndefQ
    ensures Compare(UndefQ, x) == -1 && Compare(x, UndefQ) == 1 && Compare(UndefQ, UndefQ) == 0
    ensures Compare(MinusInfQ, x) == (if x == MinusInfQ then 0 else -1)
    ensures Compare(x, Inf) == (if x == Inf then 0 else -1)
  {
  }

  /** Finite values compare as their difference is below, at or above zero. */
  lemma CompareFinite(x: Q, y: Q)
    requires Canonical(x) && Canonical(y) && x.den > 0 && y.den > 0
    ensures Compare(x, y) == Sign(x.num * y.den - y.num * x.den)
    ensures Compare(x, y) < 0 <==> RealOf(x.num, x.den) < RealOf(y.num, y.den)
  {
    hide RealOf, Gcd;
    CrossOrder(x, y);
    CrossEqual(x, y);
    CrossCompare(x.num, x.den, y.num, y.den);
  }

  /** Sums with a special value: undefined wins, opposite infinities cancel to undefined. */
  lemma SpecialSums(x: Q)
    requires Canonical(x)
    ensures Add(UndefQ, x) == UndefQ && Add(x, UndefQ) == UndefQ
    ensures Add(Inf, x) == (if x == UndefQ || x == MinusInfQ then UndefQ else Inf)
    ensures Add(MinusInfQ, x) == (if x == UndefQ || x == Inf then UndefQ else MinusInfQ)
    ensures Add(ZeroQ, x) == x && Neg(Inf) == MinusInfQ && Neg(MinusInfQ) == Inf && Neg(UndefQ) == UndefQ
  {
    hide RealOf, Gcd;
    if x.den > 0 {
      ZeroIsCanonical();
      RealIs(0.0, 0, 1);
      DenoteInjective(Add(ZeroQ, x), x);
    }
  }

  lemma ZeroIsCanonical()
    ensures Canonical(ZeroQ)
  {
  }

  /** Products with a special value: the sign rule, and zero times an infinity is undefined. */
  lemma SpecialProducts(x: Q)
    requires Canonical(x)
    ensures Mul(UndefQ, x) == UndefQ && Mul(x, UndefQ) == UndefQ
    ensures Mul(Inf, x) == (if x.num > 0 then Inf else if x.num < 0 then MinusInfQ else UndefQ)
    ensures Mul(MinusInfQ, x) == (if x.num > 0 then MinusInfQ else if x.num < 0 then Inf else UndefQ)
    ensures Inv(ZeroQ) == Inf && Inv(Inf) == ZeroQ && Inv(MinusInfQ) == ZeroQ && Inv(UndefQ) == UndefQ
  {
    hide RealOf;
  }

  lemma BelowTotal(x: Ext, y: Ext, z: Ext)
    ensures !(ExtBelow(x, y) && ExtBelow(y, x))
    ensures x == y || ExtBelow(x, y) || ExtBelow(y, x)
    ensures ExtBelow(x, y) && ExtBelow(y, z) ==> ExtBelow(x, z)
    ensures !ExtBelow(x, x)
  {
  }

  /** compare is a total order. */
  lemma CompareTotalOrder(x: Q, y: Q, z: Q)
    requires Canonical(x) && Canonical(y) && Canonical(z)
    ensures Compare(x, y) == -Compare(y, x)
    ensures Compare(x, y) <= 0 && Compare(y, z) <= 0 ==> Compare(x, z) <= 0
    ensures Compare(x, y) < 0 && Compare(y, z) <= 0 ==> Compare(x, z) < 0
  {
    hide Compare, ExtBelow, Denote;
    CompareIsOrder(x, y);
    CompareIsOrder(y, x);
    CompareIsOrder(y, z);
    CompareIsOrder(x, z);
    DenoteInjective(x, y);
    DenoteInjective(y, z);
    DenoteInjective(x, z);
    BelowTotal(Denote(x), Denote(y), Denote(z));
    BelowTotal(Denote(x), Denote(z), Denote(y));
  }

  /** leq, lt and equal agree with compare, and are false on undefined values. */
  lemma OrdersAgree(x: Q, y: Q)
    requires Canonical(x) && Canonical(y)
    ensures Leq(x, y) <==> x != UndefQ && y != UndefQ && Compare(x, y) <= 0
    ensures Lt(x, y) <==> x != UndefQ && y != UndefQ && Compare(x, y) < 0
    ensures Equal(x, y) <==> x != UndefQ && y != UndefQ && Compare(x, y) == 0
  {
    hide RealOf, Gcd;
    CompareIsOrder(x, y);
  }

  lemma AddCommutes(x: Q, y: Q)
    requires Canonical(x) && Canonical(y)
    ensures Add(x, y) == Add(y, x)
  {
    hide Add, Denote, Canonical;
    DenoteInjective(Add(x, y), Add(y, x));
  }

  lemma ExtAddAssoc(x: Ext, y: Ext, z: Ext)
    ensures ExtAdd(ExtAdd(x, y), z) == ExtAdd(x, ExtAdd(y, z))
  {
  }

  lemma AddAssociates(x: Q, y: Q, z: Q)
    requires Canonical(x) && Canonical(y) && Canonical(z)
    ensures Add(Add(x, y), z) == Add(x, Add(y, z))
  {
    hide Add, Denote, Canonical, ExtAdd;
    ExtAddAssoc(Denote(x), Denote(y), Denote(z));
    DenoteInjective(Add(Add(x, y), z), Add(x, Add(y, z)));
  }

  lemma MulCommutes(x: Q, y: Q)
    requires Canonical(x) && Canonical(y)
    ensures Mul(x, y) == Mul(y, x)
  {
    hide Mul, Denote, Canonical, ExtMul;
    ExtMulComm(Denote(x), Denote(y));
    DenoteInjective(Mul(x, y), Mul(y, x));
  }

  lemma ExtMulComm(x: Ext, y: Ext)
    ensures ExtMul(x, y) == ExtMul(y, x)
  {
  }

  // The sign of a product of finite values.
  lemma SignOfProduct(r: real, s: real)
    ensures ExtSign(Fin(r * s)) == ExtSign(Fin(r)) * ExtSign(Fin(s))
  {
    if r > 0.0 {
      if s > 0.0 {
        assert r * s > 0.0;
      } else if s < 0.0 {
        assert r * -s > 0.0;
      }
    } else if r < 0.0 {
      if s > 0.0 {
        assert -r * s > 0.0;
      } else if s < 0.0 {
        assert -r * -s > 0.0;
      }
    }
  }

  lemma SignOfExtMul(x: Ext, y: Ext)
    ensures ExtSign(ExtMul(x, y)) == ExtSign(x) * ExtSign(y)
  {
    if x.Fin? && y.Fin? {
      SignOfProduct(x.r, y.r);
    }
  }

  lemma ExtMulAssoc(x: Ext, y: Ext, z: Ext)
    ensures ExtMul(ExtMul(x, y), z) == ExtMul(x, ExtMul(y, z))
  {
    SignOfExtMul(x, y);
    SignOfExtMul(y, z);
    if x.Fin? && y.Fin? && z.Fin? {
      assert (x.r * y.r) * z.r == x.r * (y.r * z.r);
    } else {
      hide ExtSign;
      MulAssoc(ExtSign(x), ExtSign(y), ExtSign(z));
    }
  }

  lemma MulAssociates(x: Q, y: Q, z: Q)
    requires Canonical(x) && Canonical(y) && Canonical(z)
    ensures Mul(Mul(x, y), z) == Mul(x, Mul(y, z))
  {
    hide Mul, Denote, Canonical, ExtMul;
    ExtMulAssoc(Denote(x), Denote(y), Denote(z));
    DenoteInjective(Mul(Mul(x, y), z), Mul(x, Mul(y, z)));
  }

  /** Subtraction is addition of the opposite, special values included. */
  lemma SubIsAddNeg(x: Q, y: Q)
    requires Canonical(x) && Canonical(y)
    ensures Sub(x, y) == Add(x, Neg(y))
  {
    hide Add, Sub, Neg, Denote, Canonical, ExtAdd;
    DenoteInjective(Sub(x, y), Add(x, Neg(y)));
  }

  /** Division is multiplication by the inverse, special values included. */
  lemma DivIsMulInv(x: Q, y: Q)
    requires Canonical(x) && Canonical(y)
    ensures Div(x, y) == Mul(x, Inv(y))
  {
    hide Div, Mul, Inv, Denote, Canonical, ExtMul;
    DenoteInjective(Div(x, y), Mul(x, Inv(y)));
  }

  /** Inverting twice gives back every value but minus infinity. */
  lemma InverseTwice(x: Q)
    requires Canonical(x)
    ensures Inv(Inv(x)) == x <==> x != MinusInfQ
  {
    hide RealOf, Gcd;
    GcdOfZero(x);
  }

  // The only canonical zero is 0/1.
  lemma GcdOfZero(x: Q)
    requires Canonical(x)
    ensures x.num == 0 && x.den != 0 ==> x == ZeroQ
  {
    if x.num == 0 && x.den != 0 {
      GcdComm(0, x.den);
    }
  }

  // An infinity distributes over what does not mix signs, or cancels.
  predicate ExtDistributive(x: Ext, y: Ext, z: Ext) {
    x.Fin? || x.Undefined? || y.Undefined? || z.Undefined? || ExtSign(y) == ExtSign(z) || y == ExtNeg(z)
  }

  lemma ExtMulDistributes(x: Ext, y: Ext, z: Ext)
    ensures ExtMul(x, ExtAdd(y, z)) == ExtAdd(ExtMul(x, y), ExtMul(x, z)) <==> ExtDistributive(x, y, z)
  {
    if x.Fin? {
      FiniteDistributes(x.r, y, z);
    } else if x.PlusInf? || x.MinusInf? {
      InfinityDistributes(x, y, z);
    }
  }

  lemma FiniteDistributes(r: real, y: Ext, z: Ext)
    ensures ExtMul(Fin(r), ExtAdd(y, z)) == ExtAdd(ExtMul(Fin(r), y), ExtMul(Fin(r), z))
  {
    if y.Fin? && z.Fin? {
      DistributeReal(r, y.r, z.r);
    } else if r > 0.0 {
    } else if r < 0.0 {
    }
  }

  lemma InfinityDistributes(x: Ext, y: Ext, z: Ext)
    requires x.PlusInf? || x.MinusInf?
    ensures ExtMul(x, ExtAdd(y, z)) == ExtAdd(ExtMul(x, y), ExtMul(x, z)) <==> ExtDistributive(x, y, z)
  {
    hide ExtMul, ExtAdd, ExtSign, ExtNeg;
    InfinityTimes(x, y);
    InfinityTimes(x, z);
    InfinityTimes(x, ExtAdd(y, z));
    SignOfSum(y, z);
    InfinitySum(ExtSign(y), ExtSign(z));
    InfinitySum(-ExtSign(y), -ExtSign(z));
  }

  lemma InfinityTimes(x: Ext, y: Ext)
    requires x.PlusInf? || x.MinusInf?
    ensures ExtMul(x, y) == Infinity(if x.PlusInf? then ExtSign(y) else -ExtSign(y))
  {
  }

  lemma InfinitySum(a: int, b: int)
    ensures ExtAdd(Infinity(a), Infinity(b)) ==
            if (a > 0 && b > 0) || (a < 0 && b < 0) then Infinity(a) else Undefined
  {
  }

  lemma SignOfSum(y: Ext, z: Ext)
    ensures ExtSign(y) in {-1, 0, 1} && ExtSign(z) in {-1, 0, 1}
    ensures ExtSign(y) == ExtSign(z) ==> ExtSign(ExtAdd(y, z)) == ExtSign(y)
    ensures y.Undefined? || z.Undefined? ==> ExtSign(ExtAdd(y, z)) == 0 && (ExtSign(y) == 0 || ExtSign(z) == 0)
    ensures !y.Undefined? && !z.Undefined? && ExtSign(y) != ExtSign(z) ==>
              (ExtSign(ExtAdd(y, z)) == 0 <==> y == ExtNeg(z))
    ensures y == ExtNeg(z) ==> ExtSign(y) == -ExtSign(z)
  {
  }

  /**
   The distributive law over all values: it fails exactly when an infinity multiplies a
   sum whose terms differ in sign and do not cancel, none of them undefined.
   */
  lemma MulDistributes(x: Q, y: Q, z: Q)
    requires Canonical(x) && Canonical(y) && Canonical(z)
    ensures Mul(x, Add(y, z)) == Add(Mul(x, y), Mul(x, z)) <==>
            x.den > 0 || x == UndefQ || y == UndefQ || z == UndefQ || Sign(y.num) == Sign(z.num) || y == Neg(z)
  {
    hide Add, Mul, Neg, RealOf, Gcd, ExtMul, ExtAdd, ExtNeg, ExtSign;
    DenoteInjective(Mul(x, Add(y, z)), Add(Mul(x, y), Mul(x, z)));
    DenoteInjective(y, Neg(z));
    SignOfDenoted(y);
    SignOfDenoted(z);
    ExtMulDistributes(Denote(x), Denote(y), Denote(z));
  }

  /** An infinity times 2 - 1 is the infinity, but twice the infinity less the infinity is undefined. */
  lemma InfinityDoesNotDistribute()
    ensures Canonical(Q(2, 1)) && Canonical(Q(-1, 1))
    ensures Mul(Inf, Add(Q(2, 1), Q(-1, 1))) == Inf && Add(Mul(Inf, Q(2, 1)), Mul(Inf, Q(-1, 1))) == UndefQ
  {
  }

  lemma DistributeReal(r: real, s: real, t: real)
    ensures r * (s + t) == r * s + r * t
  {
  }

  /** x * 2^n; a negative count is an error, except on special values. */
  function Mul2exp(x: Q, n: int): (res: Result<Q>)
    requires Canonical(x)
    ensures res.InvalidArgument? <==> x.den > 0 && n < 0
    ensures x.den == 0 ==> res == Ok(x)
    ensures x.den > 0 && n >= 0 ==> Canonical(res.value) && Pow(2, n) > 0 &&
                                    Denote(res.value) == ExtMul(Denote(x), Fin(Pow(2, n) as real))
  {
    if x.den == 0 then Ok(x)
    else if n < 0 then InvalidArgument
    else
      DoubledDenotes(x, n);
      Ok(MakeReal(x.num * Pow(2, n), x.den))
  }

  lemma DoubledDenotes(x: Q, n: nat)
    requires Canonical(x) && x.den > 0
    ensures Pow(2, n) > 0
    ensures Denote(MakeReal(x.num * Pow(2, n), x.den)) == ExtMul(Denote(x), Fin(Pow(2, n) as real))
  {
    hide RealOf, Gcd, Pow;
    PowPositive(n);
    ShiftedUp(x.num, x.den, Pow(2, n));
  }

  /** x / 2^n. */
  function Div2exp(x: Q, n: int): (res: Result<Q>)
    requires Canonical(x)
    ensures res.InvalidArgument? <==> x.den > 0 && n < 0
    ensures x.den == 0 ==> res == Ok(x)
    ensures x.den > 0 && n >= 0 ==> Canonical(res.value) && Pow(2, n) > 0 &&
                                    ExtMul(Denote(res.value), Fin(Pow(2, n) as real)) == Denote(x)
  {
    if x.den == 0 then Ok(x)
    else if n < 0 then InvalidArgument
    else
      HalvedDenotes(x, n);
      Ok(MakeReal(x.num, x.den * Pow(2, n)))
  }

  lemma HalvedDenotes(x: Q, n: nat)
    requires Canonical(x) && x.den > 0
    ensures Pow(2, n) > 0 && x.den * Pow(2, n) > 0
    ensures ExtMul(Denote(MakeReal(x.num, x.den * Pow(2, n))), Fin(Pow(2, n) as real)) == Denote(x)
  {
    hide RealOf, Gcd, Pow;
    PowPositive(n);
    ShiftedDown(x.num, x.den, Pow(2, n));
  }

  lemma ShiftedUp(n: int, d: int, p: int)
    requires d > 0 && p > 0
    ensures RealOf(n * p, d) == RealOf(n, d) * p as real
  {
    ProductReal(n, d, p, 1);
    assert d * 1 == d;
    RealIs(p as real, p, 1);
  }

  lemma ShiftedDown(n: int, d: int, p: int)
    requires d > 0 && p > 0
    ensures d * p > 0 && RealOf(n, d * p) * p as real == RealOf(n, d)
  {
    hide RealOf;
    MulPositive(d, p);
    RealTimes(n, d * p);
    CastMul(d, p);
    Swap3(RealOf(n, d * p), p as real, d as real);
    RealIs(RealOf(n, d * p) * p as real, n, d);
  }
}
