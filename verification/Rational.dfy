/**
 Zarith rationals: reduced fractions extended with 1/0, -1/0 and 0/0. The reference
 is Ext, the reals with two infinities and an undefined value; every operation
 denotes the operation on Ext and returns the one canonical fraction of its result.
 */
module Rational {
  import opened Arith
  import opened Divisors

  datatype Q = Q(num: int, den: int)

  datatype Kind = ZERO | INF | MINF | UNDEF | NZERO

  datatype Ext = Fin(r: real) | PlusInf | MinusInf | Undefined

  function Sign(x: int): int { if x > 0 then 1 else if x < 0 then -1 else 0 }

  /** Reduced, with a positive denominator, or one of the three special fractions. */
  predicate Canonical(x: Q) {
    if x.den == 0 then x.num in {-1, 0, 1} else x.den > 0 && Gcd(AbsInt(x.num), x.den) == 1
  }

  function RealOf(n: int, d: int): real
    requires d > 0
  {
    n as real / d as real
  }

  /** The number a fraction denotes. */
  function Denote(x: Q): Ext
    requires Canonical(x)
  {
    if x.den > 0 then Fin(RealOf(x.num, x.den))
    else if x.num > 0 then PlusInf else if x.num < 0 then MinusInf else Undefined
  }

  // Fractions as products.
  lemma RealTimes(n: int, d: int)
    requires d > 0
    ensures RealOf(n, d) * d as real == n as real
  {
  }

  lemma RealIs(t: real, n: int, d: int)
    requires d > 0 && t * d as real == n as real
    ensures RealOf(n, d) == t
  {
    RealTimes(n, d);
    CancelReal(RealOf(n, d), t, d as real);
  }

  lemma CancelReal(x: real, y: real, c: real)
    requires c != 0.0 && x * c == y * c
    ensures x == y
  {
    assert (x - y) * c == 0.0;
  }

  lemma CastMul(a: int, b: int)
    ensures (a * b) as real == a as real * b as real
  {
  }

  /** Cross multiplication compares fractions. */
  lemma CrossCompare(n: int, d: int, m: int, e: int)
    requires d > 0 && e > 0
    ensures RealOf(n, d) == RealOf(m, e) <==> n * e == m * d
    ensures RealOf(n, d) < RealOf(m, e) <==> n * e < m * d
  {
    var t, s := RealOf(n, d), RealOf(m, e);
    RealTimes(n, d);
    RealTimes(m, e);
    MulPositive(d, e);
    CastMul(d, e);
    CastMul(n, e);
    CastMul(m, d);
    hide RealOf;
    CrossReal(t, s, d as real, e as real, n as real, m as real);
  }

  lemma CrossReal(t: real, s: real, d: real, e: real, n: real, m: real)
    requires d > 0.0 && e > 0.0 && t * d == n && s * e == m
    ensures t == s <==> n * e == m * d
    ensures t < s <==> n * e < m * d
  {
    var c := d * e;
    assert c > 0.0;
    assert n * e == t * c && m * d == s * c by {
      Swap3(t, d, e);
      Swap3(s, e, d);
    }
    if t < s {
      LessReal(t, s, c);
    } else if s < t {
      LessReal(s, t, c);
    }
  }

  lemma Swap3(t: real, d: real, e: real)
    ensures (t * d) * e == t * (d * e) && t * (d * e) == t * (e * d)
  {
  }

  lemma LessReal(x: real, y: real, c: real)
    requires x < y && c > 0.0
    ensures x * c < y * c
  {
  }

  /** Two canonical finite fractions with the same value are the same fraction. */
  lemma CanonicalUnique(x: Q, y: Q)
    requires Canonical(x) && Canonical(y) && x.den > 0 && y.den > 0
    requires x.num * y.den == y.num * x.den
    ensures x == y
  {
    DenominatorDivides(x, y);
    DenominatorDivides(y, x);
    DivisorIsSmaller(x.den, y.den);
    DivisorIsSmaller(y.den, x.den);
    MulCancelEq(x.num, y.num, x.den);
  }

  lemma DenominatorDivides(x: Q, y: Q)
    requires Canonical(x) && Canonical(y) && x.den > 0 && y.den > 0
    requires x.num * y.den == y.num * x.den
    ensures Divides(x.den, y.den)
  {
    var n := AbsInt(x.num);
    GcdComm(n, x.den);
    DividesMul(x.den, n * y.den, if x.num < 0 then -y.num else y.num) by {
      if x.num < 0 {
        NegProduct(x.num, y.den);
        NegProduct(y.num, x.den);
      }
    }
    Euclid(x.den, n, y.den);
  }

  lemma NegProduct(a: int, b: int)
    ensures (-a) * b == -(a * b)
  {
  }

  /** Field equality decides value: one canonical fraction for each number. */
  lemma DenoteInjective(x: Q, y: Q)
    requires Canonical(x) && Canonical(y)
    ensures Denote(x) == Denote(y) <==> x == y
  {
    if Denote(x) == Denote(y) && x.den > 0 {
      CrossCompare(x.num, x.den, y.num, y.den);
      CanonicalUnique(x, y);
    }
  }

  /** make_real: n / d in lowest terms. */
  function MakeReal(n: int, d: int): (x: Q)
    requires d > 0
    ensures Canonical(x) && x.den > 0 && Denote(x) == Fin(RealOf(n, d))
  {
    if n == 0 || d == 1 then
      WholeIsReduced(n, d);
      Q(n, 1)
    else
      var g := Gcd(AbsInt(n), d);
      GcdDivides(AbsInt(n), d);
      if g == 1 then Q(n, d) else ReducedFraction(n, d); Q(n / g, d / g)
  }

  lemma WholeIsReduced(n: int, d: int)
    requires d > 0 && (n == 0 || d == 1)
    ensures Canonical(Q(n, 1)) && RealOf(n, 1) == RealOf(n, d)
  {
    GcdDivides(AbsInt(n), 1);
    GcdComm(AbsInt(n), 1);
    CrossCompare(n, 1, n, d);
  }

  lemma ReducedFraction(n: int, d: int)
    requires d > 0 && n != 0
    ensures Gcd(AbsInt(n), d) > 0 && d / Gcd(AbsInt(n), d) > 0
    ensures Canonical(Q(n / Gcd(AbsInt(n), d), d / Gcd(AbsInt(n), d)))
    ensures RealOf(n / Gcd(AbsInt(n), d), d / Gcd(AbsInt(n), d)) == RealOf(n, d)
  {
    hide Canonical, RealOf;
    var a := AbsInt(n);
    var g := Gcd(a, d);
    GcdQuotients(a, d);
    GcdDivides(a, d);
    DivMod(d, g);
    DivMod(a, g);
    ExactQuotient(n, a, g);
    PositiveQuotient(d, g);
    CanonicalFraction(n / g, d / g);
    SameCross(n / g, d / g, g);
    CrossCompare(n / g, d / g, n, d);
  }

  lemma CanonicalFraction(n: int, d: int)
    requires d > 0 && Gcd(AbsInt(n), d) == 1
    ensures Canonical(Q(n, d))
  {
  }

  // divexact, on a number of either sign.
  lemma ExactQuotient(n: int, a: nat, g: int)
    requires g > 0 && a == AbsInt(n) && Divides(g, a)
    ensures n == (n / g) * g && AbsInt(n / g) == a / g
  {
    DivMod(a, g);
    NegProduct(a / g, g);
    DivUnique(n, g, if n < 0 then -(a / g) else a / g, 0);
    if a / g < 0 {
      MulMono(a / g, -1, g);
    }
  }

  lemma PositiveQuotient(d: int, g: int)
    requires d > 0 && g > 0 && d == (d / g) * g
    ensures d / g > 0
  {
    if d / g <= 0 {
      MulMono(d / g, 0, g);
    }
  }

  lemma SameCross(n: int, d: int, g: int)
    ensures n * (d * g) == (n * g) * d
  {
  }

  /** make: any numerator over any denominator. */
  function Make(n: int, d: int): (x: Q)
    ensures Canonical(x)
    ensures d > 0 ==> Denote(x) == Fin(RealOf(n, d))
    ensures d < 0 ==> Denote(x) == Fin(RealOf(-n, -d))
    ensures d == 0 ==> Denote(x) == if n > 0 then PlusInf else if n < 0 then MinusInf else Undefined
  {
    var sd := Sign(d);
    if sd == 0 then Q(Sign(n), 0)
    else if sd > 0 then MakeReal(n, d)
    else MakeReal(-n, -d)
  }

  const ZeroQ := Q(0, 1)
  const Inf := Q(1, 0)
  const MinusInfQ := Q(-1, 0)
  const UndefQ := Q(0, 0)

  function Classify(x: Q): Kind {
    if x.den == 0 then
      if Sign(x.num) == 1 then INF else if Sign(x.num) == -1 then MINF else UNDEF
    else if x.num == 0 then ZERO else NZERO
  }

  function Neg(x: Q): (y: Q)
    requires Canonical(x)
    ensures Canonical(y) && Denote(y) == ExtNeg(Denote(x))
  {
    if x.den > 0 then NegReal(x.num, x.den); Q(-x.num, x.den) else Q(-x.num, x.den)
  }

  lemma NegReal(n: int, d: int)
    requires d > 0
    ensures RealOf(-n, d) == -RealOf(n, d)
  {
    RealTimes(n, d);
    RealIs(-RealOf(n, d), -n, d);
  }

  function ExtNeg(x: Ext): Ext {
    match x
    case Fin(r) => Fin(-r)
    case PlusInf => MinusInf
    case MinusInf => PlusInf
    case Undefined => Undefined
  }

  function ExtAdd(x: Ext, y: Ext): Ext {
    match (x, y)
    case (Fin(r), Fin(s)) => Fin(r + s)
    case (Undefined, _) => Undefined
    case (_, Undefined) => Undefined
    case (PlusInf, MinusInf) => Undefined
    case (MinusInf, PlusInf) => Undefined
    case (PlusInf, _) => PlusInf
    case (_, PlusInf) => PlusInf
    case (MinusInf, _) => MinusInf
    case (_, MinusInf) => MinusInf
  }

  function ExtSign(x: Ext): int {
    match x
    case Fin(r) => if r > 0.0 then 1 else if r < 0.0 then -1 else 0
    case PlusInf => 1
    case MinusInf => -1
    case Undefined => 0
  }

  // An infinity of the given sign; zero times an infinity is undefined.
  function Infinity(sign: int): Ext {
    if sign > 0 then PlusInf else if sign < 0 then MinusInf else Undefined
  }

  function ExtMul(x: Ext, y: Ext): Ext {
    if x.Fin? && y.Fin? then Fin(x.r * y.r) else Infinity(ExtSign(x) * ExtSign(y))
  }

  function ExtInv(x: Ext): Ext {
    match x
    case Fin(r) => if r == 0.0 then PlusInf else Fin(1.0 / r)
    case PlusInf => Fin(0.0)
    case MinusInf => Fin(0.0)
    case Undefined => Undefined
  }

  /** Sum, or difference, of finite fractions. */
  function Aors(subtract: bool, x: Q, y: Q): (z: Q)
    requires Canonical(x) && Canonical(y) && x.den > 0 && y.den > 0
    ensures Canonical(z)
    ensures Denote(z) == ExtAdd(Denote(x), if subtract then ExtNeg(Denote(y)) else Denote(y))
  {
    if x.den == y.den then
      SumSame(x.num, PlusMinus(subtract, 0, y.num), x.den);
      SignedReal(subtract, y.num, y.den);
      MakeReal(PlusMinus(subtract, x.num, y.num), x.den)
    else
      SumCross(x.num, x.den, PlusMinus(subtract, 0, y.num), y.den);
      SignedReal(subtract, y.num, y.den);
      SignedCross(subtract, y.num, x.den);
      MulPositive(x.den, y.den);
      MakeReal(PlusMinus(subtract, x.num * y.den, y.num * x.den), x.den * y.den)
  }

  function PlusMinus(subtract: bool, a: int, b: int): int { if subtract then a - b else a + b }

  lemma SignedReal(subtract: bool, n: int, d: int)
    requires d > 0
    ensures RealOf(PlusMinus(subtract, 0, n), d) == if subtract then -RealOf(n, d) else RealOf(n, d)
  {
    if subtract {
      assert 0 - n == -n;
      NegReal(n, d);
    }
  }

  lemma SignedCross(subtract: bool, n: int, d: int)
    ensures PlusMinus(subtract, 0, n) * d == PlusMinus(subtract, 0, n * d)
  {
    NegProduct(n, d);
  }

  lemma SumSame(n: int, m: int, d: int)
    requires d > 0
    ensures RealOf(n + m, d) == RealOf(n, d) + RealOf(m, d)
  {
    RealTimes(n, d);
    RealTimes(m, d);
    RealIs(RealOf(n, d) + RealOf(m, d), n + m, d);
  }

  lemma SumCross(n: int, d: int, m: int, e: int)
    requires d > 0 && e > 0
    ensures d * e > 0 && RealOf(n * e + m * d, d * e) == RealOf(n, d) + RealOf(m, e)
  {
    hide RealOf;
    MulPositive(d, e);
    RealTimes(n, d);
    RealTimes(m, e);
    CastMul(d, e);
    CastMul(n, e);
    CastMul(m, d);
    SumOfProducts(RealOf(n, d), RealOf(m, e), d as real, e as real);
    RealIs(RealOf(n, d) + RealOf(m, e), n * e + m * d, d * e);
  }

  lemma SumOfProducts(t: real, s: real, d: real, e: real)
    ensures (t + s) * (d * e) == (t * d) * e + (s * e) * d
  {
  }

  /**
   Whether the code notices that the denominators are equal, which it tests by
   address, does not matter: both ways give the same fraction.
   */
  lemma AorsEitherWay(subtract: bool, x: Q, y: Q)
    requires Canonical(x) && Canonical(y) && x.den > 0 && x.den == y.den
    ensures x.den * y.den > 0
    ensures MakeReal(PlusMinus(subtract, x.num * y.den, y.num * x.den), x.den * y.den) == Aors(subtract, x, y)
  {
    hide RealOf;
    MulPositive(x.den, y.den);
    SumCross(x.num, x.den, PlusMinus(subtract, 0, y.num), y.den);
    SignedReal(subtract, y.num, y.den);
    SignedCross(subtract, y.num, x.den);
    DenoteInjective(MakeReal(PlusMinus(subtract, x.num * y.den, y.num * x.den), x.den * y.den), Aors(subtract, x, y));
  }

  function Add(x: Q, y: Q): (z: Q)
    requires Canonical(x) && Canonical(y)
    ensures Canonical(z) && Denote(z) == ExtAdd(Denote(x), Denote(y))
  {
    if x.den == 0 || y.den == 0 then
      match (Classify(x), Classify(y))
      case (ZERO, _) => y
      case (_, ZERO) => x
      case (UNDEF, _) => UndefQ
      case (_, UNDEF) => UndefQ
      case (INF, MINF) => UndefQ
      case (MINF, INF) => UndefQ
      case (INF, _) => Inf
      case (_, INF) => Inf
      case (MINF, _) => MinusInfQ
      case (_, MINF) => MinusInfQ
    else
      Aors(false, x, y)
  }

  function Sub(x: Q, y: Q): (z: Q)
    requires Canonical(x) && Canonical(y)
    ensures Canonical(z) && Denote(z) == ExtAdd(Denote(x), ExtNeg(Denote(y)))
  {
    if x.den == 0 || y.den == 0 then
      match (Classify(x), Classify(y))
      case (ZERO, _) => Neg(y)
      case (_, ZERO) => x
      case (UNDEF, _) => UndefQ
      case (_, UNDEF) => UndefQ
      case (INF, INF) => UndefQ
      case (MINF, MINF) => UndefQ
      case (INF, _) => Inf
      case (_, MINF) => Inf
      case (MINF, _) => MinusInfQ
      case (_, INF) => MinusInfQ
    else
      Aors(true, x, y)
  }

  function Mul(x: Q, y: Q): (z: Q)
    requires Canonical(x) && Canonical(y)
    ensures Canonical(z) && Denote(z) == ExtMul(Denote(x), Denote(y))
  {
    if x.den == 0 || y.den == 0 then
      SpecialProduct(x, y);
      Q(Sign(x.num) * Sign(y.num), 0)
    else
      ProductDenotes(x, y);
      FiniteProduct(x.num, x.den, y.num, y.den)
  }

  lemma ProductDenotes(x: Q, y: Q)
    requires Canonical(x) && Canonical(y) && x.den > 0 && y.den > 0
    ensures Denote(FiniteProduct(x.num, x.den, y.num, y.den)) == ExtMul(Denote(x), Denote(y))
  {
    hide RealOf, Gcd;
  }

  function FiniteProduct(n: int, d: int, m: int, e: int): (z: Q)
    requires d > 0 && e > 0
    ensures Canonical(z) && z.den > 0 && Denote(z) == Fin(RealOf(n, d) * RealOf(m, e))
  {
    ProductReal(n, d, m, e);
    MakeReal(n * m, d * e)
  }

  lemma SpecialProduct(x: Q, y: Q)
    requires Canonical(x) && Canonical(y) && (x.den == 0 || y.den == 0)
    ensures Canonical(Q(Sign(x.num) * Sign(y.num), 0))
    ensures Denote(Q(Sign(x.num) * Sign(y.num), 0)) == ExtMul(Denote(x), Denote(y))
  {
    hide RealOf, Gcd;
    SignOfDenoted(x);
    SignOfDenoted(y);
  }

  lemma SignOfDenoted(x: Q)
    requires Canonical(x)
    ensures ExtSign(Denote(x)) == Sign(x.num)
  {
    if x.den > 0 {
      CrossCompare(x.num, x.den, 0, 1);
      CrossCompare(0, 1, x.num, x.den);
      RealIs(0.0, 0, 1);
    }
  }

  lemma ProductReal(n: int, d: int, m: int, e: int)
    requires d > 0 && e > 0
    ensures d * e > 0 && RealOf(n * m, d * e) == RealOf(n, d) * RealOf(m, e)
  {
    hide RealOf;
    MulPositive(d, e);
    RealTimes(n, d);
    RealTimes(m, e);
    CastMul(d, e);
    CastMul(n, m);
    ProductOfProducts(RealOf(n, d), RealOf(m, e), d as real, e as real);
    RealIs(RealOf(n, d) * RealOf(m, e), n * m, d * e);
  }

  lemma ProductOfProducts(t: real, s: real, d: real, e: real)
    ensures (t * s) * (d * e) == (t * d) * (s * e)
  {
  }

  function Inv(x: Q): (y: Q)
    requires Canonical(x)
    ensures Canonical(y) && Denote(y) == ExtInv(Denote(x))
  {
    SignOfDenoted(x);
    if Sign(x.num) == 1 then
      GcdComm(AbsInt(x.num), AbsInt(x.den));
      FlippedCanonical(x);
      Q(x.den, x.num)
    else if Sign(x.num) == -1 then
      FlippedCanonical(x);
      Q(-x.den, -x.num)
    else if x.den == 0 then UndefQ else Inf
  }

  // The fraction upside down.
  lemma FlippedCanonical(x: Q)
    requires Canonical(x) && x.num != 0
    ensures var y := if x.num > 0 then Q(x.den, x.num) else Q(-x.den, -x.num);
            Canonical(y) && Denote(y) == ExtInv(Denote(x))
  {
    var y := if x.num > 0 then Q(x.den, x.num) else Q(-x.den, -x.num);
    GcdComm(AbsInt(x.num), AbsInt(x.den));
    if x.den == 0 {
      GcdDivides(1, 0);
      RealIs(0.0, y.num, y.den);
    } else {
      InverseReal(x.num, x.den);
    }
  }

  lemma InverseReal(n: int, d: int)
    requires d > 0 && n != 0
    ensures RealOf(n, d) != 0.0
    ensures n > 0 ==> RealOf(d, n) == 1.0 / RealOf(n, d)
    ensures n < 0 ==> RealOf(-d, -n) == 1.0 / RealOf(n, d)
  {
    hide RealOf;
    RealTimes(n, d);
    var t := RealOf(n, d);
    var s := 1.0 / t;
    assert s * t == 1.0;
    InverseTimes(s, t, d as real, n as real);
    if n > 0 {
      RealIs(s, d, n);
    } else {
      RealIs(s, -d, -n);
    }
  }

  lemma InverseTimes(s: real, t: real, d: real, n: real)
    requires s * t == 1.0 && t * d == n
    ensures s * n == d && s * -n == -d
  {
    assert s * (t * d) == (s * t) * d;
  }

  function Div(x: Q, y: Q): (z: Q)
    requires Canonical(x) && Canonical(y)
    ensures Canonical(z) && Denote(z) == ExtMul(Denote(x), ExtInv(Denote(y)))
  {
    FlippedOperand(y);
    if Sign(y.num) >= 0 then Mul(x, Q(y.den, y.num)) else Mul(x, Q(-y.den, -y.num))
  }

  // Division flips its second operand without going through inv.
  lemma FlippedOperand(y: Q)
    requires Canonical(y)
    ensures Inv(y) == if Sign(y.num) >= 0 then Q(y.den, y.num) else Q(-y.den, -y.num)
  {
    if y.num == 0 && y.den != 0 {
      assert Gcd(0, y.den) == 1;
      GcdComm(0, y.den);
    }
  }
}
