/** Greatest common divisors, and what coprime numbers divide. */
module Divisors {
  import opened Arith

  function Gcd(a: nat, b: nat): nat
    decreases b
  {
    if b == 0 then a else Gcd(b, a % b)
  }

  predicate Divides(d: int, n: int)
    requires d > 0
  {
    n % d == 0
  }

  lemma DividesMul(d: int, n: int, k: int)
    requires d > 0 && n == k * d
    ensures Divides(d, n) && n / d == k
  {
    DivUnique(n, d, k, 0);
  }

  // A common divisor divides every combination.
  lemma DividesCombination(d: int, m: int, n: int, u: int, v: int)
    requires d > 0 && Divides(d, m) && Divides(d, n)
    ensures Divides(d, u * m + v * n)
  {
    var x, y := m / d, n / d;
    DivMod(m, d);
    DivMod(n, d);
    Combination(u, x, v, y, d);
    DividesMul(d, u * m + v * n, u * x + v * y);
  }

  lemma Combination(u: int, x: int, v: int, y: int, d: int)
    ensures u * (x * d) + v * (y * d) == (u * x + v * y) * d
  {
  }

  lemma {:induction false} GcdDivides(a: nat, b: nat)
    requires a > 0 || b > 0
    ensures Gcd(a, b) > 0 && Divides(Gcd(a, b), a) && Divides(Gcd(a, b), b)
    decreases b
  {
    if b == 0 {
      DividesMul(a, a, 1);
      DividesMul(a, 0, 0);
    } else {
      GcdDivides(b, a % b);
      var g := Gcd(b, a % b);
      DivMod(a, b);
      DividesCombination(g, b, a % b, a / b, 1);
    }
  }

  /** Every gcd is a combination of the two numbers. */
  lemma {:induction false} Bezout(a: nat, b: nat) returns (u: int, v: int)
    ensures u * a + v * b == Gcd(a, b)
    decreases b
  {
    if b == 0 {
      u, v := 1, 0;
    } else {
      var u', v' := Bezout(b, a % b);
      DivMod(a, b);
      u, v := v', u' - v' * (a / b);
      BezoutStep(u', v', a, b, a / b, a % b);
    }
  }

  lemma BezoutStep(u: int, v: int, a: int, b: int, q: int, r: int)
    requires a == q * b + r
    ensures v * a + (u - v * q) * b == u * b + v * r
  {
  }

  /** The gcd is the greatest: every common divisor divides it. */
  lemma GcdGreatest(d: nat, a: nat, b: nat)
    requires d > 0 && Divides(d, a) && Divides(d, b)
    ensures Divides(d, Gcd(a, b))
  {
    var u, v := Bezout(a, b);
    DividesCombination(d, a, b, u, v);
  }

  lemma DivisorOfOne(d: int)
    requires d > 0 && Divides(d, 1)
    ensures d == 1
  {
    if d > 1 {
      DivUnique(1, d, 0, 1);
    }
  }

  lemma DivisorIsSmaller(d: int, n: int)
    requires d > 0 && n > 0 && Divides(d, n)
    ensures d <= n
  {
    DivMod(n, d);
    if n / d >= 1 {
      MulMono(1, n / d, d);
    } else {
      MulMono(n / d, 0, d);
    }
  }

  // A combination that makes one leaves no common divisor.
  lemma CombinationOfOne(a: nat, b: nat, u: int, v: int)
    requires u * a + v * b == 1
    ensures Gcd(a, b) == 1
  {
    GcdDivides(a, b);
    DividesCombination(Gcd(a, b), a, b, u, v);
    DivisorOfOne(Gcd(a, b));
  }

  /** Dividing two numbers by their gcd makes them coprime. */
  lemma GcdQuotients(a: nat, b: nat)
    requires a > 0 || b > 0
    ensures Gcd(a, b) > 0 && a / Gcd(a, b) >= 0 && b / Gcd(a, b) >= 0
    ensures Gcd(a / Gcd(a, b), b / Gcd(a, b)) == 1
  {
    hide Gcd;
    GcdDivides(a, b);
    var g := Gcd(a, b);
    var u, v := Bezout(a, b);
    QuotientOf(a, g);
    QuotientOf(b, g);
    Unscale(a / g, b / g, g, u, v);
    CombinationOfOne(a / g, b / g, u, v);
  }

  lemma QuotientOf(n: nat, d: int)
    requires d > 0 && Divides(d, n)
    ensures n / d >= 0 && n == (n / d) * d
  {
    DivMod(n, d);
    if n / d < 0 {
      MulMono(n / d, -1, d);
    }
  }

  lemma Unscale(x: int, y: int, g: int, u: int, v: int)
    requires g > 0 && u * (x * g) + v * (y * g) == g
    ensures u * x + v * y == 1
  {
    Combination(u, x, v, y, g);
    MulCancelEq(u * x + v * y, 1, g);
  }

  /** Euclid's lemma: what is coprime to one factor divides the other. */
  lemma Euclid(a: nat, b: nat, c: int)
    requires a > 0 && Gcd(a, b) == 1 && Divides(a, b * c)
    ensures Divides(a, c)
  {
    var u, v := Bezout(a, b);
    DividesMul(a, c * a, c);
    DividesCombination(a, c * a, b * c, u, v);
    EuclidCombination(a, b, c, u, v);
  }

  lemma EuclidCombination(a: int, b: int, c: int, u: int, v: int)
    requires u * a + v * b == 1
    ensures u * (c * a) + v * (b * c) == c
  {
    assert (u * a + v * b) * c == c;
  }

  lemma {:induction false} GcdComm(a: nat, b: nat)
    ensures Gcd(a, b) == Gcd(b, a)
  {
    if a == 0 && b == 0 {
    } else {
      GcdDivides(a, b);
      GcdDivides(b, a);
      GcdGreatest(Gcd(a, b), b, a);
      GcdGreatest(Gcd(b, a), a, b);
      DivisorIsSmaller(Gcd(a, b), Gcd(b, a));
      DivisorIsSmaller(Gcd(b, a), Gcd(a, b));
    }
  }
}
