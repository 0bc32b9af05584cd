/** Powers, and division facts Dafny does not find by itself. */
module Arith {

  function Pow(b: nat, n: nat): (p: nat)
    ensures b >= 1 ==> p >= 1
  {
    if n == 0 then 1 else b * Pow(b, n - 1)
  }

  lemma {:induction false} PowAdd(b: nat, m: nat, n: nat)
    ensures Pow(b, m + n) == Pow(b, m) * Pow(b, n)
  {
    if m == 0 {
    } else {
      PowAdd(b, m - 1, n);
      assert Pow(b, m + n) == b * Pow(b, m - 1 + n);
      MulAssoc(b, Pow(b, m - 1), Pow(b, n));
    }
  }

  lemma {:induction false} PowMul(b: nat, m: nat, n: nat)
    ensures Pow(Pow(b, m), n) == Pow(b, m * n)
  {
    if n == 0 {
      assert m * n == 0;
    } else {
      PowMul(b, m, n - 1);
      assert m * n == m + m * (n - 1);
      PowAdd(b, m, m * (n - 1));
    }
  }

  lemma {:induction false} PowMono(b: nat, m: nat, n: nat)
    requires b >= 1 && m <= n
    ensures Pow(b, m) <= Pow(b, n)
  {
    PowAdd(b, m, n - m);
    MulMono(1, Pow(b, n - m), Pow(b, m));
  }

  lemma {:induction false} PowStrict(b: nat, m: nat, n: nat)
    requires b >= 2 && m < n
    ensures Pow(b, m) < Pow(b, n)
  {
    PowMono(b, m, n - 1);
    assert Pow(b, n) == b * Pow(b, n - 1);
  }

  // Every number is below some power of two.
  lemma {:induction false} PowExceeds(n: nat)
    ensures n < Pow(2, n)
  {
    if n > 0 {
      PowExceeds(n - 1);
    }
  }

  lemma MulAssoc(a: int, b: int, c: int)
    ensures a * (b * c) == (a * b) * c
  {
  }

  lemma MulMono(a: int, b: int, c: int)
    requires a <= b && 0 <= c
    ensures a * c <= b * c && c * a <= c * b
  {
  }

  lemma MulNonNeg(a: nat, b: nat)
    ensures 0 <= a * b
  {
  }

  lemma MulStrict(a: int, b: int, c: int)
    requires a < b && 0 < c
    ensures a * c < b * c && c * a < c * b
  {
  }

  // a * c < b * c cancels.
  lemma MulCancelLt(a: int, b: int, c: int)
    requires a * c < b * c && 0 <= c
    ensures a < b
  {
    if b <= a {
      MulMono(b, a, c);
    }
  }

  lemma MulCancelEq(a: int, b: int, c: int)
    requires a * c == b * c && c != 0
    ensures a == b
  {
    assert (a - b) * c == 0;
  }

  // The quotient and the remainder are the only pair with x == q * d + r and 0 <= r < d.
  lemma DivUnique(x: int, d: int, q: int, r: int)
    requires 0 < d && 0 <= r < d && x == q * d + r
    ensures x / d == q && x % d == r
  {
    var q', r' := x / d, x % d;
    assert x == d * q' + r';
    assert (q - q') * d == r' - r;
    if q < q' {
      MulMono(q - q', -1, d);
    } else if q' < q {
      MulMono(1, q - q', d);
    }
  }

  lemma DivMod(x: int, d: int)
    requires 0 < d
    ensures x == (x / d) * d + x % d && 0 <= x % d < d
  {
  }

  // Floor division moves multiples of the divisor out.
  lemma DivAddMultiple(x: int, m: int, d: int)
    requires 0 < d
    ensures (x + m * d) / d == x / d + m && (x + m * d) % d == x % d
  {
    DivMod(x, d);
    assert x + m * d == (x / d + m) * d + x % d;
    DivUnique(x + m * d, d, x / d + m, x % d);
  }

  lemma DivMono(x: int, y: int, d: int)
    requires 0 < d && x <= y
    ensures x / d <= y / d
  {
    DivMod(x, d);
    DivMod(y, d);
    var u, v := x / d, y / d;
    if v < u {
      MulMono(v + 1, u, d);
    }
  }

  // Dividing by m and then by n is dividing by their product.
  lemma DivDiv(x: int, m: int, n: int)
    requires 0 < m && 0 < n
    ensures 0 < m * n
    ensures (x / m) / n == x / (m * n)
    ensures x % (m * n) == ((x / m) % n) * m + x % m
  {
    var y, r := x / m, x % m;
    var z, s := y / n, y % n;
    DivMod(x, m);
    DivMod(y, n);
    assert x == (z * n + s) * m + r;
    assert (z * n + s) * m == z * (m * n) + s * m;
    MulMono(s, n - 1, m);
    assert (n - 1) * m == m * n - m;
    MulMono(1, m, n);
    assert 0 <= s * m + r < m * n;
    DivUnique(x, m * n, z, s * m + r);
  }

  function AbsInt(x: int): nat { if x < 0 then -x else x }

  lemma MulPositive(a: int, b: int)
    requires a > 0 && b > 0
    ensures a * b > 0
  {
  }

  lemma PowPositive(n: nat)
    ensures Pow(2, n) > 0
  {
  }

  lemma PowZero(b: nat)
    ensures Pow(b, 0) == 1
  {
  }
}
