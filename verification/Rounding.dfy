/**
 Rounding to binary64: 53 bits of precision, ties to even, no bound on the exponent.
 Real numbers stand for the exact values; Exp2 gives the powers of two of either sign.
 */
module Rounding {
  import opened Arith
  import opened Bits

  function AbsReal(r: real): real { if r < 0.0 then -r else r }

  function Exp2(e: int): (p: real)
    ensures p > 0.0
    decreases if e < 0 then -e else e
  {
    if e == 0 then 1.0 else if e > 0 then 2.0 * Exp2(e - 1) else Exp2(e + 1) / 2.0
  }

  lemma Exp2Step(e: int)
    ensures Exp2(e + 1) == 2.0 * Exp2(e)
  {
  }

  lemma Exp2Zero()
    ensures Exp2(0) == 1.0
  {
  }

  lemma {:induction false} Exp2Add(a: int, b: int)
    ensures Exp2(a + b) == Exp2(a) * Exp2(b)
    decreases if b < 0 then -b else b
  {
    hide Exp2;
    Exp2Zero();
    if b > 0 {
      Exp2Add(a, b - 1);
      Exp2Step(a + b - 1);
      Exp2Step(b - 1);
      RealAssoc(Exp2(a), Exp2(b - 1));
    } else if b < 0 {
      Exp2Add(a, b + 1);
      Exp2Step(a + b);
      Exp2Step(b);
      RealAssoc(Exp2(a), Exp2(b));
    } else {
      assert a + b == a;
    }
  }

  lemma RealAssoc(x: real, y: real)
    ensures x * (2.0 * y) == 2.0 * (x * y)
  {
  }

  lemma {:induction false} Exp2Mono(a: int, b: int)
    requires a <= b
    ensures Exp2(a) <= Exp2(b)
    decreases b - a
  {
    if a < b {
      Exp2Mono(a, b - 1);
      Exp2Step(b - 1);
    }
  }

  // Powers with a natural exponent are the integer ones.
  lemma {:induction false} Exp2Pow(n: nat)
    ensures Exp2(n) == Pow(2, n) as real
  {
    if n > 0 {
      Exp2Pow(n - 1);
      assert Pow(2, n) as real == 2.0 * Pow(2, n - 1) as real;
    }
  }

  /** The binade of r: its leading bit has the weight 2^e. */
  predicate Binade(r: real, e: int) { Exp2(e) <= AbsReal(r) < Exp2(e + 1) }

  lemma BinadeUnique(r: real, d: int, e: int)
    requires Binade(r, d) && Binade(r, e)
    ensures d == e
  {
    if d < e {
      Exp2Mono(d + 1, e);
    } else if e < d {
      Exp2Mono(e + 1, d);
    }
  }

  lemma {:induction false} Locate(r: real, lo: int, hi: int)
    requires lo < hi && Exp2(lo) <= AbsReal(r) < Exp2(hi)
    ensures exists e :: Binade(r, e)
    decreases hi - lo
  {
    if AbsReal(r) >= Exp2(hi - 1) {
      assert Binade(r, hi - 1);
    } else {
      Locate(r, lo, hi - 1);
    }
  }

  // Every real is below a power of two.
  lemma Below(a: real)
    requires a > 0.0
    ensures exists n: nat :: a < Exp2(n)
  {
    var n := a.Floor + 1;
    PowExceeds(n);
    Exp2Pow(n);
    assert a < Exp2(n);
  }

  /** Every number but zero has a leading bit. */
  lemma BinadeExists(r: real)
    requires r != 0.0
    ensures exists e :: Binade(r, e)
  {
    hide Exp2;
    var a := AbsReal(r);
    Below(a);
    Below(1.0 / a);
    var hi: nat :| a < Exp2(hi);
    var m: nat :| 1.0 / a < Exp2(m);
    Exp2Add(m, 0 - m);
    Exp2Zero();
    Reciprocal(a, Exp2(m), Exp2(0 - m));
    Exp2Mono(0 - m, hi + 1);
    Exp2Step(hi);
    Locate(r, 0 - m, hi + 1);
  }

  lemma Reciprocal(a: real, p: real, q: real)
    requires a > 0.0 && p > 0.0 && q > 0.0 && p * q == 1.0 && 1.0 / a < p
    ensures q <= a
  {
    assert (1.0 / a) * a == 1.0;
    RealMul(1.0 / a, p, a);
    if a < q {
      RealMul(a, q, p);
    }
  }

  lemma RealMul(x: real, y: real, c: real)
    requires x < y && c > 0.0
    ensures x * c < y * c
  {
  }

  lemma RealMulLe(x: real, y: real, c: real)
    requires x <= y && c >= 0.0
    ensures x * c <= y * c
  {
  }

  /** The nearest integer, the even one of two as near. */
  function RoundEven(t: real): int {
    var k := t.Floor;
    var d := 2.0 * (t - k as real);
    if d < 1.0 || (d == 1.0 && k % 2 == 0) then k else k + 1
  }

  /** Rounding to nearest, section 4.3.1 of IEEE 754-2008, to 53 bits. */
  ghost function RoundNearest(r: real): real {
    if r == 0.0 then 0.0 else
      BinadeExists(r);
      var e :| Binade(r, e);
      RoundEven(r / Exp2(e - 52)) as real * Exp2(e - 52)
  }

  lemma RoundIn(r: real, e: int)
    requires Binade(r, e)
    ensures RoundNearest(r) == RoundEven(r / Exp2(e - 52)) as real * Exp2(e - 52)
  {
    hide Exp2, RoundEven;
    forall d | Binade(r, d) ensures d == e {
      BinadeUnique(r, d, e);
    }
  }

  // Rounding in units of u, without dividing.
  function RoundUnits(r: real, u: real, k: int): int {
    if 2.0 * (r - k as real * u) < u || (2.0 * (r - k as real * u) == u && k % 2 == 0) then k else k + 1
  }

  lemma RoundByUnits(r: real, u: real, k: int)
    requires u > 0.0 && k as real * u <= r < k as real * u + u
    ensures RoundEven(r / u) == RoundUnits(r, u, k)
  {
    var t := r / u;
    assert t * u == r;
    UnitFloor(t, r, u, k);
    var d := 2.0 * (t - k as real);
    UnitPart(t, r, u, k);
    CompareUnits(d, u);
  }

  lemma UnitPart(t: real, r: real, u: real, k: int)
    requires r == t * u
    ensures 2.0 * (r - k as real * u) == (2.0 * (t - k as real)) * u
  {
  }

  lemma CompareUnits(d: real, u: real)
    requires u > 0.0
    ensures d * u < u <==> d < 1.0
    ensures d * u == u <==> d == 1.0
  {
    if d < 1.0 {
      RealMul(d, 1.0, u);
    } else if d > 1.0 {
      RealMul(1.0, d, u);
    }
  }

  lemma UnitFloor(t: real, r: real, u: real, k: int)
    requires u > 0.0 && r == t * u && k as real * u <= r < k as real * u + u
    ensures t.Floor == k
  {
    InUnit(t, r, u, k as real, k as real * u);
    FloorIs(t, k);
  }

  lemma InUnit(t: real, r: real, u: real, x: real, y: real)
    requires u > 0.0 && r == t * u && y == x * u && y <= r < y + u
    ensures x <= t < x + 1.0
  {
    OneMoreUnit(x, u);
    CancelLe(x, t, u);
    CancelLt(t, x + 1.0, u);
  }

  lemma CancelLe(x: real, y: real, c: real)
    requires x * c <= y * c && c > 0.0
    ensures x <= y
  {
    if y < x {
      RealMul(y, x, c);
    }
  }

  lemma CancelLt(x: real, y: real, c: real)
    requires x * c < y * c && c > 0.0
    ensures x < y
  {
    if y <= x {
      RealMulLe(y, x, c);
    }
  }

  lemma OneMoreUnit(x: real, u: real)
    ensures (x + 1.0) * u == x * u + u
  {
  }

  lemma FloorIs(t: real, k: int)
    requires k as real <= t < k as real + 1.0
    ensures t.Floor == k
  {
  }

  lemma RoundZero()
    ensures RoundNearest(0.0) == 0.0
  {
  }

  /** Scaling by a power of two commutes with rounding. */
  lemma RoundScale(r: real, s: real, k: int)
    requires s == r * Exp2(k)
    ensures RoundNearest(s) == RoundNearest(r) * Exp2(k)
  {
    hide Exp2, RoundNearest, Binade;
    if r == 0.0 {
      RoundZero();
    } else {
      BinadeExists(r);
      var e :| Binade(r, e);
      ScaledBinade(r, s, e, k);
      RoundIn(r, e);
      RoundIn(s, e + k);
      Exp2Add(e - 52, k);
      assert e - 52 + k == e + k - 52;
      var u, v := Exp2(e - 52), Exp2(e + k - 52);
      CancelScale(r, s, u, Exp2(k), v);
      ScaleRounded(RoundEven(r / u) as real, u, Exp2(k), v);
    }
  }

  lemma ScaleRounded(x: real, u: real, p: real, v: real)
    requires v == u * p
    ensures x * v == (x * u) * p
  {
    RealReassoc(x, u, p);
  }

  lemma RealReassoc(x: real, y: real, z: real)
    ensures x * (y * z) == (x * y) * z
  {
  }

  lemma ScaledBinade(r: real, s: real, e: int, k: int)
    requires Binade(r, e) && s == r * Exp2(k)
    ensures Binade(s, e + k) && s != 0.0
  {
    hide Exp2, AbsReal;
    Exp2Add(e, k);
    Exp2Add(e + 1, k);
    assert e + 1 + k == e + k + 1;
    ScaleBounds(AbsReal(r), Exp2(e), Exp2(e + 1), Exp2(k));
    AbsScale(r, s, Exp2(k));
  }

  lemma ScaleBounds(a: real, lo: real, hi: real, p: real)
    requires 0.0 < lo <= a < hi && p > 0.0
    ensures 0.0 < lo * p <= a * p < hi * p
  {
    RealMul(0.0, lo, p);
    RealMulLe(lo, a, p);
    RealMul(a, hi, p);
  }

  lemma AbsScale(r: real, s: real, p: real)
    requires p > 0.0 && s == r * p
    ensures AbsReal(s) == AbsReal(r) * p
    ensures AbsReal(s) > 0.0 ==> s != 0.0
  {
    if r < 0.0 {
      RealMul(r, 0.0, p);
    } else {
      RealMulLe(0.0, r, p);
    }
  }

  lemma CancelScale(r: real, s: real, u: real, p: real, v: real)
    requires u > 0.0 && p > 0.0 && v == u * p && s == r * p
    ensures v > 0.0 && s / v == r / u
  {
    RealMul(0.0, u, p);
    var t := r / u;
    assert t * u == r;
    RealReassoc(t, u, p);
    Quotient(t, v, s);
  }

  lemma Quotient(t: real, d: real, n: real)
    requires d > 0.0 && t * d == n
    ensures n / d == t
  {
    var s := n / d;
    assert s * d == n;
    if s < t {
      RealMul(s, t, d);
    } else if t < s {
      RealMul(t, s, d);
    }
  }

  /** What Int64.t can hold. */
  predicate FitsInt64(x: int) { 0 <= x + Pow(2, 63) && x < Pow(2, 63) }

  /** round_to_float: m is made odd unless it is exact, then converted. */
  ghost function RoundToFloat(x: int, exact: bool): real
    requires FitsInt64(x)
  {
    RoundNearest((if exact then x else SetLow(x)) as real)
  }

  /**
   In units of u, a multiple of four, the odd neighbour of a number rounds as the
   number does: it is on the same side of every half unit.
   */
  lemma OddNeighbour(r: real, u: int, x: int)
    requires u > 0 && u % 4 == 0 && x as real < r < (x + 1) as real
    ensures RoundEven(r / u as real) == RoundEven(SetLow(x) as real / u as real)
  {
    hide RoundEven, SetLow;
    OddPlace(u, x);
    CastProduct(x / u, u);
    var c, p := (x / u) * u, (x / u) as real * u as real;
    SideOfHalf(r, SetLow(x), x, u, c, p);
    RoundSameSide(r, SetLow(x) as real, u as real, x / u, p);
  }

  // The unit of a number, and its odd neighbour's side of the middle of it.
  lemma OddPlace(u: int, x: int)
    requires u > 0 && u % 4 == 0
    ensures var c, m := (x / u) * u, SetLow(x);
            c <= x && c <= m < c + u && x + 1 <= c + u &&
            if 2 * (x - c) < u then 2 * (m - c) < u && 2 * (x + 1 - c) <= u else 2 * (m - c) > u
  {
    hide SetLow;
    var k := x / u;
    DivMod(x, u);
    OddStays(x % u, u / 4, k * (u / 4), x);
    Quarters(k, u, u / 4);
  }

  lemma Quarters(k: int, u: int, v: int)
    requires u == 4 * v
    ensures k * u == 4 * (k * v)
  {
  }

  lemma CastProduct(k: int, u: int)
    ensures (k * u) as real == k as real * u as real
  {
  }

  // Both numbers are in one unit, and strictly on one side of its middle.
  lemma SideOfHalf(r: real, m: int, x: int, u: int, c: int, p: real)
    requires p == c as real && x as real < r < (x + 1) as real && c <= x && c <= m < c + u && x + 1 <= c + u
    requires if 2 * (x - c) < u then 2 * (m - c) < u && 2 * (x + 1 - c) <= u else 2 * (m - c) > u
    ensures p <= r < p + u as real && p <= m as real < p + u as real
    ensures if 2 * (x - c) < u then 2.0 * (r - p) < u as real && 2.0 * (m as real - p) < u as real
            else 2.0 * (r - p) > u as real && 2.0 * (m as real - p) > u as real
  {
  }

  // Numbers in one unit, both below or both above its middle, round alike.
  lemma RoundSameSide(r: real, s: real, v: real, k: int, p: real)
    requires v > 0.0 && p == k as real * v && p <= r < p + v && p <= s < p + v
    requires 2.0 * (r - p) != v && 2.0 * (s - p) != v && (2.0 * (r - p) < v <==> 2.0 * (s - p) < v)
    ensures RoundEven(r / v) == RoundEven(s / v)
  {
    hide RoundEven, RoundUnits;
    SameUnits(r, s, v, k, p);
    RoundByUnits(r, v, k);
    RoundByUnits(s, v, k);
  }

  lemma SameUnits(r: real, s: real, v: real, k: int, p: real)
    requires p == k as real * v && 2.0 * (r - p) != v && 2.0 * (s - p) != v
    requires 2.0 * (r - p) < v <==> 2.0 * (s - p) < v
    ensures RoundUnits(r, v, k) == RoundUnits(s, v, k)
  {
    assert 2.0 * (r - k as real * v) == 2.0 * (r - p) && 2.0 * (s - k as real * v) == 2.0 * (s - p);
  }

  lemma OddStays(j: int, v: int, c: int, x: int)
    requires 0 <= j < 4 * v && x == 4 * c + j
    ensures 4 * c <= SetLow(x) < 4 * c + 4 * v && x + 1 <= 4 * c + 4 * v
    ensures if j < 2 * v then SetLow(x) - 4 * c < 2 * v && x + 1 - 4 * c <= 2 * v
            else SetLow(x) - 4 * c > 2 * v
  {
    hide SetLow;
    SetLowOdd(x);
    var m, h := SetLow(x), SetLow(x) / 2;
    assert m == 2 * h + 1;
    assert 2 * h + 1 < 4 * c + 4 * v && 2 * h + 1 > 4 * c - 1;
  }

  lemma SetLowOdd(x: int)
    ensures x <= SetLow(x) <= x + 1 && SetLow(x) == 2 * (SetLow(x) / 2) + 1
  {
  }

  // The odd neighbour has the same leading bit.
  lemma OddBinade(r: real, e: int)
    requires Binade(r, e) && e >= 2 && r != r.Floor as real
    ensures Binade(SetLow(r.Floor) as real, e)
  {
    hide Exp2, Pow, SetLow;
    var x, p := r.Floor, Pow(2, e);
    Exp2Pow(e);
    Exp2Step(e);
    SetLowOdd(x);
    FloorSides(r, p);
    OddInside(x, SetLow(x), p, r < 0.0);
  }

  // The integers around a number between two powers of two.
  lemma FloorSides(r: real, p: int)
    requires p > 0 && p as real <= AbsReal(r) < 2.0 * p as real && r != r.Floor as real
    ensures if r < 0.0 then -2 * p <= r.Floor && r.Floor + 1 <= -p else p <= r.Floor && r.Floor + 1 <= 2 * p
  {
    if r < 0.0 {
      BelowFloor(-2 * p, r);
      AboveFloor(-p, r);
    } else {
      BelowFloor(p, r);
      AboveFloor(2 * p, r);
    }
  }

  lemma BelowFloor(a: int, r: real)
    requires a as real <= r
    ensures a <= r.Floor
  {
  }

  lemma AboveFloor(b: int, r: real)
    requires r <= b as real && r != r.Floor as real
    ensures r.Floor + 1 <= b
  {
  }

  lemma OddInside(x: int, m: int, p: int, negative: bool)
    requires x <= m <= x + 1 && m == 2 * (m / 2) + 1 && p > 0
    requires if negative then -2 * p <= x && x + 1 <= -p else p <= x && x + 1 <= 2 * p
    ensures p as real <= AbsReal(m as real) < 2.0 * p as real
  {
    assert m != 2 * p && m != -2 * p;
    if negative {
      assert p <= -m < 2 * p;
      assert (2 * p) as real == 2.0 * p as real;
    } else {
      assert p <= m < 2 * p;
      assert (2 * p) as real == 2.0 * p as real;
    }
  }

  /**
   Round to odd: for every real of at least 2^54, of either sign, rounding the
   floor made odd is rounding the number itself.
   */
  lemma RoundToOdd(r: real, exact: bool)
    requires AbsReal(r) >= Exp2(54) && FitsInt64(r.Floor) && (exact <==> r == r.Floor as real)
    ensures RoundToFloat(r.Floor, exact) == RoundNearest(r)
  {
    hide Exp2, RoundEven, SetLow, FitsInt64;
    if !exact {
      BinadeExists(r);
      var e :| Binade(r, e);
      if e < 54 {
        Exp2Mono(e + 1, 54);
      }
      OddBinade(r, e);
      RoundIn(r, e);
      RoundIn(SetLow(r.Floor) as real, e);
      OddUnits(r, e);
    }
  }

  lemma OddUnits(r: real, e: int)
    requires e >= 54 && r != r.Floor as real
    ensures RoundEven(r / Exp2(e - 52)) == RoundEven(SetLow(r.Floor) as real / Exp2(e - 52))
  {
    hide Exp2, RoundEven, SetLow;
    var u := Pow(2, e - 52);
    Exp2Pow(e - 52);
    assert u == 4 * Pow(2, e - 54);
    OddNeighbour(r, u, r.Floor);
  }

  function Scaled(m: int, k: int): real { m as real * Exp2(k) }

  // Integers of 53 bits, and the next power of two.
  predicate FitsPrecision(m: int) { 0 - Pow(2, 53) <= m <= Pow(2, 53) }

  /** Numbers of 53 bits of precision. */
  ghost predicate IsFloat(z: real) {
    exists m: int, k: int :: FitsPrecision(m) && z == Scaled(m, k)
  }

  lemma RoundEvenNearest(t: real, m: int)
    ensures AbsReal(t - RoundEven(t) as real) <= AbsReal(t - m as real)
    ensures AbsReal(t - RoundEven(t) as real) <= 0.5
  {
    HalfwayNearest(t, t.Floor, RoundEven(t), m);
  }

  /** Of two integers as near, the even one. */
  lemma RoundEvenTies(t: real)
    requires AbsReal(t - RoundEven(t) as real) == 0.5
    ensures RoundEven(t) % 2 == 0
  {
    var k := t.Floor;
    assert k as real <= t < k as real + 1.0;
  }

  lemma HalfwayNearest(t: real, k: int, n: int, m: int)
    requires k as real <= t < k as real + 1.0
    requires (n == k && t - k as real <= 0.5) || (n == k + 1 && t - k as real >= 0.5)
    ensures AbsReal(t - n as real) <= AbsReal(t - m as real)
    ensures AbsReal(t - n as real) <= 0.5
  {
    if m <= k {
      assert m as real <= k as real;
    } else {
      assert (k + 1) as real <= m as real;
    }
  }

  // No multiple of the last place is nearer.
  lemma NearestMultiple(r: real, e: int, m: int)
    requires Binade(r, e)
    ensures AbsReal(r - RoundNearest(r)) <= AbsReal(r - Scaled(m, e - 52))
  {
    hide Exp2, RoundEven, RoundNearest, Binade, AbsReal;
    var u := Exp2(e - 52);
    var t := r / u;
    assert t * u == r;
    RoundIn(r, e);
    RoundEvenNearest(t, m);
    var x, y := RoundEven(t) as real, m as real;
    UnitDistance(t, r, x, u, AbsReal(t - x), x * u);
    UnitDistance(t, r, y, u, AbsReal(t - y), y * u);
    RealMulLe(AbsReal(t - x), AbsReal(t - y), u);
  }

  lemma UnitDistance(t: real, r: real, x: real, u: real, d: real, z: real)
    requires u > 0.0 && r == t * u && z == x * u && d == AbsReal(t - x)
    ensures AbsReal(r - z) == d * u
  {
    assert r - z == (t - x) * u;
    AbsScale(t - x, r - z, u);
  }

  /** No number of 53 bits is nearer to r than the rounded one. */
  lemma NoFloatIsNearer(r: real, z: real)
    requires IsFloat(z)
    ensures AbsReal(r - RoundNearest(r)) <= AbsReal(r - z)
  {
    hide Exp2, RoundEven, RoundNearest, Pow, Scaled, FitsPrecision;
    if r == 0.0 {
      RoundZero();
    } else {
      BinadeExists(r);
      var e :| Binade(r, e);
      var m, k :| FitsPrecision(m) && z == Scaled(m, k);
      if k >= e - 52 {
        CoarseMultiple(m, k, e - 52);
        NearestMultiple(r, e, m * Pow(2, k - (e - 52)));
      } else {
        FineIsSmall(m, k, e);
        LeadingBit(e);
        NearestMultiple(r, e, if r < 0.0 then 0 - Pow(2, 52) else Pow(2, 52));
      }
    }
  }

  lemma CoarseMultiple(m: int, k: int, l: int)
    requires l <= k
    ensures Scaled(m, k) == Scaled(m * Pow(2, k - l), l)
  {
    hide Exp2;
    Exp2Add(l, k - l);
    Exp2Pow(k - l);
    Regroup(m as real, Exp2(l), Exp2(k - l));
    assert (m * Pow(2, k - l)) as real == m as real * Pow(2, k - l) as real;
  }

  lemma Regroup(m: real, x: real, y: real)
    ensures m * (x * y) == (m * y) * x
  {
  }

  // A number whose last place is below that of r is no larger than r's leading bit.
  lemma FineIsSmall(m: int, k: int, e: int)
    requires FitsPrecision(m) && k < e - 52
    ensures AbsReal(Scaled(m, k)) <= Exp2(e)
  {
    hide Exp2, Pow, AbsReal;
    Exp2Mono(k, e - 53);
    Exp2Pow(53);
    Exp2Add(e - 53, 53);
    AbsScale(m as real, Scaled(m, k), Exp2(k));
    AbsInside(m, Pow(2, 53));
    MulLeMul(AbsReal(m as real), Exp2(53), Exp2(k), Exp2(e - 53));
  }

  lemma MulLeMul(a: real, p: real, k: real, l: real)
    requires a <= p && k <= l && k >= 0.0 && p >= 0.0
    ensures a * k <= l * p
  {
    RealMulLe(a, p, k);
    RealMulLe(k, l, p);
    assert p * k == k * p;
  }

  lemma AbsInside(m: int, p: nat)
    requires 0 - p <= m <= p
    ensures AbsReal(m as real) <= p as real
  {
  }

  lemma LeadingBit(e: int)
    ensures Scaled(Pow(2, 52), e - 52) == Exp2(e)
    ensures Scaled(0 - Pow(2, 52), e - 52) == -Exp2(e)
  {
    hide Exp2, Pow;
    Exp2Pow(52);
    Exp2Add(52, e - 52);
  }

  /** The rounded number has 53 bits. */
  lemma RoundedIsFloat(r: real)
    ensures IsFloat(RoundNearest(r))
  {
    hide Exp2, RoundEven, RoundNearest, Pow;
    if r == 0.0 {
      RoundZero();
      assert FitsPrecision(0) && 0.0 == Scaled(0, 0);
    } else {
      BinadeExists(r);
      var e :| Binade(r, e);
      RoundIn(r, e);
      RoundedSize(r, e);
      assert RoundNearest(r) == Scaled(RoundEven(r / Exp2(e - 52)), e - 52);
    }
  }

  lemma RoundedSize(r: real, e: int)
    requires Binade(r, e)
    ensures FitsPrecision(RoundEven(r / Exp2(e - 52)))
  {
    hide Exp2, RoundEven, Pow, AbsReal;
    var u := Exp2(e - 52);
    var t := r / u;
    assert t * u == r;
    Exp2Pow(53);
    Exp2Add(53, e - 52);
    assert 53 + (e - 52) == e + 1;
    AbsScale(t, r, u);
    CancelLt(AbsReal(t), Exp2(53), u);
    RoundEvenNearest(t, 0);
    NearInside(t, RoundEven(t), Pow(2, 53));
  }

  lemma NearInside(t: real, n: int, p: nat)
    requires AbsReal(t) < p as real && AbsReal(t - n as real) <= 0.5
    ensures 0 - p <= n <= p
  {
  }

  /** A number of 53 bits is its own rounding. */
  lemma RoundExact(r: real)
    requires IsFloat(r)
    ensures RoundNearest(r) == r
  {
    hide RoundNearest, IsFloat;
    NoFloatIsNearer(r, r);
  }
}
