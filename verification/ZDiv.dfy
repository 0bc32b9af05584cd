/**
 The division family of Zarith: truncated, ceiling, floor and Euclidean. Each is
 specified by what its quotient and remainder are, and each of those by at most
 one pair of numbers.
 */
module ZDiv {
  import opened Arith
  import opened Bits
  import opened Digits
  import opened BngDigit
  import opened ZRep
  import opened ZArith

  datatype Result<T> = Ok(value: T) | DivideByZero

  /** Rounded towards zero; the remainder has the sign of the dividend. */
  ghost predicate Truncated(a: int, b: int, q: int, r: int) {
    a == q * b + r && AbsInt(r) < AbsInt(b) && (r < 0 ==> a < 0) && (r > 0 ==> a > 0)
  }

  /** The greatest integer not above the quotient. */
  ghost predicate Floor(a: int, b: int, q: int) {
    if b > 0 then q * b <= a < q * b + b else q * b + b < a <= q * b
  }

  /** The least integer not below the quotient. */
  ghost predicate Ceiling(a: int, b: int, q: int) {
    if b > 0 then q * b - b < a <= q * b else q * b <= a < q * b - b
  }

  lemma TruncatedUnique(a: int, b: int, q: int, r: int, q': int, r': int)
    requires b != 0 && Truncated(a, b, q, r) && Truncated(a, b, q', r')
    ensures q == q' && r == r'
  {
    assert (q - q') * b == r' - r;
    OnlyMultiple(q - q', b, r' - r);
  }

  // The only multiple of b nearer to zero than b is zero.
  lemma OnlyMultiple(k: int, b: int, x: int)
    requires b != 0 && x == k * b && AbsInt(x) < AbsInt(b)
    ensures k == 0 && x == 0
  {
    if k >= 1 {
      MulMono(1, k, AbsInt(b));
    } else if k <= -1 {
      MulMono(k, -1, AbsInt(b));
    }
    assert k * AbsInt(b) == x || k * AbsInt(b) == -x;
  }

  lemma FloorUnique(a: int, b: int, q: int, q': int)
    requires b != 0 && Floor(a, b, q) && Floor(a, b, q')
    ensures q == q'
  {
    assert (q - q') * b == q * b - q' * b;
    OnlyMultiple(q - q', b, (q - q') * b);
  }

  lemma CeilingUnique(a: int, b: int, q: int, q': int)
    requires b != 0 && Ceiling(a, b, q) && Ceiling(a, b, q')
    ensures q == q'
  {
    assert (q - q') * b == q * b - q' * b;
    OnlyMultiple(q - q', b, (q - q') * b);
  }

  /** The three roundings, of the quotient of real numbers. */
  lemma QuotientOfReals(a: int, b: int, q: int)
    requires b != 0
    ensures var t := a as real / b as real;
            (Floor(a, b, q) <==> q as real <= t < (q + 1) as real) &&
            (Ceiling(a, b, q) <==> (q - 1) as real < t <= q as real) &&
            (Truncated(a, b, q, a - q * b) <==> if t >= 0.0 then q as real <= t < (q + 1) as real
                                                else (q - 1) as real < t <= q as real)
  {
    var t, d := a as real / b as real, b as real;
    assert t * d == a as real;
    ScaledReal(t, q, a, b);
    ScaledReal(t, q + 1, a, b);
    ScaledReal(t, q - 1, a, b);
    ScaledReal(t, 0, a, b);
    assert (q + 1) * b == q * b + b && (q - 1) * b == q * b - b && 0 * b == 0;
  }

  lemma ScaledReal(t: real, k: int, a: int, b: int)
    requires b != 0 && t * b as real == a as real
    ensures k as real <= t <==> if b > 0 then k * b <= a else k * b >= a
    ensures k as real < t <==> if b > 0 then k * b < a else k * b > a
  {
    var s, d := k as real, b as real;
    assert (k * b) as real == s * d;
    if s < t {
      if b > 0 {
        assert (t - s) * d > 0.0;
      } else {
        assert (t - s) * (0.0 - d) > 0.0;
      }
    } else if t < s {
      if b > 0 {
        assert (s - t) * d > 0.0;
      } else {
        assert (s - t) * (0.0 - d) > 0.0;
      }
    }
  }

  // The division of two native words, as C does it.
  function WordDiv(a: int, b: int): int
    requires b != 0
  {
    var q := AbsInt(a) / AbsInt(b);
    if (a < 0) == (b < 0) then q else -q
  }

  function WordRem(a: int, b: int): int
    requires b != 0
  {
    var r := AbsInt(a) % AbsInt(b);
    if a < 0 then -r else r
  }

  // Magnitudes divided, with the signs put back.
  lemma SignedTruncated(n: nat, d: nat, s: bool, t: bool)
    requires d > 0
    ensures Truncated(Signed(s, n), Signed(t, d), Signed(s != t, n / d), Signed(s, n % d))
  {
    var q, r := n / d, n % d;
    DivMod(n, d);
    NegMul(q, d);
    NegMul(-q, d);
    NegMul(d, q);
    assert n == 0 ==> q == 0 && r == 0;
  }

  lemma WordDivTruncates(a: int, b: int)
    requires b != 0
    ensures Truncated(a, b, WordDiv(a, b), WordRem(a, b))
  {
    SignedTruncated(AbsInt(a), AbsInt(b), a < 0, b < 0);
  }

  /** mpn_tdiv_qr: quotient and remainder of two magnitudes. */
  method MpnTdivQr(q: array<nat>, r: array<nat>, n: seq<nat>, d: seq<nat>, w: WordBits)
    requires 0 < |d| <= |n| && Normal(n, w) && Normal(d, w)
    requires q != r && q.Length >= |n| - |d| + 1 && r.Length >= |d|
    modifies q, r
    ensures IsDigits(q[..|n| - |d| + 1], Base(w)) && IsDigits(r[..|d|], Base(w))
    ensures Val(d, Base(w)) > 0
    ensures Val(q[..|n| - |d| + 1], Base(w)) == Val(n, Base(w)) / Val(d, Base(w))
    ensures Val(r[..|d|], Base(w)) == Val(n, Base(w)) % Val(d, Base(w))
  {
    hide Base, Val, Pow;
    QuotientSize(n, d, w);
    ghost var u, v := Val(n, Base(w)) / Val(d, Base(w)), Val(n, Base(w)) % Val(d, Base(w));
    var top := Store(q, |n| - |d| + 1, Val(n, Base(w)) / Val(d, Base(w)), w);
    ghost var s := q[..|n| - |d| + 1];
    StoreRest(s, top, u, w);
    var rest := Store(r, |d|, Val(n, Base(w)) % Val(d, Base(w)), w);
    StoreRest(r[..|d|], rest, v, w);
    assert q[..|n| - |d| + 1] == s;
  }

  lemma QuotientSize(n: seq<nat>, d: seq<nat>, w: WordBits)
    requires 0 < |d| <= |n| && Normal(n, w) && Normal(d, w)
    ensures Val(d, Base(w)) > 0
    ensures 0 <= Val(n, Base(w)) / Val(d, Base(w)) < Pow(Base(w), |n| - |d| + 1)
    ensures 0 <= Val(n, Base(w)) % Val(d, Base(w)) < Pow(Base(w), |d|)
  {
    hide Base, Val;
    NormalSize(n, w);
    NormalSize(d, w);
    PowAdd(Base(w), |d| - 1, |n| - |d| + 1);
    QuotientBound(Val(n, Base(w)), Val(d, Base(w)), Pow(Base(w), |d| - 1), Pow(Base(w), |n| - |d| + 1));
  }

  lemma QuotientBound(x: nat, y: nat, l: nat, p: nat)
    requires 0 < l <= y && x < l * p
    ensures 0 <= x / y < p && 0 <= x % y < y
  {
    DivMod(x, y);
    MulMono(l, y, p);
    if x / y >= p {
      MulMono(p, x / y, y);
    }
  }

  /** Quotient and remainder truncated towards zero. */
  method TdivQr(x: Z, y: Z, w: WordBits) returns (res: Result<(Z, Z)>)
    requires Valid(x, w) && Valid(y, w)
    ensures res.DivideByZero? <==> Value(y, w) == 0
    ensures res.Ok? ==> Valid(res.value.0, w) && Valid(res.value.1, w) &&
                        Truncated(Value(x, w), Value(y, w), Value(res.value.0, w), Value(res.value.1, w))
  {
    hide Base, Val, Pow, Unpack, Normal, FitsInt, Truncated, Valid, Value;
    var a, b := Unpack(x, w), Unpack(y, w);
    ArgSign(b, w);
    if |b.limbs| == 0 {
      return DivideByZero;
    }
    NormalSize(b.limbs, w);
    SignedTruncated(Magnitude(a, w), Magnitude(b, w), a.negative, b.negative);
    var q, r;
    if |a.limbs| >= |b.limbs| {
      var qs := new nat[|a.limbs| - |b.limbs| + 1];
      var rs := new nat[|b.limbs|];
      MpnTdivQr(qs, rs, a.limbs, b.limbs, w);
      q := Reduce(qs, |a.limbs| - |b.limbs| + 1, a.negative != b.negative, w);
      r := Reduce(rs, |b.limbs|, a.negative, w);
    } else {
      ShorterIsSmaller(a.limbs, b.limbs, w);
      q := Small(0);
      SmallIsValid(0, w);
      r := x;
      WrapNone(Magnitude(a, w), Magnitude(b, w));
    }
    res := Ok((q, r));
  }

  /** Truncated quotient and remainder, with the fast path for native ints. */
  method DivRem(x: Z, y: Z, w: WordBits) returns (res: Result<(Z, Z)>)
    requires Valid(x, w) && Valid(y, w)
    ensures res.DivideByZero? <==> Value(y, w) == 0
    ensures res.Ok? ==> Valid(res.value.0, w) && Valid(res.value.1, w) &&
                        Truncated(Value(x, w), Value(y, w), Value(res.value.0, w), Value(res.value.1, w))
  {
    hide Truncated, WordDiv, WordRem, FitsInt;
    if x.Small? && y.Small? {
      if y.n == 0 {
        return DivideByZero;
      }
      var q, r := WordDiv(x.n, y.n), WordRem(x.n, y.n);
      WordDivTruncates(x.n, y.n);
      if FitsInt(q, w) && FitsInt(r, w) {
        return Ok((Small(q), Small(r)));
      }
    }
    res := TdivQr(x, y, w);
  }

  method Div(x: Z, y: Z, w: WordBits) returns (res: Result<Z>)
    requires Valid(x, w) && Valid(y, w)
    ensures res.DivideByZero? <==> Value(y, w) == 0
    ensures res.Ok? ==> Valid(res.value, w) &&
                        exists r :: Truncated(Value(x, w), Value(y, w), Value(res.value, w), r)
  {
    hide Truncated, WordDiv, WordRem, FitsInt;
    if x.Small? && y.Small? {
      if y.n == 0 {
        return DivideByZero;
      }
      var q := WordDiv(x.n, y.n);
      WordDivTruncates(x.n, y.n);
      if FitsInt(q, w) {
        assert Truncated(Value(x, w), Value(y, w), Value(Small(q), w), WordRem(x.n, y.n));
        return Ok(Small(q));
      }
    }
    var p := TdivQr(x, y, w);
    if p.DivideByZero? {
      return DivideByZero;
    }
    res := Ok(p.value.0);
  }

  method Rem(x: Z, y: Z, w: WordBits) returns (res: Result<Z>)
    requires Valid(x, w) && Valid(y, w)
    ensures res.DivideByZero? <==> Value(y, w) == 0
    ensures res.Ok? ==> Valid(res.value, w) &&
                        exists q :: Truncated(Value(x, w), Value(y, w), q, Value(res.value, w))
  {
    hide Truncated, WordDiv, WordRem, FitsInt;
    if x.Small? && y.Small? {
      if y.n == 0 {
        return DivideByZero;
      }
      var r := WordRem(x.n, y.n);
      WordDivTruncates(x.n, y.n);
      if FitsInt(r, w) {
        assert Truncated(Value(x, w), Value(y, w), WordDiv(x.n, y.n), Value(Small(r), w));
        return Ok(Small(r));
      }
    }
    var p := TdivQr(x, y, w);
    if p.DivideByZero? {
      return DivideByZero;
    }
    res := Ok(p.value.1);
  }

  // Rounding up when down is false, down when it is true.
  ghost predicate Rounded(a: int, b: int, down: bool, q: int) {
    if down then Floor(a, b, q) else Ceiling(a, b, q)
  }

  /** Only a quotient on the side of the rounding and not exact moves away from zero. */
  lemma Outward(n: nat, d: nat, s: bool, t: bool, down: bool)
    requires d > 0
    ensures Rounded(Signed(s, n), Signed(t, d), down, Signed(s != t, n / d + Flag((s != t) == down && n % d != 0)))
  {
    var q, k := n / d, Flag((s != t) == down && n % d != 0);
    DivMod(n, d);
    SignedMul(s != t, q + k, t, d);
    OneMore(q, k, d);
    OutwardLinear(q * d, n % d, k, d, s, t, down, Signed(s != t, q + k));
  }

  lemma OneMore(q: int, k: nat, d: int)
    requires k <= 1
    ensures (q + k) * d == q * d + (if k == 1 then d else 0)
  {
  }

  lemma SignedMul(s: bool, x: int, t: bool, d: int)
    ensures Signed(s, x) * Signed(t, d) == Signed(s != t, x * d)
  {
    NegMul(x, d);
    NegMul(-x, d);
    NegMul(d, x);
  }

  lemma OutwardLinear(m: int, r: int, k: nat, d: int, s: bool, t: bool, down: bool, e: int)
    requires 0 <= r < d && k == Flag((s != t) == down && r != 0)
    requires e * Signed(t, d) == Signed(s, m + (if k == 1 then d else 0))
    ensures Rounded(Signed(s, m + r), Signed(t, d), down, e)
  {
  }

  /** Division rounded towards plus or minus infinity, on sign and limbs. */
  method Rdiv(x: Z, y: Z, dir: bool, w: WordBits) returns (res: Result<Z>)
    requires Valid(x, w) && Valid(y, w)
    ensures res.DivideByZero? <==> Value(y, w) == 0
    ensures res.Ok? ==> Valid(res.value, w) && Rounded(Value(x, w), Value(y, w), dir, Value(res.value, w))
  {
    hide Base, Val, Pow, Unpack, Normal, FitsInt, Rounded, Valid, Value;
    var a, b := Unpack(x, w), Unpack(y, w);
    ArgSign(a, w);
    ArgSign(b, w);
    if |b.limbs| == 0 {
      return DivideByZero;
    }
    NormalSize(b.limbs, w);
    Outward(Magnitude(a, w), Magnitude(b, w), a.negative, b.negative, dir);
    if |a.limbs| >= |b.limbs| {
      var z := RoundedQuotient(a, b, dir, w);
      return Ok(z);
    }
    ShorterIsSmaller(a.limbs, b.limbs, w);
    WrapNone(Magnitude(a, w), Magnitude(b, w));
    NormalSize(a.limbs, w);
    SmallIsValid(-1, w);
    SmallIsValid(0, w);
    SmallIsValid(1, w);
    if |a.limbs| != 0 && (a.negative != b.negative) == dir {
      if dir {
        res := Ok(Small(-1));
      } else {
        res := Ok(Small(1));
      }
    } else {
      res := Ok(Small(0));
    }
  }

  method RoundedQuotient(a: Arg, b: Arg, dir: bool, w: WordBits) returns (z: Z)
    requires ValidArg(a, w) && ValidArg(b, w) && 0 < |b.limbs| <= |a.limbs|
    ensures Valid(z, w) && Magnitude(b, w) > 0
    ensures Value(z, w) == Signed(a.negative != b.negative, Magnitude(a, w) / Magnitude(b, w) +
              Flag((a.negative != b.negative) == dir && Magnitude(a, w) % Magnitude(b, w) != 0))
  {
    hide Base, Val, Pow, Normal, Valid, Value;
    var n: nat := |a.limbs| - |b.limbs| + 1;
    var c := 0;
    var q := new nat[n + 1];
    var r := new nat[|b.limbs|];
    MpnTdivQr(q, r, a.limbs, b.limbs, w);
    if (a.negative != b.negative) == dir {
      var sz := Significant(r, |b.limbs|, w);
      if sz != 0 {
        assert q[..][..n] == q[..n];
        c := MpnAdd1(q, q[..], n, w);
      }
    }
    ghost var s := q[..n];
    q[n] := c;
    assert q[..n + 1] == s + [c];
    ValSnoc(s, c, Base(w));
    z := Reduce(q, n + 1, a.negative != b.negative, w);
  }

  /** How many of the n low limbs are left without the zeros on top. */
  method Significant(r: array<nat>, n: nat, w: WordBits) returns (sz: nat)
    requires n <= r.Length
    ensures sz == 0 <==> Val(r[..n], Base(w)) == 0
  {
    hide Base, Val, Pow;
    sz := n;
    while sz > 0 && r[sz - 1] == 0
      invariant sz <= n && forall k :: sz <= k < n ==> r[k] == 0
    {
      sz := sz - 1;
    }
    if sz == 0 {
      ValZero(r[..n], Base(w));
    } else {
      NonZeroLimb(r[..n], sz - 1, w);
    }
  }

  lemma NonZeroLimb(s: seq<nat>, k: nat, w: WordBits)
    requires k < |s| && s[k] != 0
    ensures Val(s, Base(w)) != 0
  {
    hide Base, Val;
    if Val(s, Base(w)) == 0 {
      ValIsZero(s, Base(w));
    }
  }

  // Signed numbers a machine word can hold.
  predicate FitsWord(n: int, w: WordBits) { 0 <= n + Pow(2, w - 1) && n < Pow(2, w - 1) }

  /** Adjusting the dividend makes the truncated quotient the ceiling, without overflow. */
  function CeilingDividend(a: int, b: int): int {
    if a > 0 && b > 0 then a + (b - 1) else if a < 0 && b < 0 then a + (b + 1) else a
  }

  function FloorDividend(a: int, b: int): int {
    if a < 0 && b > 0 then a - (b - 1) else if a > 0 && b < 0 then a - (b + 1) else a
  }

  lemma AdjustedFits(a: int, b: int, w: WordBits)
    requires FitsInt(a, w) && FitsInt(b, w)
    ensures FitsWord(CeilingDividend(a, b), w) && FitsWord(FloorDividend(a, b), w)
  {
    hide CeilingDividend, FloorDividend;
    AdjustedSmall(a, b, MaxInt(w) + 1);
    assert Pow(2, w - 1) == 2 * Pow(2, w - 2);
  }

  lemma AdjustedSmall(a: int, b: int, p: int)
    requires -p <= a < p && -p <= b < p
    ensures -2 * p <= CeilingDividend(a, b) < 2 * p
    ensures -2 * p <= FloorDividend(a, b) < 2 * p
  {
  }

  lemma AdjustedCeiling(a: int, b: int)
    requires b != 0
    ensures Ceiling(a, b, WordDiv(CeilingDividend(a, b), b))
  {
    var q := WordDiv(CeilingDividend(a, b), b);
    WordDivTruncates(CeilingDividend(a, b), b);
  }

  lemma AdjustedFloor(a: int, b: int)
    requires b != 0
    ensures Floor(a, b, WordDiv(FloorDividend(a, b), b))
  {
    WordDivTruncates(FloorDividend(a, b), b);
  }

  method Cdiv(x: Z, y: Z, w: WordBits) returns (res: Result<Z>)
    requires Valid(x, w) && Valid(y, w)
    ensures res.DivideByZero? <==> Value(y, w) == 0
    ensures res.Ok? ==> Valid(res.value, w) && Ceiling(Value(x, w), Value(y, w), Value(res.value, w))
  {
    hide Ceiling, WordDiv, FitsInt, FitsWord, Pow, Base, Val;
    if x.Small? && y.Small? {
      var a1, a2 := x.n, y.n;
      if a2 == 0 {
        return DivideByZero;
      }
      AdjustedCeiling(a1, a2);
      if a1 > 0 && a2 > 0 {
        a1 := a1 + (a2 - 1);
      } else if a1 < 0 && a2 < 0 {
        a1 := a1 + (a2 + 1);
      }
      AdjustedFits(x.n, a2, w);
      assert FitsWord(a1, w);
      var q := WordDiv(a1, a2);
      if FitsInt(q, w) {
        return Ok(Small(q));
      }
    }
    res := Rdiv(x, y, false, w);
  }

  method Fdiv(x: Z, y: Z, w: WordBits) returns (res: Result<Z>)
    requires Valid(x, w) && Valid(y, w)
    ensures res.DivideByZero? <==> Value(y, w) == 0
    ensures res.Ok? ==> Valid(res.value, w) && Floor(Value(x, w), Value(y, w), Value(res.value, w))
  {
    hide Floor, WordDiv, FitsInt, FitsWord, Pow, Base, Val;
    if x.Small? && y.Small? {
      var a1, a2 := x.n, y.n;
      if a2 == 0 {
        return DivideByZero;
      }
      AdjustedFloor(a1, a2);
      if a1 < 0 && a2 > 0 {
        a1 := a1 - (a2 - 1);
      } else if a1 > 0 && a2 < 0 {
        a1 := a1 - (a2 + 1);
      }
      AdjustedFits(x.n, a2, w);
      assert FitsWord(a1, w);
      var q := WordDiv(a1, a2);
      if FitsInt(q, w) {
        return Ok(Small(q));
      }
    }
    res := Rdiv(x, y, true, w);
  }

  /** The remainder is never negative. */
  ghost predicate Euclidean(a: int, b: int, q: int, r: int) {
    a == q * b + r && 0 <= r < AbsInt(b)
  }

  lemma EuclideanUnique(a: int, b: int, q: int, r: int, q': int, r': int)
    requires b != 0 && Euclidean(a, b, q, r) && Euclidean(a, b, q', r')
    ensures q == q' && r == r'
  {
    assert (q - q') * b == r' - r;
    OnlyMultiple(q - q', b, r' - r);
  }

  // The truncated pair is off by one step when its remainder is negative.
  lemma TruncatedToEuclidean(a: int, b: int, q: int, r: int)
    requires b != 0 && Truncated(a, b, q, r)
    ensures if r >= 0 then Euclidean(a, b, q, r)
            else if b >= 0 then Euclidean(a, b, q - 1, r + b)
            else Euclidean(a, b, q + 1, r - b)
  {
    assert (q - 1) * b == q * b - b && (q + 1) * b == q * b + b;
  }

  lemma RoundedIsEuclidean(a: int, b: int, q: int)
    requires b != 0 && if b >= 0 then Floor(a, b, q) else Ceiling(a, b, q)
    ensures Euclidean(a, b, q, a - q * b)
  {
  }

  method EdivRem(a: Z, b: Z, w: WordBits) returns (res: Result<(Z, Z)>)
    requires Valid(a, w) && Valid(b, w)
    ensures res.DivideByZero? <==> Value(b, w) == 0
    ensures res.Ok? ==> Valid(res.value.0, w) && Valid(res.value.1, w) &&
                        Euclidean(Value(a, w), Value(b, w), Value(res.value.0, w), Value(res.value.1, w))
  {
    hide Truncated, Euclidean, Valid, Value;
    res := DivRem(a, b, w);
    if res.DivideByZero? {
      return;
    }
    var (q, r) := res.value;
    TruncatedToEuclidean(Value(a, w), Value(b, w), Value(q, w), Value(r, w));
    if Sign(r, w) < 0 {
      if Sign(b, w) >= 0 {
        q := Pred(q, w);
        r := Add(r, b, w);
      } else {
        q := Succ(q, w);
        r := Sub(r, b, w);
      }
      res := Ok((q, r));
    }
  }

  /** The quotient of EdivRem. */
  method Ediv(a: Z, b: Z, w: WordBits) returns (res: Result<Z>)
    requires Valid(a, w) && Valid(b, w)
    ensures res.DivideByZero? <==> Value(b, w) == 0
    ensures res.Ok? ==> Valid(res.value, w) &&
                        exists r :: Euclidean(Value(a, w), Value(b, w), Value(res.value, w), r)
  {
    hide Floor, Ceiling, Euclidean, Valid, Value;
    if Sign(b, w) >= 0 {
      res := Fdiv(a, b, w);
    } else {
      res := Cdiv(a, b, w);
    }
    if res.Ok? {
      RoundedIsEuclidean(Value(a, w), Value(b, w), Value(res.value, w));
    }
  }

  /** The remainder of EdivRem. */
  method Erem(a: Z, b: Z, w: WordBits) returns (res: Result<Z>)
    requires Valid(a, w) && Valid(b, w)
    ensures res.DivideByZero? <==> Value(b, w) == 0
    ensures res.Ok? ==> Valid(res.value, w) &&
                        exists q :: Euclidean(Value(a, w), Value(b, w), q, Value(res.value, w))
  {
    hide Truncated, Euclidean, Valid, Value, AbsInt;
    res := Rem(a, b, w);
    if res.DivideByZero? {
      return;
    }
    var r := res.value;
    ghost var q :| Truncated(Value(a, w), Value(b, w), q, Value(r, w));
    TruncatedToEuclidean(Value(a, w), Value(b, w), q, Value(r, w));
    if Sign(r, w) < 0 {
      var c := Abs(b, w);
      r := Add(r, c, w);
      q := if Value(b, w) >= 0 then q - 1 else q + 1;
      res := Ok(r);
    }
    assert Euclidean(Value(a, w), Value(b, w), q, Value(r, w));
  }
}
