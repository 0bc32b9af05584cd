/**
 Arithmetic on single machine digits, as the generic C macros and bng_div_aux
 compute it: every sum, difference, product and shift wraps at the word size.
 */
module BngDigit {
  import opened Arith
  import opened Bits

  /** Bits of a machine word. */
  type WordBits = w: nat | w == 32 || w == 64 witness 32

  /** One more than the largest digit. */
  function Base(w: WordBits): (b: nat)
    ensures b >= 4
  {
    PowFour(w);
    Pow(2, w)
  }

  /** One more than the largest half digit. */
  function Half(w: WordBits): (h: nat)
    ensures h >= 2
  {
    PowFour(w / 2);
    Pow(2, w / 2)
  }

  lemma PowFour(n: nat)
    requires n >= 2
    ensures Pow(2, n) >= 4
  {
    PowMono(2, 2, n);
  }

  lemma HalfSquared(w: WordBits)
    ensures Base(w) == Half(w) * Half(w)
  {
    hide Pow;
    assert w / 2 + w / 2 == w;
    PowAdd(2, w / 2, w / 2);
  }

  lemma WrapNone(x: int, b: int)
    requires 0 <= x < b
    ensures x % b == x && x / b == 0
  {
    DivUnique(x, b, 0, x);
  }

  /** The value of a machine word after it wraps. */
  function Wrap(x: int, w: WordBits): (r: nat)
    ensures r < Base(w)
    ensures 0 <= x < Base(w) ==> r == x
  {
    var b := Base(w);
    if 0 <= x < b then (WrapNone(x, b); x % b) else x % b
  }

  /** What the wrapping loses, in units of the base; negative for a borrow. */
  function Carry(x: int, w: WordBits): int { x / Base(w) }

  lemma WrapCarry(x: int, w: WordBits)
    ensures x == Carry(x, w) * Base(w) + Wrap(x, w)
  {
    hide Base;
    DivMod(x, Base(w));
  }

  // The carry and the wrapped value are determined by x.
  lemma WrapUnique(x: int, c: int, r: nat, w: WordBits)
    requires r < Base(w) && x == c * Base(w) + r
    ensures Carry(x, w) == c && Wrap(x, w) == r
  {
    hide Base;
    DivUnique(x, Base(w), c, r);
  }

  lemma WrapUp(x: int, w: WordBits)
    requires 0 <= x < 2 * Base(w)
    ensures Wrap(x, w) == if x < Base(w) then x else x - Base(w)
  {
    hide *;
    if x >= Base(w) {
      WrapUnique(x, 1, x - Base(w), w);
    }
  }

  lemma WrapDown(x: int, w: WordBits)
    requires 0 <= x + Base(w) && x < Base(w)
    ensures Wrap(x, w) == if x < 0 then x + Base(w) else x
  {
    hide *;
    if x < 0 {
      WrapUnique(x, -1, x + Base(w), w);
    }
  }

  lemma WrapTwice(x: int, y: int, w: WordBits)
    ensures Wrap(Wrap(x, w) + y, w) == Wrap(x + y, w)
  {
    hide Base;
    var b := Base(w);
    DivMod(x, b);
    DivAddMultiple(x % b + y, x / b, b);
  }

  method Add2(x: nat, y: nat, w: WordBits) returns (res: nat, carry: nat)
    requires x < Base(w) && y < Base(w)
    ensures res < Base(w) && carry <= 1 && res + carry * Base(w) == x + y
  {
    hide Base, Wrap;
    WrapUp(x + y, w);
    var tmp2 := Wrap(x + y, w);
    carry := Flag(tmp2 < x);
    res := tmp2;
  }

  method Add2Carry(x: nat, y: nat, carryIn: nat, w: WordBits) returns (res: nat, carry: nat)
    requires x < Base(w) && y < Base(w) && carryIn <= 1
    ensures res < Base(w) && carry <= 1 && res + carry * Base(w) == x + y + carryIn
  {
    hide Base, Wrap;
    WrapUp(x + y, w);
    var tmp2 := Wrap(x + y, w);
    WrapUp(tmp2 + carryIn, w);
    var tmp3 := Wrap(tmp2 + carryIn, w);
    carry := Flag(tmp2 < x) + Flag(tmp3 < tmp2);
    res := tmp3;
  }

  // The carries of the two additions are added to carryAccu, which wraps.
  method Add3(carryAccu: nat, x: nat, y: nat, z: nat, w: WordBits) returns (res: nat, accu: nat)
    requires x < Base(w) && y < Base(w) && z < Base(w) && carryAccu < Base(w)
    ensures res == Wrap(x + y + z, w)
    ensures accu == Wrap(carryAccu + Carry(x + y + z, w), w)
  {
    hide Base, Wrap, Carry;
    WrapUp(x + y, w);
    var tmp2 := Wrap(x + y, w);
    accu := Wrap(carryAccu + Flag(tmp2 < x), w);
    WrapUp(tmp2 + z, w);
    var tmp3 := Wrap(tmp2 + z, w);
    WrapTwice(carryAccu + Flag(tmp2 < x), Flag(tmp3 < tmp2), w);
    accu := Wrap(accu + Flag(tmp3 < tmp2), w);
    res := tmp3;
    WrapUnique(x + y + z, Flag(tmp2 < x) + Flag(tmp3 < tmp2), res, w);
  }

  method Sub2(x: nat, y: nat, w: WordBits) returns (res: nat, carry: nat)
    requires x < Base(w) && y < Base(w)
    ensures res < Base(w) && carry <= 1 && res + y == x + carry * Base(w)
  {
    hide Base, Wrap;
    WrapDown(x - y, w);
    res := Wrap(x - y, w);
    carry := Flag(x < y);
  }

  method Sub2Carry(x: nat, y: nat, carryIn: nat, w: WordBits) returns (res: nat, carry: nat)
    requires x < Base(w) && y < Base(w) && carryIn <= 1
    ensures res < Base(w) && carry <= 1 && res + y + carryIn == x + carry * Base(w)
  {
    hide Base, Wrap;
    WrapDown(x - y, w);
    var tmp3 := Wrap(x - y, w);
    WrapDown(tmp3 - carryIn, w);
    res := Wrap(tmp3 - carryIn, w);
    carry := Flag(x < y) + Flag(tmp3 < carryIn);
  }

  // The borrows of the two subtractions are added to carryAccu, which wraps.
  method Sub3(carryAccu: nat, x: nat, y: nat, z: nat, w: WordBits) returns (res: nat, accu: nat)
    requires x < Base(w) && y < Base(w) && z < Base(w) && carryAccu < Base(w)
    ensures res == Wrap(x - y - z, w)
    ensures accu == Wrap(carryAccu - Carry(x - y - z, w), w)
  {
    hide Base, Wrap, Carry;
    WrapDown(x - y, w);
    var tmp4 := Wrap(x - y, w);
    WrapDown(tmp4 - z, w);
    res := Wrap(tmp4 - z, w);
    ghost var c: int := Flag(x < y) + Flag(tmp4 < z);
    WrapUnique(x - y - z, -c, res, w);
    accu := Wrap(carryAccu + Flag(x < y) + Flag(tmp4 < z), w);
  }

  /** Shifts within one word: bits leave it on both sides. */
  function Shl(x: nat, s: nat, w: WordBits): (r: nat)
    ensures r < Base(w)
  {
    Wrap(x * Pow(2, s), w)
  }

  function Shr(x: nat, s: nat): nat { x / Pow(2, s) }

  function LowHalf(d: nat, w: WordBits): (l: nat)
    ensures l < Half(w)
  {
    LowHalfBound(d, w);
    And(d, Half(w) - 1)
  }

  lemma LowHalfBound(d: nat, w: WordBits)
    ensures And(d, Half(w) - 1) < Half(w)
  {
    hide *;
    AndBound(d, Half(w) - 1);
  }

  function HighHalf(d: nat, w: WordBits): nat { Shr(d, w / 2) }

  lemma HalvesValue(d: nat, w: WordBits)
    ensures d == HighHalf(d, w) * Half(w) + LowHalf(d, w)
  {
    hide And, Pow;
    AndMask(d, w / 2);
    DivMod(d, Half(w));
  }

  lemma Halves(d: nat, w: WordBits)
    ensures d == HighHalf(d, w) * Half(w) + LowHalf(d, w)
    ensures d < Base(w) ==> HighHalf(d, w) < Half(w)
  {
    HalvesValue(d, w);
    hide *;
    HalfSquared(w);
    if d < Base(w) {
      MulCancelLt(HighHalf(d, w), Half(w), Half(w));
    }
  }

  // Shifting a digit up by half a word keeps its low half.
  lemma ShlHalf(x: nat, w: WordBits)
    ensures Shl(x, w / 2, w) == LowHalf(x, w) * Half(w)
  {
    hide Pow, LowHalf, HighHalf;
    HalfSquared(w);
    Halves(x, w);
    LowUp(HighHalf(x, w), LowHalf(x, w), Half(w));
  }

  lemma LowUp(xh: nat, xl: nat, h: nat)
    requires xl < h
    ensures 0 < h * h && ((xh * h + xl) * h) % (h * h) == xl * h
  {
    MulStrict(xl, h, h);
    MulMono(0, xl, h);
    LowUpValue(xh, xl, h);
    DivUnique((xh * h + xl) * h, h * h, xh, xl * h);
  }

  lemma LowUpValue(xh: int, xl: int, h: int)
    ensures (xh * h + xl) * h == xh * (h * h) + xl * h
  {
  }

  lemma ProductBound(x: nat, y: nat, h: nat)
    requires x < h && y < h
    ensures x * y <= (h - 1) * (h - 1) && (h - 1) * (h - 1) == h * h - 2 * h + 1
  {
    MulMono(x, h - 1, y);
    MulMono(y, h - 1, h - 1);
  }

  // The schoolbook product from half digits, its middle products split in two.
  lemma Schoolbook(xh: nat, xl: nat, yh: nat, yl: nat, q1: nat, r1: nat, q2: nat, r2: nat, h: nat)
    requires xl * yh == q1 * h + r1 && xh * yl == q2 * h + r2
    ensures (xh * h + xl) * (yh * h + yl) == (xh * yh + q1 + q2) * (h * h) + (xl * yl + r1 * h + r2 * h)
  {
    Foil(xh, xl, yh, yl, h);
    SplitMiddle(xh * yh, q1, r1, q2, r2, h);
  }

  lemma Foil(xh: int, xl: int, yh: int, yl: int, h: int)
    ensures (xh * h + xl) * (yh * h + yl) == (xh * yh) * (h * h) + (xl * yh + xh * yl) * h + xl * yl
  {
  }

  lemma SplitMiddle(top: int, q1: int, r1: int, q2: int, r2: int, h: int)
    ensures top * (h * h) + ((q1 * h + r1) + (q2 * h + r2)) * h == (top + q1 + q2) * (h * h) + r1 * h + r2 * h
  {
  }

  // A product of two half digits is a digit.
  lemma HalfProductFits(x: nat, y: nat, w: WordBits)
    requires x < Half(w) && y < Half(w)
    ensures 0 <= x * y <= Base(w) - 2 * Half(w) + 1
  {
    hide Half, Base;
    HalfSquared(w);
    MulMono(0, x, y);
    ProductBound(x, y, Half(w));
  }

  // None of the four partial products wraps, nor does the sum of the high ones;
  // with the middle ones split between the digits, they add up to the product.
  lemma PartialProducts(x: nat, y: nat, p11: nat, p12: nat, p21: nat, p22: nat, top: nat, w: WordBits)
    requires x < Base(w) && y < Base(w)
    requires p11 == Wrap(LowHalf(x, w) * LowHalf(y, w), w) && p12 == Wrap(LowHalf(x, w) * HighHalf(y, w), w)
    requires p21 == Wrap(HighHalf(x, w) * LowHalf(y, w), w) && p22 == Wrap(HighHalf(x, w) * HighHalf(y, w), w)
    requires top == Wrap(Wrap(p22 + HighHalf(p12, w), w) + HighHalf(p21, w), w)
    ensures top * Base(w) + (p11 + Shl(p12, w / 2, w) + Shl(p21, w / 2, w)) == x * y
  {
    hide *;
    Halves(x, w); Halves(y, w); Halves(p12, w); Halves(p21, w);
    var xl, xh, yl, yh := LowHalf(x, w), HighHalf(x, w), LowHalf(y, w), HighHalf(y, w);
    HalfProductFits(xl, yl, w); HalfProductFits(xl, yh, w);
    HalfProductFits(xh, yl, w); HalfProductFits(xh, yh, w);
    HalfSquared(w);
    ShlHalf(p12, w); ShlHalf(p21, w);
    Schoolbook(xh, xl, yh, yl, HighHalf(p12, w), LowHalf(p12, w), HighHalf(p21, w), LowHalf(p21, w), Half(w));
  }

  // The high digit, with the carries of the low part, and the low part wrapped.
  lemma ProductDigits(x: nat, y: nat, top: nat, low: nat, w: WordBits)
    requires x < Base(w) && y < Base(w) && top * Base(w) + low == x * y
    ensures Wrap(top + Carry(low, w), w) * Base(w) + Wrap(low, w) == x * y
  {
    hide *;
    MulNonNeg(x, y);
    ProductBound(x, y, Base(w));
    TopFits(x * y, top, low, w);
  }

  /** The exact double-digit product of two digits. */
  method Mult(x: nat, y: nat, w: WordBits) returns (resh: nat, resl: nat)
    requires x < Base(w) && y < Base(w)
    ensures resh < Base(w) && resl < Base(w) && resh * Base(w) + resl == x * y
  {
    hide *;
    var p11 := Wrap(LowHalf(x, w) * LowHalf(y, w), w);
    var p12 := Wrap(LowHalf(x, w) * HighHalf(y, w), w);
    var p21 := Wrap(HighHalf(x, w) * LowHalf(y, w), w);
    var p22 := Wrap(HighHalf(x, w) * HighHalf(y, w), w);
    resh := Wrap(Wrap(p22 + HighHalf(p12, w), w) + HighHalf(p21, w), w);
    ghost var top := resh;
    resl, resh := Add3(resh, p11, Shl(p12, w / 2, w), Shl(p21, w / 2, w), w);
    PartialProducts(x, y, p11, p12, p21, p22, top, w);
    ProductDigits(x, y, top, p11 + Shl(p12, w / 2, w) + Shl(p21, w / 2, w), w);
  }

  // A two-digit number keeps its value when the carries of its low part are added
  // to its high digit: that digit never wraps.
  lemma TopFits(v: int, top: nat, low: nat, w: WordBits)
    requires v == top * Base(w) + low && 0 <= v < Base(w) * Base(w)
    ensures Wrap(top + Carry(low, w), w) * Base(w) + Wrap(low, w) == v
  {
    hide *;
    WrapCarry(low, w);
    var q := top + Carry(low, w);
    DistributeAdd(top, Carry(low, w), Base(w));
    assert v == q * Base(w) + Wrap(low, w);
    QuotientFits(v, q, Base(w), Wrap(low, w));
  }

  lemma QuotientFits(v: int, q: int, b: nat, r: nat)
    requires r < b && v == q * b + r && 0 <= v < b * b
    ensures 0 <= q < b
  {
    MulCancelLt(q, b, b);
    if q < 0 {
      MulMono(q, -1, b);
    }
  }

  /** One digit of a multiply-accumulate: nothing overflows the high digit. */
  method MultAdd3(x: nat, bd: nat, d: nat, out: nat, w: WordBits) returns (res: nat, ph: nat)
    requires x < Base(w) && bd < Base(w) && d < Base(w) && out < Base(w)
    ensures res < Base(w) && ph < Base(w) && res + ph * Base(w) == x + out + bd * d
  {
    hide *;
    var pl;
    ph, pl := Mult(bd, d, w);
    MulNonNeg(bd, d);
    ProductBound(bd, d, Base(w));
    TopFits(x + out + bd * d, ph, x + pl + out, w);
    res, ph := Add3(ph, x, pl, out, w);
  }

  /** One digit of a multiply-subtract: the borrows do not overflow the high digit. */
  method MultSub3(x: nat, bd: nat, d: nat, out: nat, w: WordBits) returns (res: nat, ph: nat)
    requires x < Base(w) && bd < Base(w) && d < Base(w) && out < Base(w)
    ensures res < Base(w) && ph < Base(w) && res - ph * Base(w) == x - out - bd * d
  {
    hide *;
    var pl;
    ph, pl := Mult(bd, d, w);
    ProductBound(bd, d, Base(w));
    BorrowFits(bd * d, ph, pl, x, out, w);
    res, ph := Sub3(ph, x, pl, out, w);
  }

  lemma BorrowFits(p: int, ph: nat, pl: nat, x: nat, z: nat, w: WordBits)
    requires x < Base(w) && z < Base(w)
    requires p == ph * Base(w) + pl && 0 <= p <= Base(w) * Base(w) - 2 * Base(w) + 1
    ensures Wrap(x - pl - z, w) - Wrap(ph - Carry(x - pl - z, w), w) * Base(w) == x - z - p
  {
    hide *;
    WrapCarry(x - pl - z, w);
    var c, r: int := Carry(x - pl - z, w), Wrap(x - pl - z, w);
    DistributeSub(ph, c, Base(w));
    NotNegative(ph - c, Base(w), p + z - x + r);
    QuotientFits(p + z - x + r, ph - c, Base(w), 0);
  }

  lemma DistributeAdd(x: int, y: int, z: int)
    ensures (x + y) * z == x * z + y * z
  {
  }

  lemma DistributeSub(x: int, y: int, z: int)
    ensures (x - y) * z == x * z - y * z
  {
  }

  lemma NotNegative(q: int, b: nat, v: int)
    requires q * b == v && -(b as int) < v
    ensures 0 <= v
  {
    if q < 0 {
      MulMono(q, -1, b);
    }
  }

  /**
   The quotient estimate both divisions share, in any base b: dividing the top u
   of the numerator by one more than the top digit t of the divisor never gives
   too much, gives one digit, and for a divisor whose top digit is at least half
   the base falls short by at most two.
   */
  lemma Estimate(N: int, D: nat, u: nat, t: nat, q: nat, p: nat, b: nat)
    requires 0 < p && t * p <= D < (t + 1) * p
    requires u * p <= N < (u + 1) * p
    requires N < D * b
    requires q * (t + 1) <= u < q * (t + 1) + (t + 1)
    ensures q * D <= N && q < b
    ensures b <= 2 * t ==> N < (q + 3) * D
  {
    EstimateLow(N, D, u, t, p, q);
    MulCancelLt(q, b, D);
    if b <= 2 * t {
      EstimateHigh(N, D, u, t, p, q);
    }
  }

  lemma EstimateLow(N: int, D: nat, u: nat, t: nat, p: nat, q: nat)
    requires D <= (t + 1) * p && u * p <= N && q * (t + 1) <= u
    ensures q * D <= N
  {
    MulMono(D, (t + 1) * p, q);
    MulAssoc(q, t + 1, p);
    MulMono(q * (t + 1), u, p);
  }

  lemma EstimateHigh(N: int, D: nat, u: nat, t: nat, p: nat, q: nat)
    requires t * p <= D && N < (u + 1) * p && u < q * (t + 1) + (t + 1) && q < 2 * t
    ensures N < (q + 3) * D
  {
    assert q * (t + 1) == q * t + q;
    assert (q + 3) * t == q * t + 3 * t;
    MulMono(u + 1, (q + 3) * t, p);
    MulAssoc(q + 3, t, p);
    MulMono(t * p, D, q + 3);
  }

  // Joining a low half and a shifted high half.
  lemma Join(hi: nat, lo: nat, w: WordBits)
    requires lo < Half(w)
    ensures Or(lo, Shl(hi, w / 2, w)) == LowHalf(hi, w) * Half(w) + lo
    ensures Or(Shl(hi, w / 2, w), lo) == LowHalf(hi, w) * Half(w) + lo
  {
    ShlHalf(hi, w);
    OrComm(lo, Shl(hi, w / 2, w));
    OrDisjoint(LowHalf(hi, w), lo, w / 2);
  }

  // Subtracting a digit from a two-digit number, with a borrow between words.
  lemma SubPair(nh: nat, nl: nat, p: nat, w: WordBits)
    requires nh < Base(w) && nl < Base(w) && p < Base(w) && nh * Base(w) + nl >= p
    ensures var h, l := Wrap(nh - Flag(nl < p), w), Wrap(nl - p, w);
            h < Base(w) && l < Base(w) && h * Base(w) + l == nh * Base(w) + nl - p
  {
    hide Base, Wrap;
    WrapDown(nl - p, w);
    assert nl < p ==> nh >= 1;
    assert (nh - 1) * Base(w) == nh * Base(w) - Base(w);
  }

  // A normalised divisor has a top half digit of at least half its base.
  lemma NormalisedHalf(d: nat, w: WordBits)
    requires Base(w) <= 2 * d
    ensures Half(w) <= 2 * HighHalf(d, w)
  {
    HalfSquared(w);
    HalfEven(w);
    hide *;
    Halves(d, w);
    var h, dh := Half(w), HighHalf(d, w);
    assert (2 * dh + 2) * h == 2 * (dh * h) + 2 * h;
    MulCancelLt(h, 2 * dh + 2, h);
  }

  lemma HalfEven(w: WordBits)
    ensures Half(w) % 2 == 0
  {
    DivUnique(Half(w), 2, Pow(2, w / 2 - 1), 0);
  }

  /** The quotient of two digits. */
  function Quot(u: nat, t: nat): (q: nat)
    requires t > 0
    ensures q * t <= u < q * t + t
  {
    DivMod(u, t);
    u / t
  }

  // A number by its quotient and remainder, between multiples.
  lemma BetweenMultiples(u: nat, x: nat, d: nat, h: nat)
    requires x < h && u < d
    ensures 0 <= u * h <= u * h + x < (u + 1) * h <= d * h
  {
    MulNonNeg(u, h);
    MulMono(u + 1, d, h);
  }

  // One of the two stages of bng_div_aux: u is the part of the numerator the half
  // quotient is estimated from, x the half digit below it.
  lemma HalfStage(u: nat, x: nat, d: nat, q: nat, w: WordBits)
    requires u < d < Base(w) && x < Half(w) && q == Quot(u, HighHalf(d, w) + 1)
    ensures q < Half(w) && q * d <= u * Half(w) + x < d * Half(w)
    ensures Base(w) <= 2 * d ==> u * Half(w) + x < (q + 3) * d
  {
    hide *;
    var h := Half(w);
    Halves(d, w);
    if Base(w) <= 2 * d {
      NormalisedHalf(d, w);
    }
    BetweenMultiples(u, x, d, h);
    BetweenMultiples(HighHalf(d, w), LowHalf(d, w), HighHalf(d, w) + 1, h);
    Estimate(u * h + x, d, u, HighHalf(d, w), q, h, h);
  }

  // Neither product of the estimate wraps, and subtracting the high one first
  // leaves the low one to subtract.
  lemma StageProducts(u: nat, x: nat, d: nat, q: nat, w: WordBits)
    requires u < d < Base(w) && x < Half(w) && q == Quot(u, HighHalf(d, w) + 1) && q < Half(w)
    ensures 0 <= q * HighHalf(d, w) <= u && 0 <= q * LowHalf(d, w) < Base(w)
    ensures (u - q * HighHalf(d, w)) * Half(w) + x == u * Half(w) + x - q * d + q * LowHalf(d, w)
  {
    hide *;
    var dh := HighHalf(d, w);
    assert q * (dh + 1) == q * dh + q;
    MulMono(0, q, dh);
    HalfProductFits(q, LowHalf(d, w), w);
    Halves(d, w);
    StageValue(u, x, q, dh, LowHalf(d, w), Half(w));
  }

  lemma StageValue(u: int, x: int, q: int, dh: int, dl: int, h: int)
    ensures (u - q * dh) * h + x == (u * h + x) - q * (dh * h + dl) + q * dl
  {
  }

  // The part of the numerator one stage works on.
  ghost function Pair(nh: nat, nl: nat, w: WordBits): nat { nh * Base(w) + nl }

  // What the adjusting loops keep: hi:lo is the numerator less q times the divisor.
  ghost predicate Adjusting(N: nat, q: nat, d: nat, nh: nat, nl: nat, w: WordBits) {
    nh < Base(w) && nl < Base(w) && q < Half(w) && Pair(nh, nl, w) + q * d == N
  }

  lemma AdjustStep(N: nat, q: nat, d: nat, nh: nat, nl: nat, w: WordBits)
    requires 0 < d < Base(w) && N < d * Half(w) && Adjusting(N, q, d, nh, nl, w)
    requires nh != 0 || nl >= d
    ensures Wrap(q + 1, w) == q + 1
    ensures Adjusting(N, q + 1, d, Wrap(nh - Flag(nl < d), w), Wrap(nl - d, w), w)
    ensures Pair(Wrap(nh - Flag(nl < d), w), Wrap(nl - d, w), w) == Pair(nh, nl, w) - d
  {
    hide Half;
    if nh > 0 {
      MulMono(1, nh, Base(w));
    }
    SubPair(nh, nl, d, w);
    assert (q + 1) * d == q * d + d;
    MulCancelLt(q + 1, Half(w), d);
    HalfSquared(w);
    MulMono(2, Half(w), Half(w));
  }

  // How many corrections an estimate within three of the quotient can need.
  lemma AtMostTwo(N: nat, q0: nat, q: nat, d: nat)
    requires N < (q0 + 3) * d && q * d <= N
    ensures q <= q0 + 2
  {
    MulCancelLt(q, q0 + 3, d);
  }

  // What is left of u after the high product, its low half joined with x, is the
  // numerator less q * d plus the low product.
  lemma StagePair(u: nat, x: nat, d: nat, q: nat, n1: nat, nl: nat, w: WordBits)
    requires u < d < Base(w) && x < Half(w) && q == Quot(u, HighHalf(d, w) + 1) && q < Half(w)
    requires n1 == u - q * HighHalf(d, w) && nl == LowHalf(n1, w) * Half(w) + x
    ensures nl < Base(w)
    ensures Pair(HighHalf(n1, w), nl, w) == u * Half(w) + x - q * d + q * LowHalf(d, w)
  {
    hide Base, Half, LowHalf, HighHalf, Pow;
    HalfSquared(w); Halves(n1, w);
    StageProducts(u, x, d, q, w);
    JoinedPair(HighHalf(n1, w), LowHalf(n1, w), x, Half(w));
  }

  // Both stages, up to the loop: the estimate is low, by at most two when d is
  // normalised, and the numerator is reduced by exactly what was estimated.
  lemma Stage(N: nat, u: nat, x: nat, d: nat, q: nat, n1: nat, nl: nat, pl: nat, w: WordBits)
    requires u < d < Base(w) && x < Half(w) && q == Quot(u, HighHalf(d, w) + 1)
    requires n1 == Wrap(u - Wrap(q * HighHalf(d, w), w), w)
    requires nl == LowHalf(n1, w) * Half(w) + x
    requires pl == Wrap(q * LowHalf(d, w), w) && N == u * Half(w) + x
    ensures N < d * Half(w)
    ensures Base(w) <= 2 * d ==> N < (q + 3) * d
    ensures Adjusting(N, q, d, Wrap(HighHalf(n1, w) - Flag(nl < pl), w), Wrap(nl - pl, w), w)
  {
    hide *;
    HalfStage(u, x, d, q, w);
    StageProducts(u, x, d, q, w);
    StagePair(u, x, d, q, n1, nl, w);
    HighFits(n1, w);
    StageFinish(N, q, d, HighHalf(n1, w), nl, pl, w);
  }

  lemma HighFits(x: nat, w: WordBits)
    requires x < Base(w)
    ensures HighHalf(x, w) < Base(w)
  {
    hide HighHalf, LowHalf, Half;
    Halves(x, w);
    HalfSquared(w);
    MulMono(1, Half(w), Half(w));
  }

  lemma JoinedPair(hi: nat, lo: nat, x: nat, h: nat)
    requires lo < h && x < h
    ensures hi * (h * h) + (lo * h + x) == (hi * h + lo) * h + x
    ensures lo * h + x < h * h
  {
    MulMono(lo + 1, h, h);
  }

  lemma StageFinish(N: nat, q: nat, d: nat, nh: nat, nl: nat, pl: nat, w: WordBits)
    requires nh < Base(w) && nl < Base(w) && pl < Base(w) && q < Half(w)
    requires q * d <= N && Pair(nh, nl, w) == N - q * d + pl
    ensures Adjusting(N, q, d, Wrap(nh - Flag(nl < pl), w), Wrap(nl - pl, w), w)
  {
    hide Base, Half;
    SubPair(nh, nl, pl, w);
  }

  /** The adjusting loop both stages end with. */
  method Adjust(nh0: nat, nl0: nat, q0: nat, d: nat, ghost N: nat, w: WordBits)
    returns (q: nat, nl: nat)
    requires 0 < d < Base(w) && N < d * Half(w) && Adjusting(N, q0, d, nh0, nl0, w)
    ensures q0 <= q < Half(w) && nl < d && N == q * d + nl
  {
    hide Base, Half, Pow;
    var nh: nat := nh0;
    nl, q := nl0, q0;
    while nh != 0 || nl >= d
      invariant Adjusting(N, q, d, nh, nl, w) && q0 <= q
      decreases Pair(nh, nl, w)
    {
      AdjustStep(N, q, d, nh, nl, w);
      nh := Wrap(nh - Flag(nl < d), w);
      nl := Wrap(nl - d, w);
      q := Wrap(q + 1, w);
    }
  }

  // The two stages together divide the whole numerator.
  lemma TwoStages(nh: nat, top: nat, low: nat, qh: nat, ql: nat, r: nat, rem: nat, d: nat, h: nat)
    requires nh * h + top == qh * d + r && r * h + low == ql * d + rem
    ensures nh * (h * h) + (top * h + low) == (qh * h + ql) * d + rem
  {
    assert (nh * h + top) * h == nh * (h * h) + top * h;
    assert (qh * d + r) * h == (qh * h) * d + r * h;
  }

  // The top half of the quotient, from the top digit and a half of the numerator.
  method HighStage(nh0: nat, nl0: nat, d: nat, w: WordBits) returns (qh: nat, r: nat, ghost fixes: nat)
    requires nh0 < d < Base(w) && nl0 < Base(w)
    ensures qh < Half(w) && r < d && nh0 * Half(w) + HighHalf(nl0, w) == qh * d + r
    ensures Base(w) <= 2 * d ==> fixes <= 2
  {
    hide *;
    var nh: nat, nl: nat := nh0, nl0;
    Halves(nl0, w);
    AddNonZero(d, w);
    qh := Quot(nh, Wrap(HighHalf(d, w) + 1, w));
    MulMono(0, nh0, Half(w));
    ghost var N: nat, qh0: nat := nh0 * Half(w) + HighHalf(nl0, w), qh;
    var ph, pl := Wrap(qh * HighHalf(d, w), w), Wrap(qh * LowHalf(d, w), w);
    nh := Wrap(nh - ph, w);
    Join(nh, HighHalf(nl, w), w);
    nl := Or(HighHalf(nl, w), Shl(nh, w / 2, w));
    Stage(N, nh0, HighHalf(nl0, w), d, qh, nh, nl, pl, w);
    nh := HighHalf(nh, w);
    nh := Wrap(nh - Flag(nl < pl), w);
    nl := Wrap(nl - pl, w);
    qh, r := Adjust(nh, nl, qh, d, N, w);
    fixes := qh - qh0;
    if Base(w) <= 2 * d {
      AtMostTwo(N, qh0, qh, d);
    }
  }

  // The bottom half, from the remainder so far and the low bits saved earlier.
  method LowStage(r: nat, nsaved: nat, d: nat, w: WordBits) returns (ql: nat, rem: nat, ghost fixes: nat)
    requires r < d < Base(w) && nsaved < Half(w)
    ensures ql < Half(w) && rem < d && r * Half(w) + nsaved == ql * d + rem
    ensures Base(w) <= 2 * d ==> fixes <= 2
  {
    hide *;
    var nl: nat := r;
    AddNonZero(d, w);
    ql := Quot(nl, Wrap(HighHalf(d, w) + 1, w));
    MulMono(0, r, Half(w));
    ghost var N: nat, ql0: nat := r * Half(w) + nsaved, ql;
    var ph, pl := Wrap(ql * HighHalf(d, w), w), Wrap(ql * LowHalf(d, w), w);
    nl := Wrap(nl - ph, w);
    var nh := HighHalf(nl, w);
    Join(nl, nsaved, w);
    ghost var n1 := nl;
    nl := Or(Shl(nl, w / 2, w), nsaved);
    Stage(N, r, nsaved, d, ql, n1, nl, pl, w);
    nh := Wrap(nh - Flag(nl < pl), w);
    nl := Wrap(nl - pl, w);
    ql, rem := Adjust(nh, nl, ql, d, N, w);
    fixes := ql - ql0;
    if Base(w) <= 2 * d {
      AtMostTwo(N, ql0, ql, d);
    }
  }

  /**
   Divides the two digits nh:nl by d. Each half quotient is estimated and then
   corrected, at most twice when d is normalised.
   */
  method DivAux(nh: nat, nl: nat, d: nat, w: WordBits)
    returns (quo: nat, rem: nat, ghost highFixes: nat, ghost lowFixes: nat)
    requires nh < d < Base(w) && nl < Base(w)
    ensures quo < Base(w) && rem < d && nh * Base(w) + nl == quo * d + rem
    ensures Base(w) <= 2 * d ==> highFixes <= 2 && lowFixes <= 2
  {
    hide *;
    var nsaved := LowHalf(nl, w);
    var qh, r, ql;
    qh, r, highFixes := HighStage(nh, nl, d, w);
    ql, rem, lowFixes := LowStage(r, nsaved, d, w);
    SmallHalf(qh, w);
    Join(qh, ql, w);
    quo := Or(Shl(qh, w / 2, w), ql);
    HalfSquared(w); Halves(nl, w);
    JoinedPair(0, qh, ql, Half(w));
    TwoStages(nh, HighHalf(nl, w), nsaved, qh, ql, r, rem, d, Half(w));
  }

  lemma AddNonZero(d: nat, w: WordBits)
    requires d < Base(w)
    ensures Wrap(HighHalf(d, w) + 1, w) == HighHalf(d, w) + 1
  {
    hide Wrap;
    HalfSquared(w); Halves(d, w);
    MulMono(2, Half(w), Half(w));
  }

  lemma SmallHalf(x: nat, w: WordBits)
    requires x < Half(w)
    ensures LowHalf(x, w) == x
  {
    hide LowHalf, HighHalf, Half;
    Halves(x, w);
    if HighHalf(x, w) > 0 {
      MulMono(1, HighHalf(x, w), Half(w));
    }
  }
}
