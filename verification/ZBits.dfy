/**
 Shifts and bit fields of Zarith integers: the sign and magnitude code agrees with
 floor division of the value by a power of two.
 */
module ZBits {
  import opened Wrappers
  import opened Arith
  import opened Bits
  import opened Digits
  import opened BngDigit
  import opened ZRep
  import opened ZLogic

  // Splitting a bit offset into limbs and bits splits the power of two.
  lemma OffsetPow(w: WordBits, c: nat)
    ensures c == w * (c / w) + c % w
    ensures Pow(2, c) == Pow(Base(w), c / w) * Pow(2, c % w)
    ensures Pow(Base(w), c / w) > 0 && Pow(2, c % w) > 0
  {
    hide Pow;
    DivMod(c, w);
    PowMul(2, w, c / w);
    PowAdd(2, w * (c / w), c % w);
    PowPositive(w * (c / w));
    PowPositive(c % w);
  }

  // Floor division of the opposite rounds the quotient up.
  lemma NegFloor(m: int, p: int)
    requires p > 0
    ensures (-m) / p == -(m / p) - Flag(m % p != 0)
  {
    DivMod(m, p);
    NegMul(m / p, p);
    if m % p == 0 {
      DivUnique(-m, p, -(m / p), 0);
    } else {
      assert -m == (-(m / p) - 1) * p + (p - m % p);
      DivUnique(-m, p, -(m / p) - 1, p - m % p);
    }
  }

  // A number within k bits and a sign is shifted down to its sign.
  lemma ShiftedOut(x: int, k: nat, c: nat)
    requires 0 <= x + Pow(2, k) && x < Pow(2, k) && k <= c
    ensures x / Pow(2, c) == if x < 0 then -1 else 0
  {
    PowMono(2, k, c);
    DivUnique(x, Pow(2, c), if x < 0 then -1 else 0, if x < 0 then x + Pow(2, c) else x);
  }

  /**
   Shifting the limbs of p down by c bits: the limbs from c / w on, shifted by the
   rest, are the floor, and what is lost is not zero when the limbs below or the
   bits shifted out are not.
   */
  lemma FloorOfLimbs(p: seq<nat>, c: nat, w: WordBits)
    requires IsDigits(p, Base(w)) && c / w <= |p|
    ensures Pow(2, c) > 0 && Pow(2, c % w) > 0
    ensures Val(p, Base(w)) / Pow(2, c) == Val(p[c / w..], Base(w)) / Pow(2, c % w)
    ensures Val(p, Base(w)) % Pow(2, c) != 0 <==>
            Val(p[..c / w], Base(w)) != 0 || Val(p[c / w..], Base(w)) % Pow(2, c % w) != 0
  {
    hide Base, Val, Pow;
    var m, v, q, r := c / w, Val(p, Base(w)), Pow(Base(w), c / w), Pow(2, c % w);
    OffsetPow(w, c);
    PowPositive(c);
    ValDrop(p, Base(w), m);
    DivDiv(v, q, r);
    SumIsZero((v / q) % r, q, v % q);
  }

  lemma SumIsZero(h: nat, q: nat, l: nat)
    requires q > 0
    ensures h * q + l == 0 <==> h == 0 && l == 0
  {
    if h > 0 {
      MulMono(1, h, q);
    }
  }

  /** mpn_rshift: the bits shifted out come back in the high part of a limb. */
  method MpnRshift(r: array<nat>, p: seq<nat>, n: nat, count: nat, w: WordBits) returns (out: nat)
    requires 0 < n <= r.Length && n <= |p| && IsDigits(p[..n], Base(w)) && 0 < count < w
    modifies r
    ensures IsDigits(r[..n], Base(w)) && r[n..] == old(r[n..])
    ensures Pow(2, count) > 0 && Val(r[..n], Base(w)) == Val(p[..n], Base(w)) / Pow(2, count)
    ensures out == (Val(p[..n], Base(w)) % Pow(2, count)) * Pow(2, w - count)
  {
    hide Base, Val, Pow;
    ghost var v: nat := Val(p[..n], Base(w));
    PowPositive(count);
    ValBound(p[..n], Base(w));
    DivShrinks(v, Pow(2, count));
    var rest := Store(r, n, Val(p[..n], Base(w)) / Pow(2, count), w);
    StoreRest(r[..n], rest, v / Pow(2, count), w);
    MulNonNeg(v % Pow(2, count), Pow(2, w - count));
    out := (Val(p[..n], Base(w)) % Pow(2, count)) * Pow(2, w - count);
  }

  lemma DivShrinks(v: nat, d: nat)
    requires d > 0
    ensures 0 <= v / d <= v
  {
    DivMod(v, d);
    MulMono(1, d, v / d);
  }

  // A limb that carries the bits shifted out is zero when they are.
  lemma OutIsZero(x: nat, p: nat)
    requires p > 0
    ensures x * p == 0 <==> x == 0
  {
    if x > 0 {
      MulMono(1, x, p);
    }
  }

  /** Whether cr or one of the n low limbs of p is not zero. */
  method ScanLow(start: nat, p: seq<nat>, n: nat, w: WordBits) returns (cr: nat)
    requires n <= |p|
    ensures cr != 0 <==> start != 0 || Val(p[..n], Base(w)) != 0
  {
    hide Base, Val, Pow;
    cr := start;
    var i: nat := 0;
    while cr == 0 && i < n
      invariant i <= n
      invariant cr == 0 ==> start == 0 && forall k :: 0 <= k < i ==> p[k] == 0
      invariant cr != 0 ==> start != 0 || exists k :: 0 <= k < n && p[k] != 0
    {
      cr := p[i];
      i := i + 1;
    }
    ZeroLimbs(p[..n], w);
    assert forall k :: 0 <= k < n ==> p[..n][k] == p[k];
  }

  lemma ZeroLimbs(s: seq<nat>, w: WordBits)
    ensures Val(s, Base(w)) == 0 <==> forall k :: 0 <= k < |s| ==> s[k] == 0
  {
    hide Base, Val;
    if Val(s, Base(w)) == 0 {
      ValIsZero(s, Base(w));
    }
    if forall k :: 0 <= k < |s| ==> s[k] == 0 {
      ValZero(s, Base(w));
    }
  }

  /**
   The limbs of p from c / w on, shifted down by the other bits of c, into the n
   limbs of r: shifted when there are bits to shift, copied otherwise.
   */
  method ShiftLimbs(r: array<nat>, p: seq<nat>, n: nat, c: nat, w: WordBits) returns (cr: nat)
    requires 0 < n <= r.Length && c / w + n <= |p| && IsDigits(p, Base(w))
    modifies r
    ensures IsDigits(r[..n], Base(w)) && r[n..] == old(r[n..])
    ensures Pow(2, c % w) > 0
    ensures Val(r[..n], Base(w)) == Val(p[c / w..c / w + n], Base(w)) / Pow(2, c % w)
    ensures cr != 0 <==> Val(p[c / w..c / w + n], Base(w)) % Pow(2, c % w) != 0
  {
    hide Base, Val, Pow;
    ghost var t := p[c / w..c / w + n];
    var q := p[c / w..];
    assert q[..n] == t;
    PowPositive(c % w);
    if c % w != 0 {
      cr := MpnRshift(r, q, n, c % w, w);
      PowPositive(w - c % w);
      OutIsZero(Val(t, Base(w)) % Pow(2, c % w), Pow(2, w - c % w));
    } else {
      CopyRest(r, q[..n], 0);
      assert r[..n] == t;
      PowZero(2);
      cr := 0;
    }
  }

  /** Arithmetic shift right: the floor of the value divided by 2^count. */
  method ShiftRight(x: Z, count: int, w: WordBits) returns (res: Result<Z>)
    requires Valid(x, w)
    ensures count < 0 <==> res.InvalidArgument?
    ensures count >= 0 ==> Pow(2, count) > 0 && Valid(res.value, w) &&
                           Value(res.value, w) == Value(x, w) / Pow(2, count)
  {
    hide Base, Val, Pow, Unpack, Normal;
    if count < 0 {
      return InvalidArgument;
    }
    PowPositive(count);
    if count == 0 {
      PowZero(2);
      return Ok(x);
    }
    if x.Small? {
      var n := ShiftSmall(x.n, count, w);
      return Ok(Small(n));
    }
    var a := Unpack(x, w);
    var z := ShiftArg(a, count, w);
    res := Ok(z);
  }

  /** The fast path, on the tagged word. */
  method ShiftSmall(n: int, c: nat, w: WordBits) returns (m: int)
    requires FitsInt(n, w) && c > 0
    ensures FitsInt(m, w) && Pow(2, c) > 0 && m == n / Pow(2, c)
  {
    hide Pow;
    PowPositive(c);
    if c / w != 0 {
      SmallRange(n, w);
      DivMod(c, w);
      MulMono(1, c / w, w);
      ShiftedOut(n, w - 1, c);
      NativeSigns(w);
      if n < 0 {
        return -1;
      } else {
        return 0;
      }
    }
    DivMod(c, w);
    TaggedShift(n, c, w);
    m := Untag(Wrap(SetLow(Native(Tag(n, w), w) / Pow(2, c % w)), w), w);
  }

  lemma SmallRange(n: int, w: WordBits)
    requires FitsInt(n, w)
    ensures 0 <= n + Pow(2, w - 1) && n < Pow(2, w - 1)
  {
    assert Pow(2, w - 1) == 2 * Pow(2, w - 2);
  }

  lemma TaggedShift(n: int, c: nat, w: WordBits)
    requires FitsInt(n, w) && c < w
    ensures Pow(2, c) > 0 && FitsInt(n / Pow(2, c), w)
    ensures Untag(Wrap(SetLow(Native(Tag(n, w), w) / Pow(2, c)), w), w) == n / Pow(2, c)
  {
    hide Pow, Base;
    PowPositive(c);
    NativeTag(n, w);
    TaggedFloor(n, Pow(2, c));
    NativeSigns(w);
    FloorInRange(n, MinInt(w), MaxInt(w), Pow(2, c));
    UntagTag(n / Pow(2, c), w);
  }

  lemma TaggedFloor(n: int, p: int)
    requires p > 0
    ensures SetLow((2 * n + 1) / p) == 2 * (n / p) + 1
  {
    DivDiv(2 * n + 1, 2, p);
    DivDiv(2 * n + 1, p, 2);
    DivUnique(2 * n + 1, 2, n, 1);
    DivMod((2 * n + 1) / p, 2);
  }

  lemma FloorInRange(n: int, lo: int, hi: int, p: int)
    requires p > 0 && lo <= n <= hi && lo < 0 <= hi
    ensures lo <= n / p <= hi
  {
    DivMono(lo, n, p);
    FloorStaysAbove(lo, p);
    if n >= 0 {
      DivShrinks(n, p);
    } else {
      DivMono(n, -1, p);
      DivUnique(-1, p, -1, p - 1);
    }
  }

  lemma NativeTag(n: int, w: WordBits)
    requires FitsInt(n, w)
    ensures Native(Tag(n, w), w) == 2 * n + 1
  {
    MaxIntFits(w);
    if n < 0 {
      WrapUnique(2 * n + 1, -1, 2 * n + 1 + Base(w), w);
    }
  }

  lemma FloorStaysAbove(x: int, p: int)
    requires p > 0 && x <= 0
    ensures x <= x / p
  {
    DivMod(x, p);
    if x / p < x {
      MulMono(x / p, x - 1, p);
      MulMono(1, p, -x);
    }
  }

  /** The slow path, on sign and limbs. */
  method ShiftArg(a: Arg, c: nat, w: WordBits) returns (z: Z)
    requires ValidArg(a, w) && c > 0
    ensures Valid(z, w) && Pow(2, c) > 0 && Value(z, w) == ArgValue(a, w) / Pow(2, c)
  {
    hide Base, Val, Pow, Normal, Valid, Value;
    var p, size := a.limbs, |a.limbs|;
    var c1 := c / w;
    PowPositive(c);
    NormalSize(p, w);
    if c1 >= size {
      ShiftedAway(a, c, w);
      SmallIsValid(-1, w);
      SmallIsValid(0, w);
      if a.negative {
        return Small(-1);
      } else {
        return Small(0);
      }
    }
    var n: nat := size - c1;
    var r := new nat[n + 1];
    assert IsDigits(p, Base(w)) by { NormalDigits(p, w); }
    var cr := ShiftLimbs(r, p, n, c, w);
    assert p[c1..c1 + n] == p[c1..];
    FloorOfLimbs(p, c, w);
    NegFloor(Val(p, Base(w)), Pow(2, c));
    if a.negative {
      if cr == 0 {
        cr := ScanLow(0, p, c1, w);
      }
      if cr != 0 {
        cr := MpnAdd1(r, r[..], n, w);
      }
    } else {
      cr := 0;
    }
    ghost var s := r[..n];
    ghost var top: nat := cr;
    r[n] := cr;
    assert r[..n + 1] == s + [top];
    ValSnoc(s, top, Base(w));
    z := Reduce(r, n + 1, a.negative, w);
  }

  // Past its last limb a number is its sign.
  lemma ShiftedAway(a: Arg, c: nat, w: WordBits)
    requires ValidArg(a, w) && c / w >= |a.limbs|
    ensures Pow(2, c) > 0 && ArgValue(a, w) / Pow(2, c) == if a.negative then -1 else 0
  {
    hide Val, Pow;
    NormalSize(a.limbs, w);
    PowMul(2, w, |a.limbs|);
    DivMod(c, w);
    MulMono(|a.limbs|, c / w, w);
    PowPositive(c);
    ShiftedOut(ArgValue(a, w), w * |a.limbs|, c);
  }
}
