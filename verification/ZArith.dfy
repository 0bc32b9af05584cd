/** Addition, subtraction and comparison of Zarith integers. */
module ZArith {
  import opened Arith
  import opened Digits
  import opened BngDigit
  import BngCompare
  import opened ZRep

  /** mpn_add: the first operand is at least as long as the second. */
  method MpnAdd(r: array<nat>, p: seq<nat>, q: seq<nat>, w: WordBits) returns (carry: nat)
    requires 0 < |q| <= |p| <= r.Length && IsDigits(p, Base(w)) && IsDigits(q, Base(w))
    modifies r
    ensures IsDigits(r[..|p|], Base(w)) && r[|p|..] == old(r[|p|..]) && carry <= 1
    ensures Val(r[..|p|], Base(w)) + carry * Pow(Base(w), |p|) == Val(p, Base(w)) + Val(q, Base(w))
  {
    hide Base, Val, Pow;
    ghost var v: int := Val(p, Base(w)) + Val(q, Base(w));
    var c := Store(r, |p|, Val(p, Base(w)) + Val(q, Base(w)), w);
    LengthBound(p, |p|, w);
    LengthBound(q, |p|, w);
    CarryRange(r[..|p|], c, v, w);
    carry := c;
  }

  /** mpn_sub, and mpn_sub_n when the operands are as long as each other. */
  method MpnSub(r: array<nat>, p: seq<nat>, q: seq<nat>, w: WordBits) returns (borrow: nat)
    requires 0 < |q| <= |p| <= r.Length && IsDigits(p, Base(w)) && IsDigits(q, Base(w))
    modifies r
    ensures IsDigits(r[..|p|], Base(w)) && r[|p|..] == old(r[|p|..]) && borrow <= 1
    ensures Val(r[..|p|], Base(w)) - borrow * Pow(Base(w), |p|) == Val(p, Base(w)) - Val(q, Base(w))
    ensures borrow == 0 <==> Val(q, Base(w)) <= Val(p, Base(w))
  {
    hide Base, Val, Pow;
    ghost var v: int := Val(p, Base(w)) - Val(q, Base(w));
    var c := Store(r, |p|, Val(p, Base(w)) - Val(q, Base(w)), w);
    LengthBound(p, |p|, w);
    LengthBound(q, |p|, w);
    BorrowRange(r[..|p|], c, v, w);
    borrow := -c;
    NegMul(c, Pow(Base(w), |p|));
  }

  lemma LengthBound(p: seq<nat>, n: nat, w: WordBits)
    requires |p| <= n && IsDigits(p, Base(w))
    ensures Val(p, Base(w)) < Pow(Base(w), n)
  {
    hide Base, Val;
    ValBound(p, Base(w));
    PowMono(Base(w), |p|, n);
  }

  lemma BorrowRange(s: seq<nat>, c: int, v: int, w: WordBits)
    requires IsDigits(s, Base(w)) && Val(s, Base(w)) + c * Pow(Base(w), |s|) == v
    requires 0 < v + Pow(Base(w), |s|) && v < Pow(Base(w), |s|)
    ensures -1 <= c <= 0 && (c == 0 <==> v >= 0)
  {
    hide Base, Val;
    var p := Pow(Base(w), |s|);
    ValBound(s, Base(w));
    if c >= 1 {
      MulMono(1, c, p);
    } else if c <= -2 {
      MulMono(c, -2, p);
    }
  }

  /** mpn_cmp, on operands of one length. */
  method MpnCmp(p: seq<nat>, q: seq<nat>, w: WordBits) returns (r: int)
    requires |p| == |q| && IsDigits(p, Base(w)) && IsDigits(q, Base(w))
    ensures r in {-1, 0, 1}
    ensures r == 1 <==> Val(p, Base(w)) > Val(q, Base(w))
    ensures r == 0 <==> p == q
    ensures r == -1 <==> Val(p, Base(w)) < Val(q, Base(w))
  {
    hide Base, Val, Pow;
    var i: nat := |p|;
    while i > 0
      invariant i <= |p| && p[i..] == q[i..]
    {
      i := i - 1;
      if p[i] > q[i] {
        BngCompare.DigitDecides(p, q, i, Base(w));
        return 1;
      }
      if p[i] < q[i] {
        BngCompare.DigitDecides(q, p, i, Base(w));
        return -1;
      }
      assert p[i..] == [p[i]] + p[i + 1..] && q[i..] == [q[i]] + q[i + 1..];
    }
    assert p == p[0..] && q == q[0..];
    return 0;
  }

  // Minus: the sign of the second operand is flipped for a subtraction.
  function Second(negate: bool, v: int): int { if negate then -v else v }

  method AddSub(x: Z, y: Z, negate: bool, w: WordBits) returns (z: Z)
    requires Valid(x, w) && Valid(y, w)
    ensures Valid(z, w) && Value(z, w) == Value(x, w) + Second(negate, Value(y, w))
  {
    hide Base, Val, Pow, Unpack;
    var a, b := Unpack(x, w), Unpack(y, w);
    ArgSign(a, w);
    ArgSign(b, w);
    var sign2 := b.negative != negate;
    if |b.limbs| == 0 {
      z := x;
    } else if |a.limbs| == 0 {
      if negate {
        z := CopyWithSign(b, sign2, w);
      } else {
        z := y;
      }
    } else if a.negative == sign2 {
      z := AddMagnitudes(a.limbs, b.limbs, a.negative, w);
    } else {
      z := SubMagnitudes(a.limbs, a.negative, b.limbs, sign2, w);
    }
  }

  method AddMagnitudes(p: seq<nat>, q: seq<nat>, sign: bool, w: WordBits) returns (z: Z)
    requires |p| > 0 && |q| > 0 && IsDigits(p, Base(w)) && IsDigits(q, Base(w))
    ensures Valid(z, w) && Value(z, w) == Signed(sign, Val(p, Base(w)) + Val(q, Base(w)))
  {
    hide Base, Val, Pow, Valid, Value;
    var r, n;
    if |p| >= |q| {
      n := |p|;
      r := new nat[|p| + 1];
      var c := MpnAdd(r, p, q, w);
      ghost var s := r[..n];
      r[n] := c;
      assert r[..n + 1] == s + [c];
      ValSnoc(s, c, Base(w));
    } else {
      n := |q|;
      r := new nat[|q| + 1];
      var c := MpnAdd(r, q, p, w);
      ghost var s := r[..n];
      r[n] := c;
      assert r[..n + 1] == s + [c];
      ValSnoc(s, c, Base(w));
    }
    z := Reduce(r, n + 1, sign, w);
  }

  /** Subtracts the smaller magnitude from the larger, whose sign the result takes. */
  method SubMagnitudes(p: seq<nat>, sign1: bool, q: seq<nat>, sign2: bool, w: WordBits) returns (z: Z)
    requires |p| > 0 && |q| > 0 && Normal(p, w) && Normal(q, w) && sign1 != sign2
    ensures Valid(z, w) && Value(z, w) == Signed(sign1, Val(p, Base(w)) - Val(q, Base(w)))
  {
    hide Base, Val, Pow, Valid, Value;
    var borrow;
    if |p| > |q| {
      ShorterIsSmaller(q, p, w);
      var r := new nat[|p|];
      borrow := MpnSub(r, p, q, w);
      z := Reduce(r, |p|, sign1, w);
    } else if |p| < |q| {
      ShorterIsSmaller(p, q, w);
      var r := new nat[|q|];
      borrow := MpnSub(r, q, p, w);
      z := Reduce(r, |q|, sign2, w);
    } else {
      var cmp := MpnCmp(p, q, w);
      if cmp > 0 {
        var r := new nat[|p| + 1];
        borrow := MpnSub(r, p, q, w);
        z := Reduce(r, |p|, sign1, w);
      } else if cmp < 0 {
        var r := new nat[|p|];
        borrow := MpnSub(r, q, p, w);
        z := Reduce(r, |p|, sign2, w);
      } else {
        z := Small(0);
        SmallIsValid(0, w);
      }
    }
  }

  /** The exact sum: the native sum has a bit to spare, so it does not overflow. */
  method Add(x: Z, y: Z, w: WordBits) returns (z: Z)
    requires Valid(x, w) && Valid(y, w)
    ensures Valid(z, w) && Value(z, w) == Value(x, w) + Value(y, w)
  {
    if x.Small? && y.Small? {
      var v := x.n + y.n;
      if FitsInt(v, w) {
        return Small(v);
      }
    }
    z := AddSub(x, y, false, w);
  }

  /** The exact difference. */
  method Sub(x: Z, y: Z, w: WordBits) returns (z: Z)
    requires Valid(x, w) && Valid(y, w)
    ensures Valid(z, w) && Value(z, w) == Value(x, w) - Value(y, w)
  {
    if x.Small? && y.Small? {
      var v := x.n - y.n;
      if FitsInt(v, w) {
        return Small(v);
      }
    }
    z := AddSub(x, y, true, w);
  }

  /** The order of the values, whichever way they are stored. */
  method Compare(x: Z, y: Z, w: WordBits) returns (r: int)
    requires Valid(x, w) && Valid(y, w)
    ensures r in {-1, 0, 1}
    ensures r == 0 <==> Value(x, w) == Value(y, w)
    ensures r == 1 <==> Value(x, w) > Value(y, w)
  {
    hide Base, Val, Pow, Unpack, FitsInt, Normal;
    if x.Small? && y.Small? {
      if x.n > y.n {
        return 1;
      } else if x.n < y.n {
        return -1;
      } else {
        return 0;
      }
    }
    var a, b := Unpack(x, w), Unpack(y, w);
    ArgSign(a, w);
    ArgSign(b, w);
    if a.negative != b.negative {
      r := 1;
    } else if |a.limbs| > |b.limbs| {
      ShorterIsSmaller(b.limbs, a.limbs, w);
      r := 1;
    } else if |a.limbs| < |b.limbs| {
      ShorterIsSmaller(a.limbs, b.limbs, w);
      r := -1;
    } else {
      NormalDigits(a.limbs, w);
      NormalDigits(b.limbs, w);
      r := MpnCmp(a.limbs, b.limbs, w);
    }
    if a.negative {
      r := -r;
    }
  }

  /** Equality of the values: the least int equals the block that stands for it. */
  method Equal(x: Z, y: Z, w: WordBits) returns (eq: bool)
    requires Valid(x, w) && Valid(y, w)
    ensures eq == (Value(x, w) == Value(y, w))
  {
    hide Base, Val, Pow, Unpack, FitsInt, Normal;
    if x.Small? && y.Small? {
      return x.n == y.n;
    }
    var a, b := Unpack(x, w), Unpack(y, w);
    ArgUnique(a, b, w);
    if a.negative != b.negative || |a.limbs| != |b.limbs| {
      return false;
    }
    var i: nat := 0;
    while i < |a.limbs|
      invariant i <= |a.limbs| && a.limbs[..i] == b.limbs[..i]
    {
      if a.limbs[i] != b.limbs[i] {
        return false;
      }
      assert a.limbs[..i + 1] == a.limbs[..i] + [a.limbs[i]] && b.limbs[..i + 1] == b.limbs[..i] + [b.limbs[i]];
      i := i + 1;
    }
    assert a.limbs[..i] == a.limbs && b.limbs[..i] == b.limbs;
    return true;
  }

  /** -1, 0 or 1. */
  function Sign(z: Z, w: WordBits): (s: int)
    requires Valid(z, w)
    ensures s in {-1, 0, 1} && (s == 0 <==> Value(z, w) == 0) && (s < 0 <==> Value(z, w) < 0)
  {
    ArgSign(Unpack(z, w), w);
    match z
    case Small(n) => if n > 0 then 1 else if n < 0 then -1 else 0
    case Block(negative, limbs) => if |limbs| == 0 then 0 else if negative then -1 else 1
  }

  /** One more, or one less: one step away from zero when the sign is the given one. */
  method SuccPred(x: Z, sign: bool, w: WordBits) returns (z: Z)
    requires Valid(x, w)
    ensures Valid(z, w) && Value(z, w) == Value(x, w) + (if sign then -1 else 1)
  {
    hide Base, Val, Pow, Unpack, FitsInt, Valid, Value;
    var a := Unpack(x, w);
    var n: nat := |a.limbs|;
    ArgSign(a, w);
    NormalDigits(a.limbs, w);
    NormalSize(a.limbs, w);
    assert a.limbs[..n] == a.limbs;
    var r := new nat[n + 1];
    if n == 0 {
      r[0] := 1;
      assert r[..1] == [1];
      ValOne(1, Base(w));
      z := Reduce(r, 1, sign, w);
    } else if a.negative == sign {
      var c := MpnAdd1(r, a.limbs, n, w);
      ghost var s := r[..n];
      r[n] := c;
      assert r[..n + 1] == s + [c];
      ValSnoc(s, c, Base(w));
      z := Reduce(r, n + 1, a.negative, w);
    } else {
      var borrow := MpnSub1(r, a.limbs, n, w);
      StoreRest(r[..n], -(borrow as int), Val(a.limbs, Base(w)) - 1, w) by {
        NegMul(borrow, Pow(Base(w), n));
      }
      z := Reduce(r, n, a.negative, w);
    }
  }

  method Succ(x: Z, w: WordBits) returns (z: Z)
    requires Valid(x, w)
    ensures Valid(z, w) && Value(z, w) == Value(x, w) + 1
  {
    if x.Small? && x.n < MaxInt(w) {
      return Small(x.n + 1);
    }
    z := SuccPred(x, false, w);
  }

  method Pred(x: Z, w: WordBits) returns (z: Z)
    requires Valid(x, w)
    ensures Valid(z, w) && Value(z, w) == Value(x, w) - 1
  {
    if x.Small? && x.n > MinInt(w) {
      return Small(x.n - 1);
    }
    z := SuccPred(x, true, w);
  }

  /** The absolute value: that of the least int is a block. */
  method Abs(x: Z, w: WordBits) returns (z: Z)
    requires Valid(x, w)
    ensures Valid(z, w) && Value(z, w) == if Value(x, w) < 0 then -Value(x, w) else Value(x, w)
  {
    hide Base, Val, Pow, Unpack;
    if x.Small? {
      if x.n >= 0 {
        return x;
      }
      if x.n > MinInt(w) {
        return Small(-x.n);
      }
    }
    z := CopyWithSign(Unpack(x, w), false, w);
    ArgSign(Unpack(x, w), w);
  }

  method CopyWithSign(a: Arg, sign: bool, w: WordBits) returns (z: Z)
    requires ValidArg(a, w)
    ensures Valid(z, w) && Value(z, w) == Signed(sign, Magnitude(a, w))
  {
    hide Base, Val, Pow, Valid, Value;
    var r := new nat[|a.limbs|];
    forall i | 0 <= i < |a.limbs| { r[i] := a.limbs[i]; }
    assert r[..|a.limbs|] == a.limbs;
    NormalDigits(a.limbs, w);
    z := Reduce(r, |a.limbs|, sign, w);
  }
}
