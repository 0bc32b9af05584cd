/**
 Bitwise operations of Zarith on sign and magnitude. Every result has the bits of
 the infinite two's complement operands combined one by one.
 */
module ZLogic {
  import opened Arith
  import opened Bits
  import opened Digits
  import opened BngDigit
  import opened ZRep

  /** What the limb loops compute: x & y, x | y, x ^ y, x & ~y and ~x & y. */
  datatype LimbOp = AndOp | OrOp | XorOp | AndNot | NotAnd

  function Limb(f: LimbOp, x: nat, y: nat, w: WordBits): (z: nat)
    requires x < Base(w) && y < Base(w)
    ensures z < Base(w)
  {
    OrXorBound(x, y, w);
    AndBound(x, y);
    AndBound(x, Not(y, w));
    AndBound(Not(x, w), y);
    match f
    case AndOp => And(x, y)
    case OrOp => Or(x, y)
    case XorOp => Xor(x, y)
    case AndNot => And(x, Not(y, w))
    case NotAnd => And(Not(x, w), y)
  }

  predicate OnBits(f: LimbOp, x: bool, y: bool) {
    match f
    case AndOp => x && y
    case OrOp => x || y
    case XorOp => x != y
    case AndNot => x && !y
    case NotAnd => !x && y
  }

  /** Bit by bit, z is f of x and y. */
  ghost predicate Bitwise(f: LimbOp, z: int, x: int, y: int) {
    forall i: nat :: Bit(z, i) == OnBits(f, Bit(x, i), Bit(y, i))
  }

  /** The three operations, on every bit. */
  lemma BitwiseIs(z: int, x: int, y: int)
    ensures Bitwise(AndOp, z, x, y) <==> forall i: nat :: Bit(z, i) == (Bit(x, i) && Bit(y, i))
    ensures Bitwise(OrOp, z, x, y) <==> forall i: nat :: Bit(z, i) == (Bit(x, i) || Bit(y, i))
    ensures Bitwise(XorOp, z, x, y) <==> forall i: nat :: Bit(z, i) == (Bit(x, i) != Bit(y, i))
  {
    hide Bit;
  }

  // Only one number combines the bits of x and y by f.
  lemma BitwiseUnique(f: LimbOp, z: int, z': int, x: int, y: int)
    requires Bitwise(f, z, x, y) && Bitwise(f, z', x, y)
    ensures z == z'
  {
    BitsDetermine(z, z');
  }

  lemma LimbBit(f: LimbOp, x: nat, y: nat, w: WordBits, i: nat)
    requires x < Base(w) && y < Base(w)
    ensures Bit(Limb(f, x, y, w), i) == OnBits(f, Bit(x, i), Bit(y, i))
  {
    hide Bit, And, Or, Xor;
    if i >= w {
      BitSmall(x, w, i);
      BitSmall(y, w, i);
    }
    match f
    case AndOp => BitAnd(x, y, i);
    case OrOp => BitOr(x, y, i);
    case XorOp => BitXor(x, y, i);
    case AndNot => BitAnd(x, Not(y, w), i); BitNot(y, w, i);
    case NotAnd => BitAnd(Not(x, w), y, i); BitNot(x, w, i);
  }

  /**
   Combining limbs combines all bits. Where q has no limbs r keeps those of p, which
   is what combining with zero limbs would do.
   */
  lemma LimbwiseBits(f: LimbOp, r: seq<nat>, p: seq<nat>, q: seq<nat>, w: WordBits)
    requires |q| <= |p| == |r| && IsDigits(p, Base(w)) && IsDigits(q, Base(w))
    requires forall k :: 0 <= k < |q| ==> r[k] == Limb(f, p[k], q[k], w)
    requires forall k :: |q| <= k < |p| ==> r[k] == p[k]
    requires |q| < |p| ==> f != AndOp && f != NotAnd
    ensures IsDigits(r, Base(w))
    ensures Bitwise(f, Val(r, Base(w)), Val(p, Base(w)), Val(q, Base(w)))
  {
    hide Bit, Val, Limb;
    forall i: nat
      ensures Bit(Val(r, Base(w)), i) == OnBits(f, Bit(Val(p, Base(w)), i), Bit(Val(q, Base(w)), i))
    {
      LimbwiseBit(f, r, p, q, w, i);
    }
  }

  lemma LimbwiseBit(f: LimbOp, r: seq<nat>, p: seq<nat>, q: seq<nat>, w: WordBits, i: nat)
    requires |q| <= |p| == |r| && IsDigits(p, Base(w)) && IsDigits(q, Base(w)) && IsDigits(r, Base(w))
    requires i / w < |q| ==> r[i / w] == Limb(f, p[i / w], q[i / w], w)
    requires |q| <= i / w < |p| ==> r[i / w] == p[i / w]
    requires |q| < |p| ==> f != AndOp && f != NotAnd
    ensures Bit(Val(r, Base(w)), i) == OnBits(f, Bit(Val(p, Base(w)), i), Bit(Val(q, Base(w)), i))
  {
    hide Bit, Val, Limb;
    var k := i / w;
    ValBit(r, w, i);
    ValBit(p, w, i);
    ValBit(q, w, i);
    if k < |q| {
      LimbBit(f, p[k], q[k], w, i % w);
    }
  }

  // A number and the complement of it, as a sign and magnitude pair sees them.
  function Flip(negative: bool, core: int): int { if negative then -1 - core else core }

  /** Combining values by f is combining magnitudes, decremented when negative, by g. */
  lemma FlippedBits(f: LimbOp, g: LimbOp, n: bool, z: int, s: bool, x: int, t: bool, y: int)
    requires Bitwise(g, z, x, y)
    requires forall a: bool, b: bool :: OnBits(g, a, b) == (n != OnBits(f, s != a, t != b))
    ensures Bitwise(f, Flip(n, z), Flip(s, x), Flip(t, y))
  {
    hide Bit, OnBits;
    forall i: nat
      ensures Bit(Flip(n, z), i) == OnBits(f, Bit(Flip(s, x), i), Bit(Flip(t, y), i))
    {
      BitComplement(z, i);
      BitComplement(x, i);
      BitComplement(y, i);
      assert OnBits(g, Bit(x, i), Bit(y, i)) == (n != OnBits(f, s != Bit(x, i), t != Bit(y, i)));
    }
  }

  // Bits of x above those of y do not matter when f clears them.
  lemma TruncatedBits(f: LimbOp, z: int, x: int, y: nat, m: nat, w: WordBits)
    requires f == AndOp || f == NotAnd
    requires y < Pow(Base(w), m)
    requires Pow(Base(w), m) > 0 && Bitwise(f, z, x % Pow(Base(w), m), y)
    ensures Bitwise(f, z, x, y)
  {
    hide Bit;
    PowMul(2, w, m);
    forall i: nat
      ensures Bit(z, i) == OnBits(f, Bit(x, i), Bit(y, i))
    {
      BitMod(x, w * m, i);
      if i >= w * m {
        BitSmall(y, w * m, i);
      }
    }
  }

  /** Stores -1 - x, x being in the n low limbs of r: adds one and sets the sign. */
  method Complement(r: array<nat>, n: nat, w: WordBits) returns (z: Z)
    requires 0 < n < r.Length && IsDigits(r[..n], Base(w))
    modifies r
    ensures Valid(z, w) && Value(z, w) == -1 - Val(old(r[..n]), Base(w))
  {
    hide Base, Val, Pow, Valid, Value;
    var c := MpnAdd1(r, r[..], n, w);
    ghost var s := r[..n];
    r[n] := c;
    assert r[..n + 1] == s + [c];
    ValSnoc(s, c, Base(w));
    z := Reduce(r, n + 1, true, w);
  }

  /** r[i] = f(p[i], q[i]) for the first m limbs; p or q may be what r holds. */
  method Combine(f: LimbOp, r: array<nat>, p: seq<nat>, q: seq<nat>, m: nat, w: WordBits)
    requires m <= r.Length && m <= |p| && m <= |q|
    requires IsDigits(p[..m], Base(w)) && IsDigits(q[..m], Base(w))
    modifies r
    ensures r[m..] == old(r[m..])
    ensures forall k :: 0 <= k < m ==> p[..m][k] < Base(w) && q[..m][k] < Base(w) && r[k] == Limb(f, p[k], q[k], w)
  {
    hide Base, Limb;
    ghost var s, t := p[..m], q[..m];
    var i: nat := 0;
    while i < m
      invariant i <= m && r[m..] == old(r[m..])
      invariant forall k :: 0 <= k < i ==> s[k] < Base(w) && t[k] < Base(w) && r[k] == Limb(f, p[k], q[k], w)
    {
      assert s[i] < Base(w) && t[i] < Base(w);
      r[i] := Limb(f, p[i], q[i], w);
      i := i + 1;
    }
  }

  /**
   The same over r, with q decremented on the way: d is q - 1. The borrow dies
   because q is not zero.
   */
  method CombineDecremented(f: LimbOp, r: array<nat>, q: seq<nat>, w: WordBits) returns (ghost d: seq<nat>)
    requires |q| <= r.Length && IsDigits(r[..|q|], Base(w)) && IsDigits(q, Base(w)) && Val(q, Base(w)) > 0
    modifies r
    ensures |d| == |q| && IsDigits(d, Base(w)) && Val(d, Base(w)) == Val(q, Base(w)) - 1
    ensures r[|q|..] == old(r[|q|..])
    ensures forall k :: 0 <= k < |q| ==>
      old(r[..|q|])[k] < Base(w) && r[k] == Limb(f, old(r[..|q|])[k], d[k], w)
  {
    hide Base, Limb, Val, Pow;
    ghost var s := r[..|q|];
    var i: nat, c: nat := 0, 1;
    d := [];
    BorrowStart(q, w);
    while i < |q|
      invariant i <= |q| == |s| && |d| == i && c <= 1 && IsDigits(d, Base(w)) && IsDigits(s, Base(w))
      invariant Val(d, Base(w)) - c * Pow(Base(w), i) == Val(q[..i], Base(w)) - 1
      invariant r[|q|..] == old(r[|q|..]) && r[i..|q|] == s[i..]
      invariant forall k :: 0 <= k < i ==> s[k] < Base(w) && r[k] == Limb(f, s[k], d[k], w)
    {
      var v := q[i];
      assert r[i] == r[i..|q|][0] == s[i];
      assert r[i + 1..|q|] == r[i..|q|][1..];
      r[i] := Limb(f, r[i], Wrap(v as int - c, w), w);
      BorrowOne(d, q, i, c, w);
      d := d + [Wrap(v as int - c, w)];
      c := Flag(c != 0 && v == 0);
      i := i + 1;
    }
    assert q[..i] == q;
    BorrowDies(d, Val(q, Base(w)), c, w);
  }

  lemma BorrowStart(q: seq<nat>, w: WordBits)
    ensures Val([], Base(w)) - 1 * Pow(Base(w), 0) == Val(q[..0], Base(w)) - 1
  {
  }

  lemma BorrowOne(d: seq<nat>, q: seq<nat>, i: nat, c: nat, w: WordBits)
    requires |d| == i < |q| && IsDigits(q, Base(w)) && c <= 1
    requires Val(d, Base(w)) - c * Pow(Base(w), i) == Val(q[..i], Base(w)) - 1
    ensures Val(d + [Wrap(q[i] as int - c, w)], Base(w)) - Flag(c != 0 && q[i] == 0) * Pow(Base(w), i + 1)
            == Val(q[..i + 1], Base(w)) - 1
  {
    hide Base, Val;
    var x, b := Wrap(q[i] as int - c, w), Flag(c != 0 && q[i] == 0);
    WrapDown(q[i] as int - c, w);
    ValSnoc(d, x, Base(w));
    ValStep(q, i, Base(w));
    assert x == q[i] - c + b * Base(w);
    BorrowSplit(x, q[i], c, b, Base(w), Pow(Base(w), i));
  }

  lemma BorrowSplit(x: int, v: int, c: int, b: int, base: int, p: int)
    requires x == v - c + b * base
    ensures x * p - b * (base * p) == v * p - c * p
  {
    assert (v - c + b * base) * p == v * p - c * p + b * (base * p);
  }

  lemma BorrowDies(d: seq<nat>, v: nat, c: nat, w: WordBits)
    requires IsDigits(d, Base(w)) && v > 0 && c <= 1
    requires Val(d, Base(w)) - c * Pow(Base(w), |d|) == v - 1
    ensures Val(d, Base(w)) == v - 1
  {
    hide Base, Val;
    ValBound(d, Base(w));
  }

  /** Copies the limbs of p from m on. */
  method CopyRest(r: array<nat>, p: seq<nat>, m: nat)
    requires m <= |p| <= r.Length
    modifies r
    ensures r[..m] == old(r[..m]) && r[|p|..] == old(r[|p|..])
    ensures forall k :: m <= k < |p| ==> r[k] == p[k]
  {
    var i := m;
    while i < |p|
      invariant m <= i <= |p|
      invariant r[..m] == old(r[..m]) && r[|p|..] == old(r[|p|..])
      invariant forall k :: m <= k < i ==> r[k] == p[k]
    {
      r[i] := p[i];
      i := i + 1;
    }
  }

  // Two operands in the order the loops want them.
  ghost predicate Ordered(a: seq<nat>, b: seq<nat>, w: WordBits) {
    && |a| >= |b| > 0 && Normal(a, w) && Normal(b, w)
  }

  /** The low n limbs of p - 1, whether or not the borrow dies below. */
  method Decrement(r: array<nat>, p: seq<nat>, n: nat, w: WordBits)
    requires 0 < n <= r.Length && n <= |p| && Normal(p, w)
    modifies r
    ensures IsDigits(r[..n], Base(w)) && r[n..] == old(r[n..])
    ensures Pow(Base(w), n) > 0 && Val(r[..n], Base(w)) == (Val(p, Base(w)) - 1) % Pow(Base(w), n)
    ensures n == |p| ==> Val(r[..n], Base(w)) == Val(p, Base(w)) - 1
  {
    hide Base, Val, Pow;
    var borrow := MpnSub1(r, p, n, w);
    DecrementedLow(p, n, r[..n], borrow, w);
  }

  lemma DecrementedLow(p: seq<nat>, n: nat, s: seq<nat>, borrow: nat, w: WordBits)
    requires 0 < n == |s| <= |p| && Normal(p, w) && IsDigits(s, Base(w))
    requires Val(s, Base(w)) - borrow * Pow(Base(w), n) == Val(p[..n], Base(w)) - 1
    ensures Pow(Base(w), n) > 0 && Val(s, Base(w)) == (Val(p, Base(w)) - 1) % Pow(Base(w), n)
    ensures n == |p| ==> Val(s, Base(w)) == Val(p, Base(w)) - 1
  {
    hide Base, Val;
    var q, h := Pow(Base(w), n), Val(p[n..], Base(w));
    ValBound(s, Base(w));
    ValSplit(p, n, Base(w));
    NormalSize(p, w);
    Regroup(h, borrow, q);
    DivUnique(Val(p, Base(w)) - 1, q, h - borrow, Val(s, Base(w)));
    if n == |p| {
      assert p[n..] == [];
      DivUnique(Val(p, Base(w)) - 1, q, 0, Val(p, Base(w)) - 1);
    }
  }

  lemma Regroup(h: int, borrow: int, q: int)
    ensures (h - borrow) * q == h * q - borrow * q
  {
  }

  // The low n limbs are the value modulo their weight.
  lemma LowLimbs(p: seq<nat>, n: nat, w: WordBits)
    requires n <= |p| && IsDigits(p, Base(w))
    ensures Pow(Base(w), n) > 0 && IsDigits(p[..n], Base(w))
    ensures Val(p[..n], Base(w)) == Val(p, Base(w)) % Pow(Base(w), n)
  {
    hide Base, Val;
    ValDrop(p, Base(w), n);
  }

  method AndBothNegative(a: seq<nat>, b: seq<nat>, w: WordBits) returns (z: Z)
    requires Ordered(a, b, w)
    ensures Valid(z, w) && Bitwise(AndOp, Value(z, w), Signed(true, Val(a, Base(w))), Signed(true, Val(b, Base(w))))
  {
    hide Base, Val, Pow, Limb, Bitwise, Valid, Value;
    NormalSize(b, w);
    var r := new nat[|a| + 1];
    Decrement(r, a, |a|, w);
    ghost var s := r[..|a|];
    ghost var d := CombineDecremented(OrOp, r, b, w);
    ghost var t := r[..|a|];
    LimbwiseBits(OrOp, t, s, d, w);
    FlippedBits(AndOp, OrOp, true, Val(t, Base(w)), true, Val(s, Base(w)), true, Val(d, Base(w)));
    z := Complement(r, |a|, w);
  }

  // arg1 < 0, arg2 > 0
  method AndFirstNegative(a: seq<nat>, b: seq<nat>, w: WordBits) returns (z: Z)
    requires Ordered(a, b, w)
    ensures Valid(z, w) && Bitwise(AndOp, Value(z, w), Signed(true, Val(a, Base(w))), Val(b, Base(w)))
  {
    hide Base, Val, Pow, Limb, Bitwise, Valid, Value;
    NormalSize(b, w);
    var r := new nat[|b|];
    Decrement(r, a, |b|, w);
    ghost var s := r[..|b|];
    assert r[..][..|b|] == s;
    Combine(NotAnd, r, r[..], b, |b|, w);
    ghost var t := r[..|b|];
    LimbwiseBits(NotAnd, t, s, b, w);
    TruncatedBits(NotAnd, Val(t, Base(w)), Val(a, Base(w)) - 1, Val(b, Base(w)), |b|, w);
    FlippedBits(AndOp, NotAnd, false, Val(t, Base(w)), true, Val(a, Base(w)) - 1, false, Val(b, Base(w)));
    z := Reduce(r, |b|, false, w);
  }

  // arg1 > 0, arg2 < 0
  method AndSecondNegative(a: seq<nat>, b: seq<nat>, w: WordBits) returns (z: Z)
    requires Ordered(a, b, w)
    ensures Valid(z, w) && Bitwise(AndOp, Value(z, w), Val(a, Base(w)), Signed(true, Val(b, Base(w))))
  {
    hide Base, Val, Pow, Limb, Bitwise, Valid, Value;
    var r := new nat[|a|];
    Decrement(r, b, |b|, w);
    ghost var s := r[..|b|];
    assert r[..][..|b|] == s;
    Combine(AndNot, r, a, r[..], |b|, w);
    ghost var u := r[..|b|];
    CopyRest(r, a, |b|);
    ghost var t := r[..|a|];
    assert t[..|b|] == u;
    LimbwiseBits(AndNot, t, a, s, w);
    FlippedBits(AndOp, AndNot, false, Val(t, Base(w)), false, Val(a, Base(w)), true, Val(s, Base(w)));
    z := Reduce(r, |a|, false, w);
  }

  method AndBothPositive(a: seq<nat>, b: seq<nat>, w: WordBits) returns (z: Z)
    requires Ordered(a, b, w)
    ensures Valid(z, w) && Bitwise(AndOp, Value(z, w), Val(a, Base(w)), Val(b, Base(w)))
  {
    hide Base, Val, Pow, Limb, Bitwise, Valid, Value;
    NormalSize(b, w);
    var r := new nat[|b|];
    LowLimbs(a, |b|, w);
    Combine(AndOp, r, a, b, |b|, w);
    ghost var t := r[..|b|];
    LimbwiseBits(AndOp, t, a[..|b|], b, w);
    TruncatedBits(AndOp, Val(t, Base(w)), Val(a, Base(w)), Val(b, Base(w)), |b|, w);
    z := Reduce(r, |b|, false, w);
  }

  method OrBothNegative(a: seq<nat>, b: seq<nat>, w: WordBits) returns (z: Z)
    requires Ordered(a, b, w)
    ensures Valid(z, w) && Bitwise(OrOp, Value(z, w), Signed(true, Val(a, Base(w))), Signed(true, Val(b, Base(w))))
  {
    hide Base, Val, Pow, Limb, Bitwise, Valid, Value;
    NormalSize(b, w);
    var r := new nat[|b| + 1];
    Decrement(r, a, |b|, w);
    ghost var s := r[..|b|];
    ghost var d := CombineDecremented(AndOp, r, b, w);
    ghost var t := r[..|b|];
    LimbwiseBits(AndOp, t, s, d, w);
    TruncatedBits(AndOp, Val(t, Base(w)), Val(a, Base(w)) - 1, Val(d, Base(w)), |b|, w);
    FlippedBits(OrOp, AndOp, true, Val(t, Base(w)), true, Val(a, Base(w)) - 1, true, Val(d, Base(w)));
    z := Complement(r, |b|, w);
  }

  method OrFirstNegative(a: seq<nat>, b: seq<nat>, w: WordBits) returns (z: Z)
    requires Ordered(a, b, w)
    ensures Valid(z, w) && Bitwise(OrOp, Value(z, w), Signed(true, Val(a, Base(w))), Val(b, Base(w)))
  {
    hide Base, Val, Pow, Limb, Bitwise, Valid, Value;
    var r := new nat[|a| + 1];
    Decrement(r, a, |a|, w);
    ghost var s := r[..|a|];
    assert r[..][..|b|] == s[..|b|];
    Combine(AndNot, r, r[..], b, |b|, w);
    ghost var t := r[..|a|];
    LimbwiseBits(AndNot, t, s, b, w);
    FlippedBits(OrOp, AndNot, true, Val(t, Base(w)), true, Val(s, Base(w)), false, Val(b, Base(w)));
    z := Complement(r, |a|, w);
  }

  method OrSecondNegative(a: seq<nat>, b: seq<nat>, w: WordBits) returns (z: Z)
    requires Ordered(a, b, w)
    ensures Valid(z, w) && Bitwise(OrOp, Value(z, w), Val(a, Base(w)), Signed(true, Val(b, Base(w))))
  {
    hide Base, Val, Pow, Limb, Bitwise, Valid, Value;
    NormalSize(b, w);
    var r := new nat[|b| + 1];
    Decrement(r, b, |b|, w);
    ghost var s := r[..|b|];
    assert r[..][..|b|] == s;
    LowLimbs(a, |b|, w);
    Combine(NotAnd, r, a, r[..], |b|, w);
    ghost var t := r[..|b|];
    LimbwiseBits(NotAnd, t, a[..|b|], s, w);
    TruncatedBits(NotAnd, Val(t, Base(w)), Val(a, Base(w)), Val(s, Base(w)), |b|, w);
    FlippedBits(OrOp, NotAnd, true, Val(t, Base(w)), false, Val(a, Base(w)), true, Val(s, Base(w)));
    z := Complement(r, |b|, w);
  }

  method OrBothPositive(a: seq<nat>, b: seq<nat>, w: WordBits) returns (z: Z)
    requires Ordered(a, b, w)
    ensures Valid(z, w) && Bitwise(OrOp, Value(z, w), Val(a, Base(w)), Val(b, Base(w)))
  {
    hide Base, Val, Pow, Limb, Bitwise, Valid, Value;
    var r := new nat[|a|];
    LowLimbs(a, |b|, w);
    Combine(OrOp, r, a, b, |b|, w);
    ghost var u := r[..|b|];
    CopyRest(r, a, |b|);
    ghost var t := r[..|a|];
    assert t[..|b|] == u;
    LimbwiseBits(OrOp, t, a, b, w);
    z := Reduce(r, |a|, false, w);
  }

  method XorBothNegative(a: seq<nat>, b: seq<nat>, w: WordBits) returns (z: Z)
    requires Ordered(a, b, w)
    ensures Valid(z, w) && Bitwise(XorOp, Value(z, w), Signed(true, Val(a, Base(w))), Signed(true, Val(b, Base(w))))
  {
    hide Base, Val, Pow, Limb, Bitwise, Valid, Value;
    NormalSize(b, w);
    var r := new nat[|a|];
    Decrement(r, a, |a|, w);
    ghost var s := r[..|a|];
    ghost var d := CombineDecremented(XorOp, r, b, w);
    ghost var t := r[..|a|];
    LimbwiseBits(XorOp, t, s, d, w);
    FlippedBits(XorOp, XorOp, false, Val(t, Base(w)), true, Val(s, Base(w)), true, Val(d, Base(w)));
    z := Reduce(r, |a|, false, w);
  }

  method XorFirstNegative(a: seq<nat>, b: seq<nat>, w: WordBits) returns (z: Z)
    requires Ordered(a, b, w)
    ensures Valid(z, w) && Bitwise(XorOp, Value(z, w), Signed(true, Val(a, Base(w))), Val(b, Base(w)))
  {
    hide Base, Val, Pow, Limb, Bitwise, Valid, Value;
    var r := new nat[|a| + 1];
    Decrement(r, a, |a|, w);
    ghost var s := r[..|a|];
    assert r[..][..|b|] == s[..|b|];
    Combine(XorOp, r, r[..], b, |b|, w);
    ghost var t := r[..|a|];
    LimbwiseBits(XorOp, t, s, b, w);
    FlippedBits(XorOp, XorOp, true, Val(t, Base(w)), true, Val(s, Base(w)), false, Val(b, Base(w)));
    z := Complement(r, |a|, w);
  }

  method XorSecondNegative(a: seq<nat>, b: seq<nat>, w: WordBits) returns (z: Z)
    requires Ordered(a, b, w)
    ensures Valid(z, w) && Bitwise(XorOp, Value(z, w), Val(a, Base(w)), Signed(true, Val(b, Base(w))))
  {
    hide Base, Val, Pow, Limb, Bitwise, Valid, Value;
    var r := new nat[|a| + 1];
    Decrement(r, b, |b|, w);
    ghost var s := r[..|b|];
    assert r[..][..|b|] == s;
    LowLimbs(a, |b|, w);
    Combine(XorOp, r, a, r[..], |b|, w);
    ghost var u := r[..|b|];
    CopyRest(r, a, |b|);
    ghost var t := r[..|a|];
    assert t[..|b|] == u;
    LimbwiseBits(XorOp, t, a, s, w);
    FlippedBits(XorOp, XorOp, true, Val(t, Base(w)), false, Val(a, Base(w)), true, Val(s, Base(w)));
    z := Complement(r, |a|, w);
  }

  method XorBothPositive(a: seq<nat>, b: seq<nat>, w: WordBits) returns (z: Z)
    requires Ordered(a, b, w)
    ensures Valid(z, w) && Bitwise(XorOp, Value(z, w), Val(a, Base(w)), Val(b, Base(w)))
  {
    hide Base, Val, Pow, Limb, Bitwise, Valid, Value;
    var r := new nat[|a|];
    LowLimbs(a, |b|, w);
    Combine(XorOp, r, a, b, |b|, w);
    ghost var u := r[..|b|];
    CopyRest(r, a, |b|);
    ghost var t := r[..|a|];
    assert t[..|b|] == u;
    LimbwiseBits(XorOp, t, a, b, w);
    z := Reduce(r, |a|, false, w);
  }

  // The machine word that holds a native int: shifted left, with the low bit set.
  function Tag(n: int, w: WordBits): (x: nat)
    ensures x < Base(w)
  {
    Wrap(2 * n + 1, w)
  }

  // A machine word read as a signed number.
  function Native(x: nat, w: WordBits): int {
    if x >= Base(w) / 2 then x - Base(w) else x
  }

  function Untag(x: nat, w: WordBits): int { Native(x, w) / 2 }

  // Bit i of a native int in its word, or the sign above them all.
  function Place(i: nat, w: WordBits): nat { if i + 1 < w then i + 1 else w - 1 }

  lemma SignBits(s: int, k: nat, i: nat)
    requires 0 <= s + Pow(2, k) && s < Pow(2, k) && k <= i
    ensures Bit(s, i) == (s < 0)
  {
    if s < 0 {
      BitComplement(-1 - s, i);
      BitSmall(-1 - s, k, i);
    } else {
      BitSmall(s, k, i);
    }
  }

  lemma NativeRange(x: nat, w: WordBits)
    requires x < Base(w)
    ensures FitsInt(Untag(x, w), w)
    ensures 0 <= Native(x, w) + Pow(2, w - 1) && Native(x, w) < Pow(2, w - 1)
    ensures Native(x, w) % Pow(2, w) == x
  {
    var s := Native(x, w);
    MaxIntFits(w);
    assert Base(w) == 2 * Pow(2, w - 1);
    DivUnique(s, Base(w), if s < 0 then -1 else 0, x);
  }

  lemma UntagBits(x: nat, w: WordBits, i: nat)
    requires x < Base(w)
    ensures Bit(Untag(x, w), i) == Bit(x, Place(i, w))
  {
    hide Bit, Native, Base, Pow;
    var s := Native(x, w);
    NativeRange(x, w);
    BitHalf(s, i + 1);
    BitMod(s, w, Place(i, w));
    if i + 1 >= w {
      SignBits(s, w - 1, i + 1);
      SignBits(s, w - 1, w - 1);
    }
  }

  lemma UntagTag(n: int, w: WordBits)
    requires FitsInt(n, w)
    ensures Untag(Tag(n, w), w) == n
  {
    MaxIntFits(w);
    if n < 0 {
      WrapUnique(2 * n + 1, -1, 2 * n + 1 + Base(w), w);
    }
  }

  // Setting the low bit changes no other.
  lemma SetLowBit(x: nat, w: WordBits, i: nat)
    requires x < Base(w)
    ensures Or(x, 1) < Base(w) && Bit(Or(x, 1), Place(i, w)) == Bit(x, Place(i, w))
  {
    hide Bit, Or;
    OrXorBound(x, 1, w);
    BitOr(x, 1, Place(i, w));
    BitSmall(1, 1, Place(i, w));
  }

  /** The operation on the machine words of two native ints. */
  function FastWord(f: LimbOp, x: nat, y: nat): nat {
    match f
    case AndOp => And(x, y)
    case OrOp => Or(x, y)
    case _ => Or(Xor(x, y), 1)
  }

  /** The fast paths work on tagged words as if there were no tag. */
  lemma FastPath(f: LimbOp, m: int, n: int, w: WordBits)
    requires f in {AndOp, OrOp, XorOp} && FitsInt(m, w) && FitsInt(n, w)
    ensures FitsInt(Untag(FastWord(f, Tag(m, w), Tag(n, w)), w), w)
    ensures Bitwise(f, Untag(FastWord(f, Tag(m, w), Tag(n, w)), w), m, n)
  {
    hide Bit, Tag, Untag;
    var x, y := Tag(m, w), Tag(n, w);
    AndBound(x, y);
    OrXorBound(x, y, w);
    SetLowBit(Xor(x, y), w, 0);
    NativeRange(FastWord(f, x, y), w);
    forall i: nat
      ensures Bit(Untag(FastWord(f, x, y), w), i) == OnBits(f, Bit(m, i), Bit(n, i))
    {
      UntagBits(FastWord(f, x, y), w, i);
      UntagTag(m, w); UntagBits(x, w, i);
      UntagTag(n, w); UntagBits(y, w, i);
      FastBit(f, x, y, w, i);
    }
  }

  lemma FastBit(f: LimbOp, x: nat, y: nat, w: WordBits, i: nat)
    requires f in {AndOp, OrOp, XorOp} && x < Base(w) && y < Base(w)
    ensures Bit(FastWord(f, x, y), Place(i, w)) == OnBits(f, Bit(x, Place(i, w)), Bit(y, Place(i, w)))
  {
    hide Bit;
    var k := Place(i, w);
    BitAnd(x, y, k);
    BitOr(x, y, k);
    BitXor(x, y, k);
    OrXorBound(x, y, w);
    SetLowBit(Xor(x, y), w, i);
  }

  // A zero operand settles the result.
  lemma ZeroOperand(x: int)
    ensures Bitwise(AndOp, 0, x, 0) && Bitwise(AndOp, 0, 0, x)
    ensures Bitwise(OrOp, x, x, 0) && Bitwise(OrOp, x, 0, x)
    ensures Bitwise(XorOp, x, x, 0) && Bitwise(XorOp, x, 0, x)
  {
    hide Bit;
    forall i: nat ensures !Bit(0, i) {
      BitZeroOf(i);
    }
  }

  lemma Commute(f: LimbOp, z: int, x: int, y: int)
    requires f in {AndOp, OrOp, XorOp} && Bitwise(f, z, x, y)
    ensures Bitwise(f, z, y, x)
  {
    hide Bit;
  }

  /** Bit i of the result is set when it is set in both operands. */
  method LogAnd(x: Z, y: Z, w: WordBits) returns (z: Z)
    requires Valid(x, w) && Valid(y, w)
    ensures Valid(z, w) && Bitwise(AndOp, Value(z, w), Value(x, w), Value(y, w))
  {
    hide Bitwise, Unpack, Base, Val, Pow;
    if x.Small? && y.Small? {
      FastPath(AndOp, x.n, y.n, w);
      return Small(Untag(And(Tag(x.n, w), Tag(y.n, w)), w));
    }
    var a, b, arg2 := Unpack(x, w), Unpack(y, w), y;
    if |a.limbs| < |b.limbs| {
      a, b, arg2 := b, a, x;
    }
    ArgSign(b, w);
    ZeroOperand(ArgValue(a, w));
    if |b.limbs| == 0 {
      z := arg2;
    } else if a.negative && b.negative {
      z := AndBothNegative(a.limbs, b.limbs, w);
    } else if a.negative {
      z := AndFirstNegative(a.limbs, b.limbs, w);
    } else if b.negative {
      z := AndSecondNegative(a.limbs, b.limbs, w);
    } else {
      z := AndBothPositive(a.limbs, b.limbs, w);
    }
    Commute(AndOp, Value(z, w), ArgValue(a, w), ArgValue(b, w));
  }

  /** Bit i of the result is set when it is set in either operand. */
  method LogOr(x: Z, y: Z, w: WordBits) returns (z: Z)
    requires Valid(x, w) && Valid(y, w)
    ensures Valid(z, w) && Bitwise(OrOp, Value(z, w), Value(x, w), Value(y, w))
  {
    hide Bitwise, Unpack, Base, Val, Pow;
    if x.Small? && y.Small? {
      FastPath(OrOp, x.n, y.n, w);
      return Small(Untag(Or(Tag(x.n, w), Tag(y.n, w)), w));
    }
    var a, b, arg1 := Unpack(x, w), Unpack(y, w), x;
    if |a.limbs| < |b.limbs| {
      a, b, arg1 := b, a, y;
    }
    ArgSign(b, w);
    ZeroOperand(ArgValue(a, w));
    if |b.limbs| == 0 {
      z := arg1;
    } else if a.negative && b.negative {
      z := OrBothNegative(a.limbs, b.limbs, w);
    } else if a.negative {
      z := OrFirstNegative(a.limbs, b.limbs, w);
    } else if b.negative {
      z := OrSecondNegative(a.limbs, b.limbs, w);
    } else {
      z := OrBothPositive(a.limbs, b.limbs, w);
    }
    Commute(OrOp, Value(z, w), ArgValue(a, w), ArgValue(b, w));
  }

  /** Bit i of the result is set when it is set in one operand alone. */
  method LogXor(x: Z, y: Z, w: WordBits) returns (z: Z)
    requires Valid(x, w) && Valid(y, w)
    ensures Valid(z, w) && Bitwise(XorOp, Value(z, w), Value(x, w), Value(y, w))
  {
    hide Bitwise, Unpack, Base, Val, Pow;
    if x.Small? && y.Small? {
      FastPath(XorOp, x.n, y.n, w);
      return Small(Untag(Or(Xor(Tag(x.n, w), Tag(y.n, w)), 1), w));
    }
    var a, b, arg1 := Unpack(x, w), Unpack(y, w), x;
    if |a.limbs| < |b.limbs| {
      a, b, arg1 := b, a, y;
    }
    ArgSign(b, w);
    ZeroOperand(ArgValue(a, w));
    if |b.limbs| == 0 {
      z := arg1;
    } else if a.negative && b.negative {
      z := XorBothNegative(a.limbs, b.limbs, w);
    } else if a.negative {
      z := XorFirstNegative(a.limbs, b.limbs, w);
    } else if b.negative {
      z := XorSecondNegative(a.limbs, b.limbs, w);
    } else {
      z := XorBothPositive(a.limbs, b.limbs, w);
    }
    Commute(XorOp, Value(z, w), ArgValue(a, w), ArgValue(b, w));
  }

  /** Every bit of the operand flipped. */
  method LogNot(x: Z, w: WordBits) returns (z: Z)
    requires Valid(x, w)
    ensures Valid(z, w) && Value(z, w) == -1 - Value(x, w)
    ensures forall i: nat :: Bit(Value(z, w), i) == !Bit(Value(x, w), i)
  {
    hide Bit, Unpack, Base, Val, Pow;
    forall i: nat ensures Bit(-1 - Value(x, w), i) == !Bit(Value(x, w), i) {
      BitComplement(Value(x, w), i);
    }
    if x.Small? {
      FastNot(x.n, w);
      return Small(Untag(Or(Not(Tag(x.n, w), w), 1), w));
    }
    var a := Unpack(x, w);
    ArgSign(a, w);
    // A block is never zero, so the branch for no limbs is not reached.
    var r := new nat[|a.limbs| + 1];
    if a.negative {
      Decrement(r, a.limbs, |a.limbs|, w);
      z := Reduce(r, |a.limbs|, false, w);
    } else {
      var c := MpnAdd1(r, a.limbs, |a.limbs|, w);
      assert a.limbs[..|a.limbs|] == a.limbs;
      ghost var s := r[..|a.limbs|];
      r[|a.limbs|] := c;
      assert r[..|a.limbs| + 1] == s + [c];
      ValSnoc(s, c, Base(w));
      z := Reduce(r, |a.limbs| + 1, true, w);
    }
  }

  lemma FastNot(n: int, w: WordBits)
    requires FitsInt(n, w)
    ensures Tag(n, w) < Pow(2, w) && Untag(Or(Not(Tag(n, w), w), 1), w) == -1 - n
  {
    hide Bit, Untag, Or;
    var x := Tag(n, w);
    var y := Not(x, w);
    forall i: nat ensures Bit(Untag(Or(y, 1), w), i) == Bit(-1 - n, i) {
      SetLowBit(y, w, i);
      UntagBits(Or(y, 1), w, i);
      UntagTag(n, w);
      UntagBits(x, w, i);
      BitNot(x, w, Place(i, w));
      BitComplement(n, i);
    }
    BitsDetermine(Untag(Or(y, 1), w), -1 - n);
  }
}
