/**
 Zarith integers: a native int with one bit less than a word, or a block with a
 sign and limbs. The mpn_* calls are modelled by what GMP documents for them.
 */
module ZRep {
  import opened Arith
  import opened Bits
  import opened Digits
  import opened BngDigit

  datatype Z = Small(n: int) | Block(negative: bool, limbs: seq<nat>)

  /** The largest native int. */
  function MaxInt(w: WordBits): int { Pow(2, w - 2) - 1 }

  /** The smallest native int. */
  function MinInt(w: WordBits): int { -MaxInt(w) - 1 }

  predicate FitsInt(n: int, w: WordBits) { MinInt(w) <= n <= MaxInt(w) }

  function Signed(negative: bool, m: int): int { if negative then -m else m }

  ghost function Value(z: Z, w: WordBits): int {
    match z
    case Small(n) => n
    case Block(negative, limbs) => Signed(negative, Val(limbs, Base(w)))
  }

  /** Limbs without zeros on top. */
  ghost predicate Normal(limbs: seq<nat>, w: WordBits) {
    IsDigits(limbs, Base(w)) && (|limbs| > 0 ==> limbs[|limbs| - 1] != 0)
  }

  /** What every operation returns, and what every operation may be given. */
  ghost predicate Valid(z: Z, w: WordBits) {
    match z
    case Small(n) => FitsInt(n, w)
    case Block(negative, limbs) => |limbs| > 0 && Normal(limbs, w) && Val(limbs, Base(w)) > MaxInt(w)
  }

  /** A number taken apart: sign and limbs, no limbs at all for zero. */
  datatype Arg = Arg(negative: bool, limbs: seq<nat>)

  ghost predicate ValidArg(a: Arg, w: WordBits) {
    Normal(a.limbs, w) && (a.negative ==> |a.limbs| > 0)
  }

  ghost function Magnitude(a: Arg, w: WordBits): nat { Val(a.limbs, Base(w)) }

  ghost function ArgValue(a: Arg, w: WordBits): int { Signed(a.negative, Magnitude(a, w)) }

  lemma MaxIntFits(w: WordBits)
    ensures Base(w) == 4 * (MaxInt(w) + 1) && MaxInt(w) >= 0
  {
    PowAdd(2, 2, w - 2);
    assert Pow(2, 2) == 4;
  }

  lemma NativeSigns(w: WordBits)
    ensures MinInt(w) <= -1 && MaxInt(w) >= 0
  {
    MaxIntFits(w);
  }

  lemma SmallIsValid(n: int, w: WordBits)
    requires -1 <= n <= 1 || FitsInt(n, w)
    ensures Valid(Small(n), w) && Value(Small(n), w) == n
  {
    assert Pow(2, w - 2) == 4 * Pow(2, w - 4);
  }

  lemma NormalDigits(p: seq<nat>, w: WordBits)
    requires Normal(p, w)
    ensures IsDigits(p, Base(w))
  {
  }

  function Unpack(z: Z, w: WordBits): (a: Arg)
    requires Valid(z, w)
    ensures ValidArg(a, w) && ArgValue(a, w) == Value(z, w)
  {
    match z
    case Small(n) =>
      MaxIntFits(w);
      var loc := if n < 0 then -n else n;
      ValOne(loc, Base(w));
      Arg(n < 0, if n != 0 then [loc] else [])
    case Block(negative, limbs) => Arg(negative, limbs)
  }

  // Normal limbs are as many as the number needs.
  lemma NormalSize(limbs: seq<nat>, w: WordBits)
    requires Normal(limbs, w)
    ensures Val(limbs, Base(w)) < Pow(Base(w), |limbs|)
    ensures |limbs| > 0 ==> Val(limbs, Base(w)) >= Pow(Base(w), |limbs| - 1) >= 1
    ensures Val(limbs, Base(w)) == 0 <==> |limbs| == 0
  {
    hide Base;
    ValBound(limbs, Base(w));
    if |limbs| > 0 {
      ValTop(limbs, Base(w));
      MulMono(1, limbs[|limbs| - 1], Pow(Base(w), |limbs| - 1));
    }
  }

  // The sign and the size of a number taken apart.
  lemma ArgSign(a: Arg, w: WordBits)
    requires ValidArg(a, w)
    ensures a.negative <==> ArgValue(a, w) < 0
    ensures |a.limbs| == 0 <==> ArgValue(a, w) == 0
  {
    NormalSize(a.limbs, w);
  }

  // More limbs, or as many with a larger value, is a larger magnitude.
  lemma ShorterIsSmaller(s: seq<nat>, t: seq<nat>, w: WordBits)
    requires Normal(s, w) && Normal(t, w) && |s| < |t|
    ensures Val(s, Base(w)) < Val(t, Base(w))
  {
    hide Base;
    NormalSize(s, w);
    NormalSize(t, w);
    PowMono(Base(w), |s|, |t| - 1);
  }

  // Normal limbs are determined by their value.
  lemma NormalUnique(s: seq<nat>, t: seq<nat>, w: WordBits)
    requires Normal(s, w) && Normal(t, w) && Val(s, Base(w)) == Val(t, Base(w))
    ensures s == t
  {
    hide Base;
    if |s| < |t| {
      ShorterIsSmaller(s, t, w);
    } else if |t| < |s| {
      ShorterIsSmaller(t, s, w);
    } else {
      ValUnique(s, t, Base(w));
    }
  }

  /** Arguments with the same value have the same sign and the same limbs. */
  lemma ArgUnique(a: Arg, b: Arg, w: WordBits)
    requires ValidArg(a, w) && ValidArg(b, w)
    ensures a == b <==> ArgValue(a, w) == ArgValue(b, w)
  {
    if ArgValue(a, w) == ArgValue(b, w) {
      ArgSign(a, w);
      ArgSign(b, w);
      NormalUnique(a.limbs, b.limbs, w);
    }
  }

  // The least native int, as an int or as a block.
  predicate IsLeast(z: Z, w: WordBits) {
    z == Small(MinInt(w)) || z == Block(true, [MaxInt(w) + 1])
  }

  lemma LeastIsValid(z: Z, w: WordBits)
    requires IsLeast(z, w)
    ensures Valid(z, w) && Value(z, w) == MinInt(w)
  {
    MaxIntFits(w);
    ValOne(MaxInt(w) + 1, Base(w));
  }

  /**
   A number has one representation, except the least native int, which may also
   be a block.
   */
  lemma Representations(x: Z, y: Z, w: WordBits)
    requires Valid(x, w) && Valid(y, w)
    ensures Value(x, w) == Value(y, w) <==> x == y || (IsLeast(x, w) && IsLeast(y, w))
  {
    if IsLeast(x, w) && IsLeast(y, w) {
      LeastIsValid(x, w);
      LeastIsValid(y, w);
    } else if Value(x, w) == Value(y, w) {
      ArgUnique(Unpack(x, w), Unpack(y, w), w);
      if x.Block? != y.Block? {
        SmallIsBlock(if x.Block? then x else y, if x.Block? then y else x, w);
      }
    }
  }

  // An int and a block with the same value are the least int.
  lemma SmallIsBlock(x: Z, y: Z, w: WordBits)
    requires Valid(x, w) && Valid(y, w) && x.Block? && y.Small? && Value(x, w) == Value(y, w)
    ensures IsLeast(x, w) && IsLeast(y, w)
  {
    MaxIntFits(w);
    ArgUnique(Unpack(x, w), Unpack(y, w), w);
    var limb := x.limbs[0];
    assert x.limbs == [limb];
    ValOne(limb, Base(w));
  }

  /** Packs limbs and a sign into a number, as an int when it is small enough. */
  method Reduce(r: array<nat>, size: nat, negative: bool, w: WordBits) returns (z: Z)
    requires size <= r.Length && IsDigits(r[..size], Base(w))
    ensures Valid(z, w) && Value(z, w) == Signed(negative, Val(r[..size], Base(w)))
    ensures z.Block? <==> Val(r[..size], Base(w)) > MaxInt(w)
  {
    hide Base, Val;
    var sz: nat := size;
    while sz > 0 && r[sz - 1] == 0
      invariant sz <= size
      invariant forall i :: sz <= i < size ==> r[i] == 0
    {
      sz := sz - 1;
    }
    assert Val(r[..size], Base(w)) == Val(r[..sz], Base(w)) by {
      SubSlice(r[..], 0, size, 0, sz);
      ValTrim(r[..size], sz, Base(w));
    }
    if sz == 0 {
      assert r[..sz] == [];
      ValZero([], Base(w));
      return Small(0);
    }
    if sz <= 1 && r[0] <= MaxInt(w) {
      assert r[..sz] == [r[0]];
      ValOne(r[0], Base(w));
      if negative {
        return Small(-(r[0] as int));
      } else {
        return Small(r[0]);
      }
    }
    PackedIsBig(r[..sz], w);
    z := Block(negative, r[..sz]);
  }

  lemma PackedIsBig(limbs: seq<nat>, w: WordBits)
    requires Normal(limbs, w) && |limbs| > 0 && (|limbs| == 1 ==> limbs[0] > MaxInt(w))
    ensures Val(limbs, Base(w)) > MaxInt(w)
  {
    hide Base, Pow;
    if |limbs| == 1 {
      assert limbs == [limbs[0]];
      ValOne(limbs[0], Base(w));
    } else {
      NormalSize(limbs, w);
      MaxIntFits(w);
      PowOne(Base(w));
      PowMono(Base(w), 1, |limbs| - 1);
    }
  }

  lemma PowOne(b: nat)
    ensures Pow(b, 1) == b
  {
  }

  /** Writes the n lowest digits of v, and returns what is left above them. */
  method Store(r: array<nat>, n: nat, v: int, w: WordBits) returns (rest: int)
    requires n <= r.Length
    modifies r
    ensures IsDigits(r[..n], Base(w)) && r[n..] == old(r[n..])
    ensures Val(r[..n], Base(w)) + rest * Pow(Base(w), n) == v
  {
    hide Base, Val, Pow;
    var i: nat := 0;
    rest := v;
    assert r[..0] == [];
    StoreStart(v, w);
    while i < n
      invariant i <= n
      invariant IsDigits(r[..i], Base(w)) && r[n..] == old(r[n..])
      invariant Val(r[..i], Base(w)) + rest * Pow(Base(w), i) == v
    {
      ghost var s := r[..i];
      WrapCarry(rest, w);
      StoreStep(s, Wrap(rest, w), rest, Carry(rest, w), w);
      r[i] := Wrap(rest, w);
      rest := Carry(rest, w);
      assert r[..i + 1] == s + [r[i]];
      i := i + 1;
    }
  }

  lemma StoreStart(v: int, w: WordBits)
    ensures Val([], Base(w)) + v * Pow(Base(w), 0) == v
  {
  }

  lemma StoreStep(s: seq<nat>, d: nat, x: int, y: int, w: WordBits)
    requires x == y * Base(w) + d
    ensures Val(s + [d], Base(w)) + y * Pow(Base(w), |s| + 1) == Val(s, Base(w)) + x * Pow(Base(w), |s|)
  {
    hide Base, Val;
    ValSnoc(s, d, Base(w));
    StoreSplit(x, y, d, Base(w), Pow(Base(w), |s|));
  }

  lemma StoreSplit(x: int, y: int, d: int, b: int, p: int)
    requires x == y * b + d
    ensures d * p + y * (b * p) == x * p
  {
    assert (y * b + d) * p == x * p;
  }

  // What is left of a number stored in enough digits.
  lemma StoreRest(s: seq<nat>, rest: int, v: int, w: WordBits)
    requires IsDigits(s, Base(w)) && Val(s, Base(w)) + rest * Pow(Base(w), |s|) == v
    ensures rest == v / Pow(Base(w), |s|) && Val(s, Base(w)) == v % Pow(Base(w), |s|)
    ensures 0 <= v < Pow(Base(w), |s|) ==> rest == 0 && Val(s, Base(w)) == v
    ensures Pow(Base(w), |s|) > 0
  {
    hide Base, Val;
    ValBound(s, Base(w));
    DivUnique(v, Pow(Base(w), |s|), rest, Val(s, Base(w)));
    if 0 <= v < Pow(Base(w), |s|) {
      DivUnique(v, Pow(Base(w), |s|), 0, v);
    }
  }

  lemma CarryRange(s: seq<nat>, c: int, v: int, w: WordBits)
    requires IsDigits(s, Base(w)) && Val(s, Base(w)) + c * Pow(Base(w), |s|) == v
    ensures 0 <= v < 2 * Pow(Base(w), |s|) ==> 0 <= c <= 1
    ensures -1 <= v < Pow(Base(w), |s|) ==> -1 <= c <= 0
  {
    hide Base, Val;
    var p := Pow(Base(w), |s|);
    ValBound(s, Base(w));
    if c >= 2 {
      MulMono(2, c, p);
    } else if c <= -1 {
      MulMono(c, -1, p);
      if c <= -2 {
        MulMono(c, -2, p);
      }
    }
  }

  /** mpn_add_1 with a limb of 1: r may hold p. */
  method MpnAdd1(r: array<nat>, p: seq<nat>, n: nat, w: WordBits) returns (carry: nat)
    requires 0 < n <= r.Length && n <= |p| && IsDigits(p[..n], Base(w))
    modifies r
    ensures IsDigits(r[..n], Base(w)) && r[n..] == old(r[n..]) && carry <= 1
    ensures Val(r[..n], Base(w)) + carry * Pow(Base(w), n) == Val(p[..n], Base(w)) + 1
  {
    hide *;
    ghost var v: int := Val(p[..n], Base(w)) + 1;
    var c := Store(r, n, Val(p[..n], Base(w)) + 1, w);
    ValBound(p[..n], Base(w));
    CarryRange(r[..n], c, v, w);
    carry := c;
  }

  /** mpn_sub_1 with a limb of 1. */
  method MpnSub1(r: array<nat>, p: seq<nat>, n: nat, w: WordBits) returns (borrow: nat)
    requires 0 < n <= r.Length && n <= |p| && IsDigits(p[..n], Base(w))
    modifies r
    ensures IsDigits(r[..n], Base(w)) && r[n..] == old(r[n..]) && borrow <= 1
    ensures Val(r[..n], Base(w)) - borrow * Pow(Base(w), n) == Val(p[..n], Base(w)) - 1
  {
    hide *;
    ghost var v: int := Val(p[..n], Base(w)) - 1;
    var c := Store(r, n, Val(p[..n], Base(w)) - 1, w);
    ValBound(p[..n], Base(w));
    CarryRange(r[..n], c, v, w);
    borrow := -c;
    NegMul(c, Pow(Base(w), n));
  }
}
