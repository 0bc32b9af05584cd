/** Bit fields and single bits of Zarith integers. */
module ZField {
  import opened Wrappers
  import opened Arith
  import opened Bits
  import opened Digits
  import opened BngDigit
  import opened ZRep
  import opened ZLogic
  import opened ZBits

  // Reducing twice, first by a larger power.
  lemma ModMod(x: int, m: nat, n: nat)
    requires m <= n
    ensures Pow(2, m) > 0 && Pow(2, n) > 0
    ensures (x % Pow(2, n)) % Pow(2, m) == x % Pow(2, m)
  {
    hide Pow;
    PowPositive(m);
    PowPositive(n);
    PowAdd(2, m, n - m);
    PowPositive(n - m);
    DivDiv(x, Pow(2, m), Pow(2, n - m));
    DivAddMultiple(x % Pow(2, m), (x / Pow(2, m)) % Pow(2, n - m), Pow(2, m));
    DivUnique(x % Pow(2, m), Pow(2, m), 0, x % Pow(2, m));
  }

  /** x, shifted down by o and cut to l bits: what Extract must return. */
  ghost function Field(x: int, o: nat, l: nat): nat {
    PowPositive(o);
    PowPositive(l);
    (x / Pow(2, o)) % Pow(2, l)
  }

  /** Its bits are the l bits of x from o on. */
  lemma FieldBits(x: int, o: nat, l: nat, i: nat)
    ensures Bit(Field(x, o, l), i) == (i < l && Bit(x, o + i))
  {
    hide Bit, Pow;
    PowPositive(o);
    BitMod(x / Pow(2, o), l, i);
    BitShift(x, o, i);
  }

  /** ~r[i] for the first n limbs. */
  method ComplementLimbs(r: array<nat>, n: nat, w: WordBits)
    requires n <= r.Length && IsDigits(r[..n], Base(w))
    modifies r
    ensures IsDigits(r[..n], Base(w)) && r[n..] == old(r[n..])
    ensures Val(r[..n], Base(w)) == Pow(Base(w), n) - 1 - Val(old(r[..n]), Base(w))
  {
    hide Base, Val, Pow;
    ghost var s := r[..n];
    var i: nat := 0;
    assert r[..0] == [] && s[..0] == [];
    ComplementStart(w);
    while i < n
      invariant i <= n && r[n..] == old(r[n..]) && r[i..n] == s[i..]
      invariant IsDigits(r[..i], Base(w))
      invariant Val(r[..i], Base(w)) + Val(s[..i], Base(w)) == Pow(Base(w), i) - 1
    {
      ghost var t := r[..i];
      assert r[i] == r[i..n][0] == s[i];
      assert r[i + 1..n] == r[i..n][1..];
      r[i] := NotLimb(r[i], w);
      assert r[..i + 1] == t + [r[i]];
      ComplementStep(t, s, i, w);
      i := i + 1;
    }
    assert s[..n] == s;
  }

  function NotLimb(x: nat, w: WordBits): (y: nat)
    requires x < Base(w)
    ensures y < Base(w)
  {
    Not(x, w)
  }

  lemma ComplementStart(w: WordBits)
    ensures Val([], Base(w)) + Val([], Base(w)) == Pow(Base(w), 0) - 1
  {
  }

  lemma ComplementStep(t: seq<nat>, s: seq<nat>, i: nat, w: WordBits)
    requires |t| == i < |s| && IsDigits(s, Base(w))
    requires Val(t, Base(w)) + Val(s[..i], Base(w)) == Pow(Base(w), i) - 1
    ensures Val(t + [NotLimb(s[i], w)], Base(w)) + Val(s[..i + 1], Base(w)) == Pow(Base(w), i + 1) - 1
  {
    hide Val, Base, NotLimb;
    NotLimbValue(s[i], w);
    ValSnoc(t, NotLimb(s[i], w), Base(w));
    ValStep(s, i, Base(w));
    Distribute3(Base(w), s[i], Pow(Base(w), i));
  }

  lemma NotLimbValue(x: nat, w: WordBits)
    requires x < Base(w)
    ensures NotLimb(x, w) == Base(w) - 1 - x
  {
  }

  lemma Distribute3(b: int, d: int, p: int)
    ensures (b - 1 - d) * p + d * p == b * p - p
  {
  }

  // Numbers modulo B^n with the right low bits.
  lemma LowBits(v: nat, x: int, n: nat, w: WordBits)
    requires Pow(Base(w), n) > 0 && v < Pow(Base(w), n)
    requires forall i: nat :: i < w * n ==> Bit(v, i) == Bit(x, i)
    ensures v == x % Pow(Base(w), n)
  {
    hide Bit;
    PowMul(2, w, n);
    forall i: nat ensures Bit(v, i) == Bit(x % Pow(2, w * n), i) {
      BitMod(x, w * n, i);
      if i >= w * n {
        BitSmall(v, w * n, i);
      }
    }
    BitsDetermine(v, x % Pow(2, w * n));
  }

  /**
   The bits of a window of limbs, shifted down: those of the whole number, as far as
   the window reaches.
   */
  lemma WindowBit(p: seq<nat>, k: nat, o: nat, w: WordBits, i: nat)
    requires IsDigits(p, Base(w)) && o / w + k <= |p|
    requires o % w + i < w * k || o / w + k == |p|
    ensures Pow(2, o % w) > 0 && Pow(2, o) > 0
    ensures Bit(Val(p[o / w..o / w + k], Base(w)) / Pow(2, o % w), i) == Bit(Val(p, Base(w)) / Pow(2, o), i)
  {
    hide Bit, Val, Pow;
    var m, v, d := o / w, Val(p, Base(w)), p[o / w..];
    PowPositive(o % w);
    PowPositive(o);
    FloorOfLimbs(p, o, w);
    BitShift(Val(d, Base(w)), o % w, i);
    BitShift(Val(p[m..m + k], Base(w)), o % w, i);
    assert d[..k] == p[m..m + k];
    WindowLow(d, k, w, o % w + i);
  }

  lemma WindowLow(d: seq<nat>, k: nat, w: WordBits, i: nat)
    requires IsDigits(d, Base(w)) && k <= |d| && (i < w * k || k == |d|)
    ensures Bit(Val(d[..k], Base(w)), i) == Bit(Val(d, Base(w)), i)
  {
    hide Bit, Val, Pow;
    if k == |d| {
      assert d[..k] == d;
    } else {
      LowLimbs(d, k, w);
      PowMul(2, w, k);
      BitMod(Val(d, Base(w)), w * k, i);
    }
  }

  // The window has the bits that are shifted out of it.
  lemma WindowSticky(p: seq<nat>, k: nat, o: nat, w: WordBits)
    requires IsDigits(p, Base(w)) && o / w + k <= |p| && k > 0
    ensures Pow(2, o % w) > 0 && Pow(2, o) > 0
    ensures Val(p[..o / w], Base(w)) != 0 || Val(p[o / w..o / w + k], Base(w)) % Pow(2, o % w) != 0 <==>
            Val(p, Base(w)) % Pow(2, o) != 0
  {
    hide Val, Pow;
    var d := p[o / w..];
    FloorOfLimbs(p, o, w);
    LowLimbs(d, k, w);
    assert d[..k] == p[o / w..o / w + k];
    PowMul(2, w, k);
    MulMono(1, k, w);
    ModMod(Val(d, Base(w)), o % w, w * k);
  }

  // How many limbs can reach the sz low ones of the number shifted down by o.
  function Window(size: nat, sz: nat, o: nat, w: WordBits): nat {
    if size <= o / w then 0 else if size - o / w > sz + 1 then sz + 1 else size - o / w
  }

  // Zero padded, or with a limb too many, the window is right in its sz low limbs.
  lemma WindowValue(s: seq<nat>, t: seq<nat>, p: seq<nat>, sz: nat, o: nat, w: WordBits)
    requires IsDigits(p, Base(w)) && IsDigits(t, Base(w)) && |s| == sz && |t| == Window(|p|, sz, o, w)
    requires forall k :: 0 <= k < sz ==> s[k] == if k < |t| then t[k] else 0
    requires Pow(2, o) > 0 && Pow(2, o % w) > 0 && Pow(Base(w), sz) > 0
    requires |t| > 0 ==> Val(t, Base(w)) == Val(p[o / w..o / w + |t|], Base(w)) / Pow(2, o % w)
    ensures IsDigits(s, Base(w))
    ensures Val(s, Base(w)) == (Val(p, Base(w)) / Pow(2, o)) % Pow(Base(w), sz)
  {
    hide Base, Val, Pow, Bit;
    ValBound(s, Base(w));
    var x := Val(p, Base(w)) / Pow(2, o);
    if |t| == 0 {
      ValZero(s, Base(w));
      NothingLeft(p, o, w);
    } else {
      forall i: nat | i < w * sz
        ensures Bit(Val(s, Base(w)), i) == Bit(x, i)
      {
        WindowReach(|p|, sz, o, w, i);
        WindowBit(p, |t|, o, w, i);
        PaddedBit(s, t, w, i);
      }
    }
    LowBits(Val(s, Base(w)), x, sz, w);
  }

  lemma WindowReach(size: nat, sz: nat, o: nat, w: WordBits, i: nat)
    requires i < w * sz && o / w < size
    ensures o % w + i < w * Window(size, sz, o, w) || o / w + Window(size, sz, o, w) == size
    ensures o / w + Window(size, sz, o, w) <= size
  {
  }

  lemma NothingLeft(p: seq<nat>, o: nat, w: WordBits)
    requires IsDigits(p, Base(w)) && o / w >= |p|
    ensures Pow(2, o) > 0 && Val(p, Base(w)) / Pow(2, o) == 0
  {
    hide Val, Pow;
    ValBound(p, Base(w));
    PowMul(2, w, |p|);
    DivMod(o, w);
    MulMono(|p|, o / w, w);
    PowMono(2, w * |p|, o);
    DivUnique(Val(p, Base(w)), Pow(2, o), 0, Val(p, Base(w)));
  }

  lemma QuotBelow(i: int, w: int, n: int)
    requires 0 < w && i < w * n
    ensures i / w < n
  {
    DivMod(i, w);
    if n <= i / w {
      MulMono(n, i / w, w);
    }
  }

  lemma PaddedBit(s: seq<nat>, t: seq<nat>, w: WordBits, i: nat)
    requires IsDigits(t, Base(w)) && i < w * |s|
    requires forall k :: 0 <= k < |s| ==> s[k] == if k < |t| then t[k] else 0
    ensures Bit(Val(s, Base(w)), i) == Bit(Val(t, Base(w)), i)
  {
    hide Val, Bit;
    QuotBelow(i, w, |s|);
    ValBit(s, w, i);
    ValBit(t, w, i);
    BitZeroOf(i % w);
  }

  /**
   The sz low limbs of the magnitude shifted down by o, zero padded. Only as many
   limbs are shifted as can reach them.
   */
  method WindowLimbs(r: array<nat>, p: seq<nat>, sz: nat, o: nat, w: WordBits) returns (cr: nat)
    requires r.Length == sz + 1 && sz > 0 && IsDigits(p, Base(w))
    modifies r
    ensures IsDigits(r[..sz], Base(w))
    ensures Pow(2, o) > 0 && Pow(Base(w), sz) > 0
    ensures Val(r[..sz], Base(w)) == (Val(p, Base(w)) / Pow(2, o)) % Pow(Base(w), sz)
    ensures o / w < |p| ==> (cr != 0 || Val(p[..o / w], Base(w)) != 0 <==> Val(p, Base(w)) % Pow(2, o) != 0)
    ensures o / w >= |p| ==> cr == 0
  {
    hide Base, Val, Pow, Bit;
    PowPositive(o);
    BasePositive(w, sz);
    var csz: int := |p| - o / w;
    if csz > sz + 1 {
      csz := sz + 1;
    }
    cr := 0;
    if csz > 0 {
      cr := ShiftLimbs(r, p, csz, o, w);
      WindowSticky(p, csz, o, w);
    } else {
      csz := 0;
    }
    ghost var t := r[..csz];
    var i: nat := csz;
    while i < sz
      invariant csz <= i && (i <= sz || i == csz)
      invariant forall k :: 0 <= k < csz ==> r[k] == t[k]
      invariant forall k :: csz <= k < i ==> r[k] == 0
    {
      r[i] := 0;
      i := i + 1;
    }
    WindowValue(r[..sz], t, p, sz, o, w);
  }

  lemma BasePositive(w: WordBits, n: nat)
    ensures Pow(Base(w), n) > 0
  {
  }

  /** mpn_add_1 with the carry dropped. */
  method AddOneWrapping(r: array<nat>, n: nat, w: WordBits)
    requires 0 < n <= r.Length && IsDigits(r[..n], Base(w))
    modifies r
    ensures IsDigits(r[..n], Base(w)) && r[n..] == old(r[n..])
    ensures Pow(Base(w), n) > 0
    ensures Val(r[..n], Base(w)) == (Val(old(r[..n]), Base(w)) + 1) % Pow(Base(w), n)
  {
    hide Base, Val, Pow;
    ghost var v := Val(r[..n], Base(w));
    assert r[..][..n] == r[..n];
    var carry := MpnAdd1(r, r[..], n, w);
    StoreRest(r[..n], carry, v + 1, w);
  }

  // Both ways of negating modulo q: with every lost bit zero, and otherwise.
  lemma NegateLow(x: int, q: int, t: int)
    requires q > 0 && t == q - 1 - x % q
    ensures t == (-1 - x) % q && (t + 1) % q == (-x) % q
  {
    DivMod(x, q);
    assert -1 - x == (-1 - x / q) * q + t;
    DivUnique(-1 - x, q, -1 - x / q, t);
    assert -x == t + 1 + (-1 - x / q) * q;
    DivAddMultiple(t + 1, -1 - x / q, q);
  }

  /** The mask on the top limb: l %= bits; if (l) r[sz - 1] &= ~0 >> (bits - l). */
  method MaskTop(r: array<nat>, sz: nat, l: nat, w: WordBits)
    requires 0 < sz <= r.Length && IsDigits(r[..sz], Base(w))
    requires w * (sz - 1) < l <= w * sz
    modifies r
    ensures IsDigits(r[..sz], Base(w)) && Pow(2, l) > 0
    ensures Val(r[..sz], Base(w)) == Val(old(r[..sz]), Base(w)) % Pow(2, l)
  {
    hide Base, Val, Pow, And;
    ghost var s := r[..sz];
    PowPositive(l);
    LimbsOf(l, sz, w);
    if l % w != 0 {
      AndMask(r[sz - 1], l % w);
      AndBound(r[sz - 1], TopMask(l % w, w));
      r[sz - 1] := And(r[sz - 1], TopMask(l % w, w));
      MaskedTop(s, r[..sz], l, w);
    } else {
      PowMul(2, w, sz);
      FullLimbs(s, l, w);
    }
  }

  // All ones, shifted right to leave k of them.
  function TopMask(k: nat, w: WordBits): (m: nat)
    requires 0 < k < w
    ensures m == Pow(2, k) - 1
  {
    PowAdd(2, k, w - k);
    PowPositive(k);
    PowPositive(w - k);
    OnesShifted(Pow(2, k), Pow(2, w - k));
    (Base(w) - 1) / Pow(2, w - k)
  }

  lemma OnesShifted(p: int, q: int)
    requires p > 0 && q > 0
    ensures (p * q - 1) / q == p - 1
  {
    assert p * q - 1 == (p - 1) * q + (q - 1);
    DivUnique(p * q - 1, q, p - 1, q - 1);
  }

  lemma LimbsOf(l: nat, sz: nat, w: WordBits)
    requires sz > 0 && w * (sz - 1) < l <= w * sz
    ensures if l % w != 0 then l == w * (sz - 1) + l % w else l == w * sz
  {
    assert w * sz == w * (sz - 1) + w;
    var k := l - w * (sz - 1);
    if k < w {
      DivUnique(l, w, sz - 1, k);
    } else {
      DivUnique(l, w, sz, 0);
    }
  }

  lemma FullLimbs(s: seq<nat>, l: nat, w: WordBits)
    requires IsDigits(s, Base(w)) && l == w * |s|
    ensures Pow(2, l) > 0 && Val(s, Base(w)) == Val(s, Base(w)) % Pow(2, l)
  {
    hide Val, Pow;
    ValBound(s, Base(w));
    PowMul(2, w, |s|);
    PowPositive(l);
    DivUnique(Val(s, Base(w)), Pow(2, l), 0, Val(s, Base(w)));
  }

  lemma MaskedTop(s: seq<nat>, t: seq<nat>, l: nat, w: WordBits)
    requires 0 < |s| == |t| && IsDigits(s, Base(w)) && l == w * (|s| - 1) + l % w
    requires Pow(2, l % w) > 0 && t[..|s| - 1] == s[..|s| - 1] && t[|s| - 1] == s[|s| - 1] % Pow(2, l % w)
    ensures Pow(2, l) > 0 && Val(t, Base(w)) == Val(s, Base(w)) % Pow(2, l)
  {
    hide Val, Pow;
    var n := |s| - 1;
    var p, q := Pow(Base(w), n), Pow(2, l % w);
    PowPositive(l);
    PowMul(2, w, n);
    PowAdd(2, w * n, l % w);
    BasePositive(w, n);
    ValBound(s[..n], Base(w));
    ValStep(s, n, Base(w));
    ValStep(t, n, Base(w));
    assert s[..n + 1] == s && t[..n + 1] == t;
    DivUnique(Val(s, Base(w)), p, s[n], Val(s[..n], Base(w)));
    DivDiv(Val(s, Base(w)), p, q);
  }

  /** The slow path of extract: l bits of the number from o on. */
  method ExtractArg(a: Arg, o: nat, l: nat, w: WordBits) returns (z: Z)
    requires ValidArg(a, w) && l > 0
    ensures Valid(z, w) && Value(z, w) == Field(ArgValue(a, w), o, l)
  {
    hide Base, Val, Pow, Field, Normal, Valid, Value;
    var p := a.limbs;
    var sz: nat := (l + w - 1) / w;
    FieldSize(l, sz, w);
    NormalDigits(p, w);
    NormalSize(p, w);
    var r := new nat[sz + 1];
    var cr := WindowLimbs(r, p, sz, o, w);
    ghost var x, q := Val(p, Base(w)) / Pow(2, o), Pow(Base(w), sz);
    if a.negative {
      ComplementLimbs(r, sz, w);
      cr := ScanLow(cr, p, if o / w < |p| then o / w else |p|, w);
      NegFloor(Val(p, Base(w)), Pow(2, o));
      NegateLow(x, q, Val(r[..sz], Base(w)));
      if o / w >= |p| {
        NegativeSticky(p, o, w);
      }
      if cr == 0 {
        AddOneWrapping(r, sz, w);
      }
    }
    assert Val(r[..sz], Base(w)) == (ArgValue(a, w) / Pow(2, o)) % q;
    MaskTop(r, sz, l, w);
    FieldFromLimbs(ArgValue(a, w), o, l, sz, w);
    z := Reduce(r, sz, false, w);
  }

  lemma FieldSize(l: nat, sz: nat, w: WordBits)
    requires l > 0 && sz == (l + w - 1) / w
    ensures sz > 0 && w * (sz - 1) < l <= w * sz
  {
    DivMod(l + w - 1, w);
    assert w * (sz - 1) == w * sz - w;
  }

  // A negative number shifted past all its limbs loses bits that are not all zero.
  lemma NegativeSticky(p: seq<nat>, o: nat, w: WordBits)
    requires Normal(p, w) && |p| > 0 && o / w >= |p|
    ensures Pow(2, o) > 0 && Val(p, Base(w)) % Pow(2, o) != 0
    ensures p[..|p|] == p && Val(p, Base(w)) != 0
  {
    hide Base, Val, Pow;
    NormalSize(p, w);
    NothingLeft(p, o, w);
    DivMod(Val(p, Base(w)), Pow(2, o));
  }

  lemma FieldFromLimbs(x: int, o: nat, l: nat, sz: nat, w: WordBits)
    requires l <= w * sz
    ensures Pow(2, o) > 0 && Pow(Base(w), sz) > 0 && Pow(2, l) > 0
    ensures Field(x, o, l) == ((x / Pow(2, o)) % Pow(Base(w), sz)) % Pow(2, l)
  {
    hide Pow;
    PowPositive(o);
    PowPositive(l);
    PowMul(2, w, sz);
    PowPositive(w * sz);
    ModMod(x / Pow(2, o), l, w * sz);
  }

  /** Bits o to o + l - 1 of the number, as a non-negative number. */
  method Extract(x: Z, off: int, l: int, w: WordBits) returns (res: Result<Z>)
    requires Valid(x, w)
    ensures off < 0 || l <= 0 <==> res.InvalidArgument?
    ensures res.Ok? ==> Valid(res.value, w) && Value(res.value, w) == Field(Value(x, w), off, l)
  {
    hide Base, Val, Pow, Field, Unpack;
    if off < 0 {
      return InvalidArgument;
    }
    if l <= 0 {
      return InvalidArgument;
    }
    var o: nat := off;
    if x.Small? {
      if o >= w {
        o := w - 1;
      }
      PowPositive(o);
      var n := x.n / Pow(2, o);
      SmallField(x.n, off, o, l, w);
      if l < w - 1 {
        PowPositive(l);
        return Ok(Small(And(Wrap(n, w), Pow(2, l) - 1)));
      } else if n >= 0 {
        return Ok(Small(n));
      }
    }
    var a := Unpack(x, w);
    var z := ExtractArg(a, o, l, w);
    res := Ok(z);
  }

  // The fast path: the offset may be clipped, and masking a word cuts the number.
  lemma SmallField(n: int, off: nat, o: nat, l: nat, w: WordBits)
    requires FitsInt(n, w) && o == (if off >= w then w - 1 else off) && l > 0
    ensures Pow(2, o) > 0 && Field(n, off, l) == Field(n, o, l)
    ensures l < w - 1 ==> Pow(2, l) >= 1 && FitsInt(Field(n, off, l), w) &&
                          And(Wrap(n / Pow(2, o), w), Pow(2, l) - 1) == Field(n, off, l)
    ensures l >= w - 1 && n / Pow(2, o) >= 0 ==>
            FitsInt(n / Pow(2, o), w) && n / Pow(2, o) == Field(n, off, l)
  {
    hide Pow, And;
    PowPositive(o);
    PowPositive(l);
    var m := n / Pow(2, o);
    SmallRange(n, w);
    if off >= w {
      PowPositive(off);
      ShiftedOut(n, w - 1, o);
      ShiftedOut(n, w - 1, off);
    }
    if l < w - 1 {
      AndMask(Wrap(m, w), l);
      ModMod(m, l, w);
      PowMono(2, l, w - 2);
    } else {
      PowMono(2, w - 2, l);
      NativeSigns(w);
      FloorInRange(n, MinInt(w), MaxInt(w), Pow(2, o));
      if m >= 0 {
        DivUnique(m, Pow(2, l), 0, m);
      }
    }
  }

  // Digit q of m - 1: the borrow reaches it when all limbs below are zero.
  lemma DecrementedDigit(p: seq<nat>, q: nat, w: WordBits)
    requires IsDigits(p, Base(w)) && q < |p| && Val(p, Base(w)) > 0
    ensures Pow(Base(w), q) > 0
    ensures ((Val(p, Base(w)) - 1) / Pow(Base(w), q)) % Base(w)
            == if Val(p[..q], Base(w)) == 0 then Wrap(p[q] as int - 1, w) else p[q]
  {
    hide Base, Val, Pow, Wrap;
    var v, l, h, b := Val(p, Base(w)), Val(p[..q], Base(w)), Val(p[q..], Base(w)), Pow(Base(w), q);
    BasePositive(w, q);
    ValSplit(p, q, Base(w));
    ValBound(p[..q], Base(w));
    ValLow(p[q..], Base(w));
    if l == 0 {
      MulPred(h, b);
      DivUnique(v - 1, b, h - 1, b - 1);
      DivMod(h, Base(w));
      WrapOfPred(h, p[q], w);
    } else {
      DivUnique(v - 1, b, h, l - 1);
    }
  }

  lemma MulPred(h: int, b: int)
    ensures (h - 1) * b == h * b - b
  {
  }

  lemma WrapOfPred(h: int, d: nat, w: WordBits)
    requires d == h % Base(w)
    ensures (h - 1) % Base(w) == Wrap(d as int - 1, w)
  {
    hide Base;
    DivMod(h, Base(w));
    DivAddMultiple(d - 1, h / Base(w), Base(w));
  }

  // Bit i of a number is bit i % w of its digit i / w.
  lemma BitOfDigit(x: int, w: WordBits, i: nat)
    ensures Pow(Base(w), i / w) > 0
    ensures Bit(x, i) == Bit((x / Pow(Base(w), i / w)) % Base(w), i % w)
  {
    hide Bit, Pow;
    DivMod(i, w);
    PowMul(2, w, i / w);
    BasePositive(w, i / w);
    BitShift(x, w * (i / w), i % w);
    BitMod(x / Pow(2, w * (i / w)), w, i % w);
  }

  // The limb the slow path tests: complemented, or negated when the borrow gets there.
  lemma NegativeBit(p: seq<nat>, i: nat, limb: nat, w: WordBits)
    requires IsDigits(p, Base(w)) && i / w < |p| && Val(p, Base(w)) > 0
    requires limb == if Val(p[..i / w], Base(w)) == 0 then Wrap(-(p[i / w] as int), w) else NotLimb(p[i / w], w)
    ensures Bit(limb, i % w) == Bit(-(Val(p, Base(w)) as int), i)
  {
    hide Bit, Pow, Val, Wrap;
    var v, d := Val(p, Base(w)), p[i / w];
    DecrementedDigit(p, i / w, w);
    BitOfDigit(v - 1, w, i);
    BitComplement(v - 1, i);
    if Val(p[..i / w], Base(w)) == 0 {
      NegateLimb(d, w);
      BitNot(Wrap(d as int - 1, w), w, i % w);
    } else {
      BitNot(d, w, i % w);
    }
  }

  lemma PositiveBit(p: seq<nat>, i: nat, w: WordBits)
    requires IsDigits(p, Base(w)) && i / w < |p|
    ensures Bit(p[i / w], i % w) == Bit(Val(p, Base(w)), i)
  {
    hide Bit, Val;
    ValBit(p, w, i);
  }

  lemma NegateLimb(d: nat, w: WordBits)
    requires d < Base(w)
    ensures Wrap(-(d as int), w) == NotLimb(Wrap(d as int - 1, w), w)
  {
    WrapDown(-(d as int), w);
    WrapDown(d as int - 1, w);
  }

  /** Bit n of the number as infinite two's complement. */
  method TestBitInternal(x: Z, index: nat, w: WordBits) returns (bit: bool)
    requires Valid(x, w)
    ensures bit == Bit(Value(x, w), index)
  {
    hide Base, Val, Pow, Bit, Unpack, Wrap, NotLimb;
    if x.Small? {
      var k: nat := index;
      if k >= w {
        k := w - 1;
        SmallRange(x.n, w);
        SignBits(x.n, w - 1, k);
        SignBits(x.n, w - 1, index);
      }
      return Bit(x.n, k);
    }
    var a := Unpack(x, w);
    NormalDigits(a.limbs, w);
    NormalSize(a.limbs, w);
    if index / w >= |a.limbs| {
      BitPastLimbs(a, index, w);
      return a.negative;
    }
    var limb: nat := a.limbs[index / w];
    PositiveBit(a.limbs, index, w);
    if a.negative {
      var below := ScanLow(0, a.limbs, index / w, w);
      limb := if below != 0 then NotLimb(limb, w) else Wrap(-(limb as int), w);
      NegativeBit(a.limbs, index, limb, w);
    }
    bit := Bit(limb, index % w);
  }

  lemma BitPastLimbs(a: Arg, i: nat, w: WordBits)
    requires ValidArg(a, w) && i / w >= |a.limbs|
    ensures Bit(ArgValue(a, w), i) == a.negative
  {
    hide Base, Val, Pow, Bit;
    ShiftedAway(a, i, w);
    BitShift(ArgValue(a, w), i, 0);
    BitZeroth(if a.negative then -1 else 0);
  }

  method TestBit(x: Z, n: int, w: WordBits) returns (res: Result<bool>)
    requires Valid(x, w)
    ensures n < 0 <==> res.InvalidArgument?
    ensures n >= 0 ==> res == Ok(Bit(Value(x, w), n))
  {
    if n >= 0 {
      var b := TestBitInternal(x, n, w);
      res := Ok(b);
    } else {
      res := InvalidArgument;
    }
  }

  // The top bit of the field tells in which half it is.
  lemma FieldTop(x: int, o: nat, l: nat)
    requires l > 0
    ensures Bit(x, o + l - 1) <==> Field(x, o, l) >= Pow(2, l - 1)
    ensures Pow(2, l) == 2 * Pow(2, l - 1) && Field(x, o, l) < Pow(2, l)
  {
    hide Bit;
    var e := Field(x, o, l);
    PowPositive(l);
    PowPositive(o);
    FieldBits(x, o, l, l - 1);
    if e >= Pow(2, l - 1) {
      DivUnique(e, Pow(2, l - 1), 1, e - Pow(2, l - 1));
      BitShift(e, l - 1, 0);
      BitZeroth(1);
    } else {
      BitSmall(e, l - 1, l - 1);
    }
  }

  // The field of the complement is the complement of the field.
  lemma FieldComplement(x: int, o: nat, l: nat)
    ensures Field(-1 - x, o, l) == Pow(2, l) - 1 - Field(x, o, l)
  {
    hide Pow;
    var p, q := Pow(2, o), Pow(2, l);
    PowPositive(o);
    PowPositive(l);
    DivMod(x, p);
    assert -1 - x == (-1 - x / p) * p + (p - 1 - x % p);
    DivUnique(-1 - x, p, -1 - x / p, p - 1 - x % p);
    NegateLow(x / p, q, q - 1 - (x / p) % q);
  }

  /** The field of l bits from o on, read as a signed number. */
  method SignedExtract(x: Z, o: int, l: int, w: WordBits) returns (res: Result<Z>)
    requires Valid(x, w)
    ensures o < 0 || l < 1 <==> res.InvalidArgument?
    ensures res.Ok? ==> Valid(res.value, w) && Pow(2, l - 1) > 0 && Pow(2, l) > 0
    ensures res.Ok? ==> 0 <= Value(res.value, w) + Pow(2, l - 1) && Value(res.value, w) < Pow(2, l - 1)
    ensures res.Ok? ==> Value(res.value, w) % Pow(2, l) == Field(Value(x, w), o, l)
  {
    hide Base, Val, Bit, Field, Value, Valid, Pow;
    if o < 0 {
      return InvalidArgument;
    }
    if l < 1 {
      return InvalidArgument;
    }
    FieldTop(Value(x, w), o, l);
    PowPositive(l - 1);
    var top := TestBitInternal(x, o + l - 1, w);
    ghost var e: nat := Field(Value(x, w), o, l);
    if top {
      var c := LogNot(x, w);
      var f := Extract(c, o, l, w);
      FieldComplement(Value(x, w), o, l);
      var z := LogNot(f.value, w);
      DivUnique(Value(z, w), Pow(2, l), -1, e);
      res := Ok(z);
    } else {
      res := Extract(x, o, l, w);
      DivUnique(e, Pow(2, l), 0, e);
    }
  }
}
