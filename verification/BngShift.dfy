/** Shifts of a number by less than a digit, and the leading zeros of a digit. */
module BngShift {
  import opened Arith
  import opened Bits
  import opened Digits
  import opened BngDigit
  import opened Bng

  lemma BaseSplit(s: nat, w: WordBits)
    requires s <= w
    ensures Base(w) == Pow(2, w - s) * Pow(2, s)
  {
    PowAdd(2, w - s, s);
  }

  // Splitting a digit where a left shift by s cuts it.
  lemma ShlDigit(d: nat, s: nat, c: nat, w: WordBits)
    requires 0 < s < w && d < Base(w) && c < Pow(2, s)
    ensures var x, c' := Or(Shl(d, s, w), c), Shr(d, w - s);
            x < Base(w) && c' < Pow(2, s) && x + c' * Base(w) == d * Pow(2, s) + c
  {
    hide Pow, Or, Shl, Base;
    BaseSplit(s, w);
    ghost var p: nat, q: nat := Pow(2, w - s), Pow(2, s);
    ghost var h: nat, l: nat := Shr(d, w - s), d % p;
    assert d == h * p + l && l < p by { DivMod(d, p); }
    hide *;
    MulCancelLt(h, q, p);
    ShlValue(d, s, h, l, w);
    OrDisjoint(l, c, s);
    FitsBelow(l, c, p, q);
  }

  lemma FitsBelow(l: nat, c: nat, p: nat, q: nat)
    requires l < p && c < q
    ensures l * q + c < p * q
  {
    MulMono(l + 1, p, q);
  }

  lemma ShlValue(d: nat, s: nat, h: nat, l: nat, w: WordBits)
    requires 0 < s < w && l < Pow(2, w - s) && d == h * Pow(2, w - s) + l
    ensures Shl(d, s, w) == l * Pow(2, s) && d * Pow(2, s) == h * Base(w) + l * Pow(2, s)
  {
    hide Pow, Wrap, Base;
    BaseSplit(s, w);
    ShlSplit(d, h, l, Pow(2, w - s), Pow(2, s));
    MulStrict(l, Pow(2, w - s), Pow(2, s));
    MulMono(0, l, Pow(2, s));
    WrapUnique(d * Pow(2, s), h, l * Pow(2, s), w);
  }

  lemma ShlSplit(d: int, h: int, l: int, p: int, q: int)
    requires d == h * p + l
    ensures d * q == h * (p * q) + l * q
  {
  }

  /** {a,n} := {a,n} << shift; returns the bits shifted out on top. */
  method ShiftLeft(a: array<nat>, o: nat, n: nat, shift: nat, w: WordBits) returns (out: nat)
    requires o + n <= a.Length && shift < w && IsDigits(a[o..o + n], Base(w))
    modifies a
    ensures IsDigits(a[o..o + n], Base(w)) && out < Pow(2, shift) && OnlyRange(a, o, n)
    ensures Val(a[o..o + n], Base(w)) + out * Pow(Base(w), n) == old(Val(a[o..o + n], Base(w))) * Pow(2, shift)
  {
    hide Val, Pow, Base, IsDigits, Shl, Shr, Or, ShiftedUp;
    out := 0;
    ghost var b: nat, s, p: nat := Base(w), a[o..o + n], Pow(2, shift);
    PowZero(2);
    if shift > 0 {
      StartShift(s, p, b);
      var i: nat := 0;
      while i < n
        invariant i <= n && a[o..o + n][i..] == s[i..]
        invariant IsDigits(a[o..o + n], b) && OnlyRange(a, o, n) && out < p
        invariant ShiftedUp(a[o..o + n], s, i, out, p, b)
      {
        ghost var r, c := a[o..o + n], out;
        SameDigit(r, s, i, b);
        var d := a[o + i];
        ShlDigit(d, shift, c, w);
        a[o + i] := Or(Shl(d, shift, w), out);
        out := Shr(d, w - shift);
        ghost var x := a[o + i];
        assert a[o..o + n] == r[i := x];
        ShiftUpStep(r, s, i, c, x, out, p, b);
        i := i + 1;
      }
      DoneShift(a[o..o + n], s, out, p, b);
    }
  }

  // The low i digits of r are those of s times p, with out carried into digit i.
  ghost predicate ShiftedUp(r: seq<nat>, s: seq<nat>, i: nat, out: nat, p: nat, b: nat)
    requires i <= |r| == |s|
  {
    Val(r[..i], b) + out * Pow(b, i) == Val(s[..i], b) * p
  }

  lemma StartShift(s: seq<nat>, p: nat, b: nat)
    ensures ShiftedUp(s, s, 0, 0, p, b)
  {
  }

  lemma DoneShift(r: seq<nat>, s: seq<nat>, out: nat, p: nat, b: nat)
    requires |r| == |s| && ShiftedUp(r, s, |s|, out, p, b)
    ensures Val(r, b) + out * Pow(b, |s|) == Val(s, b) * p
  {
    assert r[..|s|] == r && s[..|s|] == s;
  }

  lemma ShiftUpStep(r: seq<nat>, s: seq<nat>, i: nat, c: nat, x: nat, c': nat, p: nat, b: nat)
    requires i < |s| == |r| && r[i..] == s[i..] && IsDigits(r, b) && x < b
    requires ShiftedUp(r, s, i, c, p, b) && x + c' * b == s[i] * p + c
    ensures IsDigits(r[i := x], b) && r[i := x][i + 1..] == s[i + 1..]
    ensures ShiftedUp(r[i := x], s, i + 1, c', p, b)
  {
    hide Val, Pow, IsDigits;
    PredMul(s[i], p); PredMul(Val(s[..i], b), p); PredMul(Val(s[..i + 1], b), p);
    CarryStep(r, s, i, x, c, c', Val(s[..i], b) * (p - 1), s[i] * (p - 1), b);
    ScaleStep(s, i, p - 1, b);
  }

  lemma PredMul(x: int, p: int)
    ensures x * (p - 1) == x * p - x
  {
  }

  // Splitting a digit where a right shift by s cuts it; r comes in from above.
  lemma ShrDigit(d: nat, s: nat, r: nat, c: nat, w: WordBits)
    requires 0 < s < w && d < Base(w) && r < Pow(2, s) && c == r * Pow(2, w - s)
    ensures var x := Or(Shr(d, s), c);
            x < Base(w) && Shl(d, w - s, w) == (d % Pow(2, s)) * Pow(2, w - s)
            && x * Pow(2, s) + d % Pow(2, s) == d + r * Base(w)
  {
    ghost var h: nat, l: nat := Shr(d, s), d % Pow(2, s);
    assert d == h * Pow(2, s) + l && l < Pow(2, s) by {
      hide Pow;
      DivMod(d, Pow(2, s));
    }
    assert l == d % Pow(2, s);
    hide *;
    ShrCut(d, s, h, l, w);
    ShrJoin(d, s, r, c, h, l, w);
  }

  // The bits cut off, moved to the top of a digit.
  lemma ShrCut(d: nat, s: nat, h: nat, l: nat, w: WordBits)
    requires 0 < s < w && d == h * Pow(2, s) + l && l < Pow(2, s)
    ensures Shl(d, w - s, w) == l * Pow(2, w - s)
  {
    hide *;
    assert w - (w - s) == s;
    ShlValue(d, w - s, h, l, w);
  }

  lemma ShrJoin(d: nat, s: nat, r: nat, c: nat, h: nat, l: nat, w: WordBits)
    requires 0 < s < w && d == h * Pow(2, s) + l && d < Base(w) && r < Pow(2, s) && c == r * Pow(2, w - s)
    ensures var x := Or(h, c);
            x < Base(w) && x * Pow(2, s) + l == d + r * Base(w)
  {
    hide *;
    BaseSplit(s, w);
    var p, q := Pow(2, w - s), Pow(2, s);
    MulCancelLt(h, p, q);
    OrComm(h, c);
    OrDisjoint(r, h, w - s);
    FitsBelow(r, h, q, p);
    ShrValue(r, p, q, h);
  }

  lemma ShrValue(r: int, p: int, q: int, h: int)
    ensures (r * p + h) * q == r * (p * q) + h * q
  {
  }

  // One step down: the digits from i on, shifted, with the bits r cut off below them.
  lemma DownStep(v: nat, V: nat, r: nat, d: nat, x: nat, r': nat, b: nat, q: nat)
    requires V * q + r == v && x * q + r' == d + r * b
    ensures (x + b * V) * q + r' == d + b * v
  {
    assert (x + b * V) * q == x * q + b * (V * q);
    assert b * v == b * (V * q) + b * r;
  }

  // Adding a digit below the ones from i on.
  lemma ValDown(s: seq<nat>, i: nat, b: nat)
    requires 0 < i <= |s|
    ensures Val(s[i - 1..], b) == s[i - 1] + b * Val(s[i..], b)
  {
    assert s[i - 1..] == [s[i - 1]] + s[i..];
    ValCons(s[i - 1], s[i..], b);
  }

  /** {a,n} := {a,n} >> shift; returns the bits shifted out below, left-aligned in a digit. */
  method ShiftRight(a: array<nat>, o: nat, n: nat, shift: nat, w: WordBits) returns (out: nat)
    requires o + n <= a.Length && shift < w && IsDigits(a[o..o + n], Base(w))
    modifies a
    ensures IsDigits(a[o..o + n], Base(w)) && OnlyRange(a, o, n)
    ensures Val(a[o..o + n], Base(w)) == old(Val(a[o..o + n], Base(w))) / Pow(2, shift)
    ensures out * Pow(2, shift) == (old(Val(a[o..o + n], Base(w))) % Pow(2, shift)) * Base(w)
  {
    hide Val, Pow, Base, IsDigits, Shl, Shr, Or;
    out := 0;
    ghost var b: nat, s, q: nat, r: nat := Base(w), a[o..o + n], Pow(2, shift), 0;
    PowZero(2);
    if shift > 0 {
      Start(s[n..], b);
      var i: nat := n;
      while i > 0
        invariant i <= n && a[o..o + n][..i] == s[..i]
        invariant IsDigits(a[o..o + n], b) && OnlyRange(a, o, n) && r < q && out == r * Pow(2, w - shift)
        invariant Val(a[o..o + n][i..], b) * q + r == Val(s[i..], b)
      {
        ghost var t, r0 := a[o..o + n], r;
        var d := a[o + i - 1];
        assert d == t[i - 1] == s[..i][i - 1] == t[..i][i - 1];
        assert d < b by { Member(t, i - 1, b); }
        ShrDigit(d, shift, r, out, w);
        a[o + i - 1] := Or(Shr(d, shift), out);
        out := Shl(d, w - shift, w);
        r := d % q;
        ghost var x := a[o + i - 1];
        assert a[o..o + n] == t[i - 1 := x];
        Overwrite(t, i - 1, x, b);
        ValDown(s, i, b);
        ValDown(t[i - 1 := x], i, b);
        DownStep(Val(s[i..], b), Val(t[i..], b), r0, d, x, r, b, q);
        assert t[..i][..i - 1] == t[..i - 1] && s[..i][..i - 1] == s[..i - 1];
        i := i - 1;
      }
      assert a[o..o + n][0..] == a[o..o + n] && s[0..] == s;
    }
    DivUnique(Val(s, b), q, Val(a[o..o + n], b), r);
    ShiftedOut(r, shift, w);
  }

  lemma ShiftedOut(r: nat, s: nat, w: WordBits)
    requires s <= w
    ensures (r * Pow(2, w - s)) * Pow(2, s) == r * Base(w)
  {
    hide *;
    BaseSplit(s, w);
    MulAssoc(r, Pow(2, w - s), Pow(2, s));
  }

  lemma Member(s: seq<nat>, i: nat, b: nat)
    requires i < |s| && IsDigits(s, b)
    ensures s[i] < b
  {
  }

  lemma Overwrite(s: seq<nat>, i: nat, x: nat, b: nat)
    requires i < |s| && IsDigits(s, b) && x < b
    ensures IsDigits(s[i := x], b) && s[i := x][..i] == s[..i] && s[i := x][i + 1..] == s[i + 1..]
  {
  }

  // The mask of the k bits above the low k, such as 0xFFFF0000 for k = 16.
  function HighMask(k: nat): nat { (Pow(2, k) - 1) * Pow(2, k) }

  // A 2k-bit word meets that mask exactly when its high half is not zero.
  lemma HighMaskTest(d: nat, k: nat)
    requires d < Pow(2, 2 * k)
    ensures (And(d, HighMask(k)) != 0) == (d >= Pow(2, k))
    ensures Shr(d, k) < Pow(2, k) && (d >= Pow(2, k) ==> Shr(d, k) > 0)
  {
    PowAdd(2, k, k);
    var p, h, l := Pow(2, k), Shr(d, k), d % Pow(2, k);
    assert d == h * p + l && l < p by {
      hide Pow;
      DivMod(d, p);
    }
    hide Pow, Shr, And;
    AndShift(h, l, p - 1, k);
    MulCancelLt(h, p, p);
    if h > 0 {
      MulMono(1, h, p);
    }
    AndMask(h, k);
    WrapNone(h, p);
  }

  // The digit has been shifted right by w - n so far, to d, which has the given bits.
  ghost predicate Shifted(digit: nat, d: nat, n: nat, bits: nat, w: WordBits) {
    && bits <= n <= w && d < Pow(2, bits) && (if digit > 0 then d > 0 else n == w)
    && d * Pow(2, w - n) <= digit < (d + 1) * Pow(2, w - n)
  }

  // One step of the search: drop the low k of 2k bits when the high ones are not zero.
  method HalveBits(ghost digit: nat, d0: nat, n0: nat, k: nat, w: WordBits) returns (d: nat, n: nat)
    requires Shifted(digit, d0, n0, 2 * k, w)
    ensures Shifted(digit, d, n, k, w)
  {
    HighMaskTest(d0, k);
    d, n := d0, n0;
    if And(d, HighMask(k)) != 0 {
      ShiftedStep(digit, d0, n0, k, w);
      n, d := n - k, Shr(d, k);
    }
  }

  lemma ShiftedStep(digit: nat, d: nat, n: nat, k: nat, w: WordBits)
    requires Shifted(digit, d, n, 2 * k, w)
    ensures Shr(d, k) * Pow(2, w - (n - k)) <= digit < (Shr(d, k) + 1) * Pow(2, w - (n - k))
  {
    ShrRange(d, k);
    assert k + (w - n) == w - (n - k);
    hide Pow, Shr;
    PowAdd(2, k, w - n);
    ComposeRange(Shr(d, k), Pow(2, k), d, Pow(2, w - n), digit);
  }

  lemma ComposeRange(h: nat, p: nat, d: nat, q: nat, x: nat)
    requires h * p <= d < (h + 1) * p && d * q <= x < (d + 1) * q
    ensures h * (p * q) <= x < (h + 1) * (p * q)
  {
    MulMono(h * p, d, q);
    MulMono(d + 1, (h + 1) * p, q);
    MulAssoc(h, p, q); MulAssoc(h + 1, p, q);
  }

  lemma ShrRange(d: nat, k: nat)
    ensures Shr(d, k) * Pow(2, k) <= d < (Shr(d, k) + 1) * Pow(2, k)
  {
    hide Pow;
    DivMod(d, Pow(2, k));
  }

  /** The number of leading zero bits of a digit. */
  method LeadingZeroBits(digit: nat, w: WordBits) returns (r: nat)
    requires digit < Base(w)
    ensures digit == 0 ==> r == w
    ensures digit > 0 ==> r < w && digit * Pow(2, r) < Base(w) <= 2 * (digit * Pow(2, r))
  {
    var d, n: nat := digit, w;
    hide *;
    StartShifted(digit, w);
    if w == 64 {
      d, n := HalveBits(digit, d, n, 32, w);
    }
    d, n := HalveBits(digit, d, n, 16, w);
    d, n := HalveBits(digit, d, n, 8, w);
    d, n := HalveBits(digit, d, n, 4, w);
    d, n := HalveBits(digit, d, n, 2, w);
    d, n := HalveBits(digit, d, n, 1, w);
    TopBit(digit, d, n, w);
    r := n - d;
  }

  lemma StartShifted(digit: nat, w: WordBits)
    requires digit < Base(w)
    ensures Shifted(digit, digit, w, w, w)
  {
    PowZero(2);
    hide Pow;
  }

  lemma TopBit(digit: nat, d: nat, n: nat, w: WordBits)
    requires Shifted(digit, d, n, 1, w)
    ensures d <= 1 && (digit == 0 ==> d == 0 && n == w)
    ensures digit > 0 ==> d == 1 && digit * Pow(2, n - 1) < Base(w) <= 2 * (digit * Pow(2, n - 1))
  {
    assert Pow(2, 1) == 2 * Pow(2, 0) == 2;
    hide Pow, Base;
    if d == 1 {
      BaseSplit(n - 1, w);
      assert w - (n - 1) == w - n + 1;
      Doubled(w - n);
      ScaleRange(Pow(2, w - n), digit, Pow(2, n - 1));
    }
  }

  lemma ScaleRange(p: nat, x: nat, q: nat)
    requires p <= x < 2 * p && 0 < q
    ensures x * q < (2 * p) * q <= 2 * (x * q)
  {
    MulStrict(x, 2 * p, q);
    MulMono(p, x, q);
  }

  lemma Doubled(n: nat)
    ensures Pow(2, n + 1) == 2 * Pow(2, n)
  {
  }
}
