/** Little-endian digit sequences and the numbers they stand for. */
module Digits {
  import opened Arith
  import opened Bits

  ghost predicate IsDigits(s: seq<nat>, b: nat) {
    forall i :: 0 <= i < |s| ==> s[i] < b
  }

  // The number whose digits in base b are s, least significant digit first.
  function Val(s: seq<nat>, b: nat): nat {
    if |s| == 0 then 0 else Val(s[..|s| - 1], b) + s[|s| - 1] * Pow(b, |s| - 1)
  }

  // A slice of a slice.
  lemma SubSlice<T>(f: seq<T>, o: nat, p: nat, i: nat, k: nat)
    requires o <= p <= |f| && i <= k <= p - o
    ensures f[o..p][i..k] == f[o + i..o + k]
  {
    var s, t := f[o..p][i..k], f[o + i..o + k];
    assert |s| == |t| && forall j :: 0 <= j < |s| ==> s[j] == t[j];
  }

  // Two sequences that agree on a range agree on every range inside it.
  lemma AgreeWithin<T>(f: seq<T>, g: seq<T>, o: nat, p: nat, i: nat, k: nat)
    requires o <= i <= k <= p <= |f| == |g| && f[o..p] == g[o..p]
    ensures f[i..k] == g[i..k]
  {
    SubSlice(f, o, p, i - o, k - o);
    SubSlice(g, o, p, i - o, k - o);
  }

  lemma ValSnoc(s: seq<nat>, d: nat, b: nat)
    ensures Val(s + [d], b) == Val(s, b) + d * Pow(b, |s|)
  {
    assert (s + [d])[..|s|] == s;
  }

  lemma {:induction false} ValConcat(s: seq<nat>, t: seq<nat>, b: nat)
    ensures Val(s + t, b) == Val(s, b) + Val(t, b) * Pow(b, |s|)
  {
    if |t| == 0 {
      assert s + t == s;
    } else {
      var t0, d := t[..|t| - 1], t[|t| - 1];
      ValConcat(s, t0, b);
      assert s + t == (s + t0) + [d];
      ValSnoc(s + t0, d, b);
      PowAdd(b, |s|, |t0|);
      Distribute(Val(t0, b), d, Pow(b, |t0|), Pow(b, |s|));
    }
  }

  lemma Distribute(v: int, d: int, q: int, p: int)
    ensures (v + d * q) * p == v * p + d * (p * q)
  {
  }

  // A single split of a digit range.
  lemma ValSplit(s: seq<nat>, i: nat, b: nat)
    requires i <= |s|
    ensures Val(s, b) == Val(s[..i], b) + Val(s[i..], b) * Pow(b, i)
  {
    assert s == s[..i] + s[i..];
    ValConcat(s[..i], s[i..], b);
  }

  // One more digit of a prefix.
  lemma ValStep(s: seq<nat>, i: nat, b: nat)
    requires i < |s|
    ensures Val(s[..i + 1], b) == Val(s[..i], b) + s[i] * Pow(b, i)
  {
    assert s[..i + 1] == s[..i] + [s[i]];
    ValSnoc(s[..i], s[i], b);
  }

  // Sequences that differ only below i differ by what their low parts do.
  lemma ValChange(s: seq<nat>, t: seq<nat>, i: nat, b: nat)
    requires |s| == |t| && i <= |s| && s[i..] == t[i..]
    ensures Val(t, b) - Val(s, b) == Val(t[..i], b) - Val(s[..i], b)
  {
    ValSplit(s, i, b);
    ValSplit(t, i, b);
  }

  /**
   One step of a carry chain over the digits of s. The low i digits of r are done:
   they are worth those of s plus E, less a carry c into digit i. Writing x there,
   with a carry c' into the next digit, adds e to digit i.
   */
  lemma CarryStep(r: seq<nat>, s: seq<nat>, i: nat, x: nat, c: int, c': int, E: int, e: int, b: nat)
    requires i < |s| && |r| == |s| && r[i..] == s[i..] && IsDigits(r, b) && x < b
    requires Val(r[..i], b) + c * Pow(b, i) == Val(s[..i], b) + E
    requires x + c' * b == s[i] + c + e
    ensures IsDigits(r[i := x], b) && r[i := x][i + 1..] == s[i + 1..]
    ensures Val(r[i := x][..i + 1], b) + c' * Pow(b, i + 1) == Val(s[..i + 1], b) + E + e * Pow(b, i)
  {
    var t, p := r[i := x], Pow(b, i);
    assert t[..i] == r[..i] && t[i + 1..] == r[i + 1..] && r[i + 1..] == r[i..][1..];
    ValStep(t, i, b);
    ValStep(s, i, b);
    CarryValue(x, c', b, s[i], c, e, p);
  }

  lemma CarryValue(x: int, c': int, b: int, d: int, c: int, e: int, p: int)
    requires x + c' * b == d + c + e
    ensures x * p + c' * (b * p) == d * p + c * p + e * p
  {
    assert (x + c' * b) * p == (d + c + e) * p;
  }

  // The same step of a borrow chain.
  lemma BorrowStep(r: seq<nat>, s: seq<nat>, i: nat, x: nat, c: int, c': int, E: int, e: int, b: nat)
    requires i < |s| && |r| == |s| && r[i..] == s[i..] && IsDigits(r, b) && x < b
    requires Val(r[..i], b) - c * Pow(b, i) == Val(s[..i], b) - E
    requires x - c' * b == s[i] - c - e
    ensures IsDigits(r[i := x], b) && r[i := x][i + 1..] == s[i + 1..]
    ensures Val(r[i := x][..i + 1], b) - c' * Pow(b, i + 1) == Val(s[..i + 1], b) - (E + e * Pow(b, i))
  {
    hide *;
    NegMul(c, Pow(b, i)); NegMul(c', Pow(b, i + 1)); NegMul(c', b); NegMul(e, Pow(b, i));
    CarryStep(r, s, i, x, -c, -c', -E, -e, b);
  }

  lemma NegMul(x: int, y: int)
    ensures (-x) * y == -(x * y)
  {
  }

  // Once a carry chain has ended below i, the whole numbers differ by E.
  lemma CarryDone(r: seq<nat>, s: seq<nat>, i: nat, E: int, b: nat)
    requires i <= |s| && |r| == |s| && r[i..] == s[i..]
    requires Val(r[..i], b) == Val(s[..i], b) + E
    ensures Val(r, b) == Val(s, b) + E
  {
    ValChange(s, r, i, b);
  }

  lemma ValEmpty(b: nat)
    ensures Val([], b) == 0
  {
  }

  lemma ValOne(d: nat, b: nat)
    ensures Val([d], b) == d
  {
    ValSnoc([], d, b);
  }

  lemma ValCons(d: nat, s: seq<nat>, b: nat)
    ensures Val([d] + s, b) == d + b * Val(s, b)
  {
    ValConcat([d], s, b);
    ValOne(d, b);
    assert Pow(b, 1) == b;
  }

  lemma {:induction false} ValBound(s: seq<nat>, b: nat)
    requires IsDigits(s, b)
    ensures Val(s, b) < Pow(b, |s|) || (b == 0 && s == [])
    ensures b >= 1 ==> Val(s, b) < Pow(b, |s|)
  {
    if |s| > 0 {
      var t, d := s[..|s| - 1], s[|s| - 1];
      var p := Pow(b, |s| - 1);
      ValBound(t, b);
      MulMono(d, b - 1, p);
      assert (b - 1) * p == b * p - p;
    }
  }

  lemma {:induction false} ValZero(s: seq<nat>, b: nat)
    requires forall i :: 0 <= i < |s| ==> s[i] == 0
    ensures Val(s, b) == 0
  {
    if |s| > 0 {
      ValZero(s[..|s| - 1], b);
    }
  }

  // A number is zero only when all its digits are.
  lemma {:induction false} ValIsZero(s: seq<nat>, b: nat)
    requires b >= 1 && Val(s, b) == 0
    ensures forall i :: 0 <= i < |s| ==> s[i] == 0
  {
    if |s| > 0 {
      var d, p := s[|s| - 1], Pow(b, |s| - 1);
      if d > 0 {
        MulMono(1, d, p);
      }
      ValIsZero(s[..|s| - 1], b);
    }
  }

  // The digits of a number are determined by its value and their count.
  lemma {:induction false} ValUnique(s: seq<nat>, t: seq<nat>, b: nat)
    requires b >= 1 && |s| == |t| && IsDigits(s, b) && IsDigits(t, b)
    requires Val(s, b) == Val(t, b)
    ensures s == t
  {
    if |s| > 0 {
      var n := |s| - 1;
      var p := Pow(b, n);
      ValBound(s[..n], b);
      ValBound(t[..n], b);
      DivUnique(Val(s, b), p, s[n], Val(s[..n], b));
      DivUnique(Val(t, b), p, t[n], Val(t[..n], b));
      ValUnique(s[..n], t[..n], b);
      assert s == s[..n] + [s[n]] && t == t[..n] + [t[n]];
    }
  }

  // The top digit is the value divided by the weight of its place.
  lemma ValTop(s: seq<nat>, b: nat)
    requires b >= 1 && |s| > 0 && IsDigits(s, b)
    ensures s[|s| - 1] * Pow(b, |s| - 1) <= Val(s, b) < (s[|s| - 1] + 1) * Pow(b, |s| - 1)
  {
    ValBound(s[..|s| - 1], b);
  }

  // Zero digits on top do not change the value.
  lemma ValTrim(s: seq<nat>, n: nat, b: nat)
    requires n <= |s| && forall i :: n <= i < |s| ==> s[i] == 0
    ensures Val(s, b) == Val(s[..n], b)
  {
    ValSplit(s, n, b);
    ValZero(s[n..], b);
  }

  // The lowest digit is the value modulo the base.
  lemma ValLow(s: seq<nat>, b: nat)
    requires b >= 1 && |s| > 0 && s[0] < b
    ensures s[0] == Val(s, b) % b && Val(s[1..], b) == Val(s, b) / b
  {
    assert s == [s[0]] + s[1..];
    ValCons(s[0], s[1..], b);
    DivUnique(Val(s, b), b, Val(s[1..], b), s[0]);
  }

  // Dropping the low digits is dividing by their weight.
  lemma ValDrop(s: seq<nat>, b: nat, q: nat)
    requires b >= 1 && IsDigits(s, b) && q <= |s|
    ensures Val(s[q..], b) == Val(s, b) / Pow(b, q) && Val(s[..q], b) == Val(s, b) % Pow(b, q)
  {
    ValSplit(s, q, b);
    ValBound(s[..q], b);
    DivUnique(Val(s, b), Pow(b, q), Val(s[q..], b), Val(s[..q], b));
  }

  // Digit q is the value divided by the weight of its place, modulo the base.
  lemma ValDigit(s: seq<nat>, b: nat, q: nat)
    requires b >= 1 && IsDigits(s, b) && q < |s|
    ensures s[q] == (Val(s, b) / Pow(b, q)) % b
  {
    ValDrop(s, b, q);
    ValLow(s[q..], b);
  }

  /** Bit w * q + r of a number in base 2^w is bit r of its digit q. */
  lemma ValBitAt(s: seq<nat>, w: nat, q: nat, r: nat)
    requires r < w && IsDigits(s, Pow(2, w))
    ensures Bit(Val(s, Pow(2, w)), w * q + r) == (q < |s| && Bit(s[q], r))
  {
    hide Bit, Pow, Val;
    var b := Pow(2, w);
    var v := Val(s, b);
    if q < |s| {
      ValDigit(s, b, q);
      PowMul(2, w, q);
      BitShift(v, w * q, r);
      BitMod(v / Pow(2, w * q), w, r);
    } else {
      ValBound(s, b);
      PowMul(2, w, |s|);
      MulMono(|s|, q, w);
      BitSmall(v, w * |s|, w * q + r);
    }
  }

  lemma ValBit(s: seq<nat>, w: nat, i: nat)
    requires w >= 1 && IsDigits(s, Pow(2, w))
    ensures Bit(Val(s, Pow(2, w)), i) == (i / w < |s| && Bit(s[i / w], i % w))
  {
    hide *;
    DivMod(i, w);
    ValBitAt(s, w, i / w, i % w);
  }
}
