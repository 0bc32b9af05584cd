/** Significant digits and comparison of numbers of any two lengths. */
module BngCompare {
  import opened Arith
  import opened Digits
  import opened BngDigit

  // A longer number with a non-zero top digit is larger.
  lemma LongerIsLarger(s: seq<nat>, t: seq<nat>, b: nat)
    requires b >= 1 && IsDigits(s, b) && IsDigits(t, b)
    requires |s| > |t| && s[|s| - 1] != 0
    ensures Val(s, b) > Val(t, b)
  {
    hide Val, Pow;
    ValBound(t, b);
    ValTop(s, b);
    PowMono(b, |t|, |s| - 1);
    MulMono(1, s[|s| - 1], Pow(b, |s| - 1));
  }

  // Numbers of one length that agree above digit i are ordered by digit i.
  lemma DigitDecides(s: seq<nat>, t: seq<nat>, i: nat, b: nat)
    requires b >= 1 && IsDigits(s, b) && IsDigits(t, b)
    requires |s| == |t| && i < |s| && s[i + 1..] == t[i + 1..] && s[i] > t[i]
    ensures Val(s, b) > Val(t, b)
  {
    ValBound(t[..i], b);
    hide *;
    ValChange(t, s, i + 1, b);
    ValStep(s, i, b);
    ValStep(t, i, b);
    HigherDigit(s[i], t[i], Pow(b, i));
  }

  lemma HigherDigit(x: nat, y: nat, p: nat)
    requires x > y
    ensures x * p >= y * p + p
  {
    MulMono(y + 1, x, p);
  }

  /** The number of significant digits, at least one. */
  method NumDigits(a: array<nat>, o: nat, n: nat, w: WordBits) returns (r: nat)
    requires o + n <= a.Length && IsDigits(a[o..o + n], Base(w))
    ensures 1 <= r && (n > 0 ==> r <= n)
    ensures n > 0 ==> Val(a[o..o + n], Base(w)) == Val(a[o..o + r], Base(w))
    ensures n > 0 && r > 1 ==> a[o + r - 1] != 0
    ensures n == 0 ==> r == 1
  {
    hide Val, Pow, Base;
    ghost var s := a[o..o + n];
    var k: nat := n;
    while true
      invariant k <= n && forall i :: k <= i < n ==> s[i] == 0
      decreases k
    {
      if k == 0 {
        if n > 0 {
          ValTrim(a[o..o + n], 1, Base(w));
          assert a[o..o + n][..1] == a[o..o + 1];
        }
        return 1;
      }
      if a[o + k - 1] != 0 {
        ValTrim(a[o..o + n], k, Base(w));
        assert a[o..o + n][..k] == a[o..o + k];
        return k;
      }
      k := k - 1;
    }
  }

  // The length without leading zero digits.
  method Trim(a: array<nat>, o: nat, n: nat, w: WordBits) returns (k: nat)
    requires o + n <= a.Length
    ensures k <= n && (k > 0 ==> a[o + k - 1] != 0)
    ensures Val(a[o..o + n], Base(w)) == Val(a[o..o + k], Base(w))
  {
    hide Val, Pow, Base;
    ghost var s := a[o..o + n];
    k := n;
    while k > 0 && a[o + k - 1] == 0
      invariant k <= n && forall i :: k <= i < n ==> s[i] == 0
    {
      k := k - 1;
    }
    ValTrim(a[o..o + n], k, Base(w));
    assert a[o..o + n][..k] == a[o..o + k];
  }

  /** Compares {a,an} with {b,bn}: -1, 0 or 1. */
  method Compare(a: array<nat>, ao: nat, an: nat, b: array<nat>, bo: nat, bn: nat, w: WordBits) returns (r: int)
    requires ao + an <= a.Length && bo + bn <= b.Length
    requires IsDigits(a[ao..ao + an], Base(w)) && IsDigits(b[bo..bo + bn], Base(w))
    ensures r == 0 || r == 1 || r == -1
    ensures r == 1 <==> Val(a[ao..ao + an], Base(w)) > Val(b[bo..bo + bn], Base(w))
    ensures r == 0 <==> Val(a[ao..ao + an], Base(w)) == Val(b[bo..bo + bn], Base(w))
  {
    hide Val, Pow, Base;
    var alen: nat := Trim(a, ao, an, w);
    var blen: nat := Trim(b, bo, bn, w);
    ghost var B: nat, s, t := Base(w), a[ao..ao + alen], b[bo..bo + blen];
    assert IsDigits(s, B) && IsDigits(t, B) by {
      assert s == a[ao..ao + an][..alen] && t == b[bo..bo + bn][..blen];
    }
    if alen > blen {
      LongerIsLarger(s, t, B);
      return 1;
    }
    if alen < blen {
      LongerIsLarger(t, s, B);
      return -1;
    }
    while alen > 0
      invariant alen <= |s| == |t| && s[alen..] == t[alen..]
    {
      alen := alen - 1;
      var da, db := a[ao + alen], b[bo + alen];
      assert da == s[alen] && db == t[alen];
      if da > db {
        DigitDecides(s, t, alen, B);
        return 1;
      }
      if da < db {
        DigitDecides(t, s, alen, B);
        return -1;
      }
      assert s[alen..] == [da] + s[alen + 1..] && t[alen..] == [db] + t[alen + 1..];
    }
    assert s[0..] == s && t[0..] == t;
    return 0;
  }
}
