/** Division: by one digit, and the long division of two numbers in place. */
module BngDiv {
  import opened Arith
  import opened Bits
  import opened Digits
  import opened BngDigit
  import opened Bng
  import opened BngShift
  import opened BngCompare

  // One digit of a division from the top: v is divided down to r, u is the next digit.
  lemma DigitDown(v: nat, q: nat, r: nat, u: nat, x: nat, r': nat, d: nat, b: nat)
    requires v == q * d + r && r * b + u == x * d + r'
    ensures u + b * v == (x + b * q) * d + r'
  {
    assert (q * d + r) * b == (b * q) * d + r * b;
  }

  // Where the quotient of {b,len} goes so that no digit is overwritten before it is read.
  ghost predicate QuotientAbove(a: array<nat>, ao: nat, b: array<nat>, bo: nat, len: nat)
    requires len > 0
  {
    Apart(a, ao, len - 1, b, bo, len) || (a == b && bo <= ao)
  }

  /**
   {a,len-1} := {b,len} / d, for a top digit of b below d; returns the remainder.
   Works on one array too, as long as the quotient is not placed below b.
   */
  method DivRemNormDigit(a: array<nat>, ao: nat, b: array<nat>, bo: nat, len: nat, d: nat, w: WordBits)
    returns (rem: nat)
    requires len > 0 && ao + (len - 1) <= a.Length && bo + len <= b.Length
    requires IsDigits(b[bo..bo + len], Base(w)) && b[bo + len - 1] < d < Base(w)
    requires QuotientAbove(a, ao, b, bo, len)
    modifies a
    ensures IsDigits(a[ao..ao + (len - 1)], Base(w)) && OnlyRange(a, ao, len - 1) && rem < d
    ensures old(Val(b[bo..bo + len], Base(w))) == Val(a[ao..ao + (len - 1)], Base(w)) * d + rem
  {
    hide Val, Pow, Base, IsDigits, DividedDown;
    ghost var B: nat, t := Base(w), b[bo..bo + len];
    var topdigit: nat := b[bo + len - 1];
    StartDown(t, a[ao..ao + (len - 1)], d, B);
    var i: nat := len - 1;
    while i > 0
      invariant i < len && topdigit < d && b[bo..bo + len][..i] == t[..i]
      invariant OnlyRange(a, ao, len - 1)
      invariant DividedDown(t, a[ao..ao + (len - 1)], i, topdigit, d, B)
    {
      ghost var f, r, top := a[..], a[ao..ao + (len - 1)], topdigit;
      var u := b[bo + i - 1];
      LastUnread(b[bo..bo + len], t, i, B);
      assert u == b[bo..bo + len][i - 1];
      var quo, next;
      ghost var highFixes, lowFixes;
      quo, next, highFixes, lowFixes := DivAux(topdigit, u, d, w);
      a[ao + i - 1] := quo;
      topdigit := next;
      if a == b {
        StillUnread(f, ao + i - 1, quo, bo, len, i);
      }
      assert a[ao..ao + (len - 1)] == r[i - 1 := quo];
      DownBy(t, r, i, quo, top, topdigit, d, B);
      i := i - 1;
    }
    DoneDown(t, a[ao..ao + (len - 1)], topdigit, d, B);
    return topdigit;
  }

  lemma LastUnread(r: seq<nat>, t: seq<nat>, i: nat, b: nat)
    requires 0 < i <= |r| == |t| && r[..i] == t[..i] && IsDigits(t, b)
    ensures r[i - 1] == t[i - 1] < b && r[..i - 1] == t[..i - 1]
  {
    assert r[i - 1] == r[..i][i - 1] == t[i - 1];
    assert r[..i - 1] == r[..i][..i - 1] && t[..i - 1] == t[..i][..i - 1];
  }

  // The digits of t from i on, divided by d, are q's, and r is what remains.
  ghost predicate DividedDown(t: seq<nat>, q: seq<nat>, i: nat, r: nat, d: nat, b: nat)
    requires i <= |q| < |t|
  {
    IsDigits(q[i..], b) && Val(t[i..], b) == Val(q[i..], b) * d + r
  }

  lemma StartDown(t: seq<nat>, q: seq<nat>, d: nat, b: nat)
    requires |t| == |q| + 1
    ensures DividedDown(t, q, |q|, t[|q|], d, b)
  {
    assert t[|q|..] == [t[|q|]];
    ValOne(t[|q|], b);
    NoDigits(q, b);
  }

  lemma DoneDown(t: seq<nat>, q: seq<nat>, r: nat, d: nat, b: nat)
    requires |t| == |q| + 1 && DividedDown(t, q, 0, r, d, b)
    ensures IsDigits(q, b) && Val(t, b) == Val(q, b) * d + r
  {
    assert t[0..] == t && q[0..] == q;
  }

  lemma DownBy(t: seq<nat>, q: seq<nat>, i: nat, x: nat, r: nat, r': nat, d: nat, b: nat)
    requires 0 < i <= |q| && |t| == |q| + 1 && x < b && DividedDown(t, q, i, r, d, b)
    requires r * b + t[i - 1] == x * d + r'
    ensures DividedDown(t, q[i - 1 := x], i - 1, r', d, b)
  {
    hide Val, Pow, IsDigits;
    PrependDigit(q, q[i - 1 := x], i, x, b);
    ValDown(t, i, b);
    DigitDown(Val(t[i..], b), Val(q[i..], b), r, t[i - 1], x, r', d, b);
  }

  // Writing below the range, or at or above digit i - 1, leaves the digits below it to be read.
  lemma StillUnread(f: seq<nat>, x: nat, v: nat, bo: nat, len: nat, i: nat)
    requires bo + len <= |f| && 0 < i <= len && x < |f| && (x < bo || bo + i - 1 <= x)
    ensures f[x := v][bo..bo + len][..i - 1] == f[bo..bo + len][..i - 1]
  {
    var s, t := f[x := v][bo..bo + len][..i - 1], f[bo..bo + len][..i - 1];
    assert |s| == |t| && forall j :: 0 <= j < |s| ==> s[j] == t[j];
  }

  lemma NoDigits(s: seq<nat>, b: nat)
    ensures Val(s[|s|..], b) == 0 && IsDigits(s[|s|..], b)
  {
  }

  lemma PrependDigit(r: seq<nat>, r': seq<nat>, i: nat, x: nat, b: nat)
    requires 0 < i <= |r| && r' == r[i - 1 := x] && x < b && IsDigits(r[i..], b)
    ensures IsDigits(r'[i - 1..], b) && Val(r'[i - 1..], b) == x + b * Val(r[i..], b)
  {
    assert r'[i - 1..] == [x] + r[i..];
    hide Val, Pow;
    ValCons(x, r[i..], b);
  }

  // The leading digits of a numerator of one digit more than the divisor, and the
  // top digit of the divisor, are where the estimate applies.
  lemma EstimateDigit(R: seq<nat>, D: seq<nat>, quo: nat, w: WordBits)
    requires |D| >= 2 && |R| == |D| + 1 && IsDigits(R, Base(w)) && IsDigits(D, Base(w))
    requires Val(R, Base(w)) < Val(D, Base(w)) * Base(w)
    requires var u, t1 := R[|D|] * Base(w) + R[|D| - 1], D[|D| - 1] + 1;
             quo * t1 <= u < quo * t1 + t1
    ensures quo < Base(w) && quo * Val(D, Base(w)) <= Val(R, Base(w))
    ensures Base(w) <= 2 * D[|D| - 1] ==> Val(R, Base(w)) < (quo + 3) * Val(D, Base(w))
  {
    hide *;
    var b, n := Base(w), |D|;
    ValTop(D, b);
    TopTwo(R, b);
    var t, p := D[n - 1], Pow(b, n - 1);
    Estimate(Val(R, b), Val(D, b), R[n] * b + R[n - 1], t, quo, p, b);
  }

  lemma TopTwo(R: seq<nat>, b: nat)
    requires b >= 1 && |R| >= 2 && IsDigits(R, b)
    ensures var u, p := R[|R| - 1] * b + R[|R| - 2], Pow(b, |R| - 2);
            u * p <= Val(R, b) < (u + 1) * p && Pow(b, |R| - 1) == b * p
  {
    var n := |R| - 2;
    ValStep(R, n + 1, b); ValStep(R, n, b);
    ValBound(R[..n], b);
    assert R[..n + 2] == R;
    hide Val, Pow;
    TopTwoValue(R[n + 1], R[n], Pow(b, n), b);
  }

  lemma TopTwoValue(x: int, y: int, p: int, b: int)
    ensures (x * b + y) * p == y * p + x * (b * p) && (x * b + y + 1) * p == (x * b + y) * p + p
  {
  }

  // The top digit of such a numerator is at most that of the divisor.
  lemma TopDigitBound(R: seq<nat>, D: seq<nat>, w: WordBits)
    requires |D| >= 2 && |R| == |D| + 1 && IsDigits(R, Base(w)) && IsDigits(D, Base(w))
    requires Val(R, Base(w)) < Val(D, Base(w)) * Base(w)
    ensures R[|D|] <= D[|D| - 1]
  {
    ValTop(D, Base(w)); ValTop(R, Base(w));
    assert Pow(Base(w), |D|) == Base(w) * Pow(Base(w), |D| - 1);
    hide *;
    TopBelow(Val(R, Base(w)), Val(D, Base(w)), R[|D|], D[|D| - 1], Pow(Base(w), |D| - 1), Base(w));
  }

  lemma TopBelow(R: nat, D: nat, x: nat, t: nat, p: nat, b: nat)
    requires R < D * b && D < (t + 1) * p && x * (b * p) <= R && 0 < p
    ensures x <= t
  {
    MulMono(D, (t + 1) * p, b);
    assert (t + 1) * p * b == (t + 1) * (b * p);
    MulCancelLt(x, t + 1, b * p);
  }

  // What the correction loop of the long division keeps: top and low are what is
  // left of R after quo times D.
  ghost predicate Reduced(R: nat, D: nat, quo: nat, top: nat, low: nat, p: nat, b: nat) {
    quo < b && top < b && low < p && top * p + low + quo * D == R
  }

  // Subtracting x with borrow out from low, and the borrow from top.
  lemma BorrowTop(top: nat, low: nat, x: int, low': nat, out: nat, p: nat, w: WordBits)
    requires low < p && low' < p && top < Base(w) && out < Base(w)
    requires low' - out * p == low - x && x <= top * p + low
    ensures Wrap(top - out, w) == top - out
    ensures Wrap(top - out, w) * p + low' == top * p + low - x
  {
    hide *;
    assert (top - out) * p + low' == top * p + low - x;
    if top - out < 0 {
      MulMono(top - out, -1, p);
    }
  }

  // The digit of the quotient under way, estimated from the two leading digits.
  method EstimateQuotient(top: nat, next: nat, topden: nat, w: WordBits) returns (quo: nat)
    requires top <= topden < Base(w) && next < Base(w)
    ensures quo * (topden + 1) <= top * Base(w) + next < quo * (topden + 1) + (topden + 1)
  {
    hide *;
    if Wrap(topden + 1, w) == 0 {
      WrapUp(topden + 1, w);
      quo := top;
    } else {
      WrapUp(topden + 1, w);
      var rem;
      ghost var highFixes, lowFixes;
      quo, rem, highFixes, lowFixes := DivAux(top, next, Wrap(topden + 1, w), w);
    }
  }

  // A correction: subtracting D once more, while what is left is at least D.
  lemma CorrectStep(R: nat, D: nat, quo: nat, top: nat, low: nat, low': nat, out: nat, p: nat, w: WordBits)
    requires 0 < D < p && R < D * Base(w) && Reduced(R, D, quo, top, low, p, Base(w))
    requires top != 0 || low >= D
    requires low' - out * p == low - D && low' < p && out <= 1
    ensures Wrap(quo + 1, w) == quo + 1
    ensures Reduced(R, D, quo + 1, Wrap(top - out, w), low', p, Base(w))
  {
    hide Wrap, Base;
    if top > 0 {
      MulMono(1, top, p);
    }
    BorrowTop(top, low, D, low', out, p, w);
    assert (quo + 1) * D == quo * D + D;
    MulCancelLt(quo + 1, Base(w), D);
  }

  lemma LowBound(D: seq<nat>, s: seq<nat>, b: nat)
    requires b >= 1 && |D| == |s| && IsDigits(D, b) && IsDigits(s, b)
    ensures Val(D, b) < Pow(b, |D|) && Val(s, b) < Pow(b, |D|)
  {
    ValBound(D, b); ValBound(s, b);
  }

  // One correction: subtracts d, which is there to subtract, and its borrow from the top digit.
  method SubtractOnce(n: array<nat>, o: nat, d: array<nat>, dofs: nat, dlen: nat, quo0: nat, ghost R: nat, w: WordBits)
    returns (quo: nat)
    requires dlen > 0 && o + (dlen + 1) <= n.Length && dofs + dlen <= d.Length
    requires Apart(n, o, dlen + 1, d, dofs, dlen)
    requires IsDigits(n[o..o + dlen], Base(w)) && IsDigits(d[dofs..dofs + dlen], Base(w))
    requires 0 < Val(d[dofs..dofs + dlen], Base(w)) && R < Val(d[dofs..dofs + dlen], Base(w)) * Base(w)
    requires Reduced(R, Val(d[dofs..dofs + dlen], Base(w)), quo0, n[o + dlen], Val(n[o..o + dlen], Base(w)),
                     Pow(Base(w), dlen), Base(w))
    requires n[o + dlen] != 0 || Val(n[o..o + dlen], Base(w)) >= Val(d[dofs..dofs + dlen], Base(w))
    modifies n
    ensures IsDigits(n[o..o + dlen], Base(w)) && OnlyRange(n, o, dlen + 1) && quo == quo0 + 1
    ensures d[dofs..dofs + dlen] == old(d[dofs..dofs + dlen])
    ensures Reduced(R, old(Val(d[dofs..dofs + dlen], Base(w))), quo, n[o + dlen], Val(n[o..o + dlen], Base(w)),
                    Pow(Base(w), dlen), Base(w))
  {
    hide Val, Pow, Base, IsDigits, Wrap, Reduced;
    ghost var b: nat, D, f := Base(w), d[dofs..dofs + dlen], n[..];
    ghost var top, low := n[o + dlen], Val(n[o..o + dlen], b);
    var out := Sub(n, o, dlen, d, dofs, dlen, 0, w);
    ghost var r := n[o..o + dlen];
    Widen(f, n[..], o, dlen, dlen + 1);
    LowBound(D, r, b);
    CorrectStep(R, Val(D, b), quo0, top, low, Val(r, b), out, Pow(b, dlen), w);
    quo := Wrap(quo0 + 1, w);
    n[o + dlen] := Wrap(n[o + dlen] as int - out, w);
    assert n[o..o + dlen] == r;
    if n == d {
      KeptOutside(f, n[..], o, dlen + 1, dofs, dofs + dlen);
    }
  }

  /** The correction loop: ends when what is left of the numerator is below d. */
  method CorrectQuotient(n: array<nat>, o: nat, d: array<nat>, dofs: nat, dlen: nat,
                         quo0: nat, ghost R: nat, w: WordBits)
    returns (quo: nat)
    requires dlen > 0 && o + (dlen + 1) <= n.Length && dofs + dlen <= d.Length
    requires Apart(n, o, dlen + 1, d, dofs, dlen)
    requires IsDigits(n[o..o + dlen], Base(w)) && IsDigits(d[dofs..dofs + dlen], Base(w))
    requires 0 < Val(d[dofs..dofs + dlen], Base(w)) && R < Val(d[dofs..dofs + dlen], Base(w)) * Base(w)
    requires Reduced(R, Val(d[dofs..dofs + dlen], Base(w)), quo0, n[o + dlen], Val(n[o..o + dlen], Base(w)),
                     Pow(Base(w), dlen), Base(w))
    modifies n
    ensures IsDigits(n[o..o + dlen], Base(w)) && OnlyRange(n, o, dlen + 1) && n[o + dlen] == 0
    ensures quo0 <= quo < Base(w) && Val(n[o..o + dlen], Base(w)) < old(Val(d[dofs..dofs + dlen], Base(w)))
    ensures R == quo * old(Val(d[dofs..dofs + dlen], Base(w))) + Val(n[o..o + dlen], Base(w))
    ensures d[dofs..dofs + dlen] == old(d[dofs..dofs + dlen])
  {
    hide Val, Pow, Base, IsDigits, Wrap, Reduced;
    ghost var b: nat, D := Base(w), d[dofs..dofs + dlen];
    ghost var v, p: nat := Val(D, b), Pow(b, dlen);
    quo := quo0;
    while true
      invariant OnlyRange(n, o, dlen + 1) && d[dofs..dofs + dlen] == D
      invariant IsDigits(n[o..o + dlen], b) && quo0 <= quo
      invariant Reduced(R, v, quo, n[o + dlen], Val(n[o..o + dlen], b), p, b)
      decreases b - quo
    {
      assert quo < b by { ReducedDigit(R, v, quo, n[o + dlen], Val(n[o..o + dlen], b), p, b); }
      if n[o + dlen] == 0 {
        var cmp := Compare(n, o, dlen, d, dofs, dlen, w);
        if cmp < 0 {
          break;
        }
      }
      quo := SubtractOnce(n, o, d, dofs, dlen, quo, R, w);
    }
    assert n[o + dlen] == 0;
    ReducedDone(R, v, quo, Val(n[o..o + dlen], b), p, b);
  }

  lemma ReducedDigit(R: nat, D: nat, quo: nat, top: nat, low: nat, p: nat, b: nat)
    requires Reduced(R, D, quo, top, low, p, b)
    ensures quo < b
  {
  }

  lemma ReducedDone(R: nat, D: nat, quo: nat, low: nat, p: nat, b: nat)
    requires Reduced(R, D, quo, 0, low, p, b)
    ensures R == quo * D + low && quo < b
  {
  }

  // The estimate and its subtraction, which leave what the correction loop starts from.
  method SubtractEstimate(n: array<nat>, o: nat, d: array<nat>, dofs: nat, dlen: nat, w: WordBits)
    returns (quo: nat)
    requires dlen >= 2 && o + (dlen + 1) <= n.Length && dofs + dlen <= d.Length
    requires Apart(n, o, dlen + 1, d, dofs, dlen)
    requires IsDigits(n[o..o + (dlen + 1)], Base(w)) && IsDigits(d[dofs..dofs + dlen], Base(w))
    requires Val(n[o..o + (dlen + 1)], Base(w)) < Val(d[dofs..dofs + dlen], Base(w)) * Base(w)
    requires Base(w) <= 2 * d[dofs + dlen - 1]
    modifies n
    ensures IsDigits(n[o..o + dlen], Base(w)) && OnlyRange(n, o, dlen + 1)
    ensures Reduced(old(Val(n[o..o + (dlen + 1)], Base(w))), old(Val(d[dofs..dofs + dlen], Base(w))), quo,
                    n[o + dlen], Val(n[o..o + dlen], Base(w)), Pow(Base(w), dlen), Base(w))
    ensures old(Val(n[o..o + (dlen + 1)], Base(w))) < (quo + 3) * old(Val(d[dofs..dofs + dlen], Base(w)))
    ensures d[dofs..dofs + dlen] == old(d[dofs..dofs + dlen])
  {
    hide Val, Pow, Base, IsDigits, Wrap, Reduced;
    ghost var b: nat, R, D := Base(w), n[o..o + (dlen + 1)], d[dofs..dofs + dlen];
    TopDigitBound(R, D, w);
    Member(R, dlen, b); Member(R, dlen - 1, b); Member(D, dlen - 1, b);
    quo := EstimateQuotient(n[o + dlen], n[o + dlen - 1], d[dofs + dlen - 1], w);
    EstimateDigit(R, D, quo, w);
    SubtractMultiple(n, o, d, dofs, dlen, quo, w);
  }

  // Subtracts quo times d, which the numerator has, and the borrow from its top digit.
  method SubtractMultiple(n: array<nat>, o: nat, d: array<nat>, dofs: nat, dlen: nat, quo: nat, w: WordBits)
    requires dlen >= 2 && o + (dlen + 1) <= n.Length && dofs + dlen <= d.Length && Apart(n, o, dlen + 1, d, dofs, dlen)
    requires IsDigits(n[o..o + (dlen + 1)], Base(w)) && IsDigits(d[dofs..dofs + dlen], Base(w))
    requires quo < Base(w) && quo * Val(d[dofs..dofs + dlen], Base(w)) <= Val(n[o..o + (dlen + 1)], Base(w))
    modifies n
    ensures IsDigits(n[o..o + dlen], Base(w)) && OnlyRange(n, o, dlen + 1)
    ensures Reduced(old(Val(n[o..o + (dlen + 1)], Base(w))), old(Val(d[dofs..dofs + dlen], Base(w))), quo,
                    n[o + dlen], Val(n[o..o + dlen], Base(w)), Pow(Base(w), dlen), Base(w))
    ensures d[dofs..dofs + dlen] == old(d[dofs..dofs + dlen])
  {
    hide Val, Pow, Base, IsDigits, Wrap, Reduced;
    ghost var b: nat, R, D, f := Base(w), n[o..o + (dlen + 1)], d[dofs..dofs + dlen], n[..];
    SplitDigits(R, dlen, b);
    assert R[..dlen] == n[o..o + dlen];
    var out := MultSubDigit(n, o, dlen, d, dofs, dlen, quo, w);
    Widen(f, n[..], o, dlen, dlen + 1);
    ghost var low := n[o..o + dlen];
    FirstReduction(R, Val(D, b), quo, Val(D, b) * quo, low, out, w);
    n[o + dlen] := Wrap(n[o + dlen] as int - out, w);
    assert n[o..o + dlen] == low;
    if n == d {
      KeptOutside(f, n[..], o, dlen + 1, dofs, dofs + dlen);
    }
  }

  // Subtracting the estimate never needs more than the numerator has.
  lemma FirstReduction(R: seq<nat>, D: nat, quo: nat, x: int, low': seq<nat>, out: nat, w: WordBits)
    requires |R| == |low'| + 1 && IsDigits(R, Base(w)) && IsDigits(low', Base(w))
    requires quo < Base(w) && out < Base(w) && x == quo * D && x <= Val(R, Base(w))
    requires Val(low', Base(w)) - out * Pow(Base(w), |low'|) == Val(R[..|low'|], Base(w)) - x
    ensures Reduced(Val(R, Base(w)), D, quo, Wrap(R[|low'|] as int - out, w), Val(low', Base(w)),
                    Pow(Base(w), |low'|), Base(w))
  {
    hide Val, Pow, Base, Wrap, IsDigits, Reduced;
    TopDigit(R, Base(w));
    LowBound(R[..|low'|], low', Base(w));
    ReduceBy(Val(R, Base(w)), D, quo, x, R[|low'|], Val(R[..|low'|], Base(w)), Val(low', Base(w)), out,
             Pow(Base(w), |low'|), w);
  }

  lemma TopDigit(R: seq<nat>, b: nat)
    requires |R| > 0 && IsDigits(R, b)
    ensures var n := |R| - 1;
            R[n] < b && IsDigits(R[..n], b) && Val(R, b) == Val(R[..n], b) + R[n] * Pow(b, n)
  {
  }

  lemma ReduceBy(R: nat, D: nat, quo: nat, x: int, top: nat, low: nat, low': nat, out: nat, p: nat, w: WordBits)
    requires top < Base(w) && low < p && low' < p && quo < Base(w) && out < Base(w)
    requires R == low + top * p && x == quo * D && x <= R && low' - out * p == low - x
    ensures Reduced(R, D, quo, Wrap(top as int - out, w), low', p, Base(w))
  {
    hide Wrap, Base;
    BorrowTop(top, low, x, low', out, p, w);
  }

  /**
   One digit of the long division: replaces the top digit of the numerator
   {n,dlen+1} by its quotient by d, and the others by the remainder. The estimate
   needs at most two corrections.
   */
  method QuotientDigit(n: array<nat>, o: nat, d: array<nat>, dofs: nat, dlen: nat, w: WordBits)
    returns (ghost fixes: nat)
    requires dlen >= 2 && o + (dlen + 1) <= n.Length && dofs + dlen <= d.Length
    requires Apart(n, o, dlen + 1, d, dofs, dlen)
    requires IsDigits(n[o..o + (dlen + 1)], Base(w)) && IsDigits(d[dofs..dofs + dlen], Base(w))
    requires Val(n[o..o + (dlen + 1)], Base(w)) < Val(d[dofs..dofs + dlen], Base(w)) * Base(w)
    requires Base(w) <= 2 * d[dofs + dlen - 1]
    modifies n
    ensures IsDigits(n[o..o + (dlen + 1)], Base(w)) && OnlyRange(n, o, dlen + 1) && fixes <= 2
    ensures d[dofs..dofs + dlen] == old(d[dofs..dofs + dlen])
    ensures Val(n[o..o + dlen], Base(w)) < old(Val(d[dofs..dofs + dlen], Base(w)))
    ensures old(Val(n[o..o + (dlen + 1)], Base(w)))
            == n[o + dlen] * old(Val(d[dofs..dofs + dlen], Base(w))) + Val(n[o..o + dlen], Base(w))
  {
    hide Val, Pow, Base, IsDigits, Wrap, Reduced;
    ghost var b: nat, D := Base(w), d[dofs..dofs + dlen];
    ghost var R: nat, v: nat := Val(n[o..o + (dlen + 1)], b), Val(D, b);
    PositiveDivisor(R, v, b);
    var quo := SubtractEstimate(n, o, d, dofs, dlen, w);
    ghost var quo0: nat := quo;
    quo := CorrectQuotient(n, o, d, dofs, dlen, quo, R, w);
    fixes := quo - quo0;
    AtMostTwo(R, quo0, quo, v);
    n[o + dlen] := quo;
    assert n[o..o + (dlen + 1)] == n[o..o + dlen] + [quo];
    SnocDigit(n[o..o + dlen], quo, b);
  }

  lemma PositiveDivisor(R: nat, D: nat, b: nat)
    requires R < D * b
    ensures 0 < D
  {
  }

  lemma SnocDigit(s: seq<nat>, x: nat, b: nat)
    requires IsDigits(s, b) && x < b
    ensures IsDigits(s + [x], b)
  {
  }

  // The digits from i up to k, in a number cut off at k.
  lemma ValMiddle(s: seq<nat>, i: nat, k: nat, b: nat)
    requires i <= k <= |s|
    ensures Val(s[..k], b) == Val(s[..i], b) + Val(s[i..k], b) * Pow(b, i)
  {
    hide Val, Pow;
    ValSplit(s[..k], i, b);
    SubSlice(s, 0, k, 0, i); SubSlice(s, 0, k, i, k);
    assert s[..k] == s[0..k] && s[..i] == s[0..i] && s[0..k][..i] == s[0..k][0..i] && s[0..k][i..] == s[0..k][i..k];
  }

  // While the numerator is below D shifted by i + 1 places, the dlen + 1 digits from
  // i on are below D times the base.
  lemma NumeratorBound(s: seq<nat>, D: nat, i: nat, k: nat, b: nat)
    requires b >= 1 && i <= k <= |s| && Val(s[..k], b) < D * Pow(b, i + 1)
    ensures Val(s[i..k], b) < D * b
  {
    assert Pow(b, i + 1) == b * Pow(b, i);
    hide Val, Pow;
    ValMiddle(s, i, k, b);
    MulAssoc(D, b, Pow(b, i));
    MulCancelLt(Val(s[i..k], b), D * b, Pow(b, i));
  }

  // What the long division keeps once the quotient digits from k on are known: the
  // digits below k, and the quotient times D in its place, make up N.
  ghost predicate Dividing(s: seq<nat>, N: nat, D: nat, k: nat, m: nat, b: nat)
    requires k <= |s|
  {
    Val(s[..k], b) + (Val(s[k..], b) * D) * Pow(b, m) == N && Val(s[..k], b) < D * Pow(b, m)
  }

  lemma DivideStep(s: seq<nat>, s': seq<nat>, N: nat, D: nat, i: nat, dlen: nat, b: nat)
    requires b >= 1 && |s| == |s'| && i + dlen < |s|
    requires s'[..i] == s[..i] && s'[i + dlen + 1..] == s[i + dlen + 1..] && IsDigits(s[..i], b)
    requires Val(s[i..i + dlen + 1], b) == s'[i + dlen] * D + Val(s'[i..i + dlen], b)
    requires Val(s'[i..i + dlen], b) < D
    requires Dividing(s, N, D, i + dlen + 1, i + 1, b)
    ensures Dividing(s', N, D, i + dlen, i, b)
  {
    var p, q, k := Pow(b, i), s'[i + dlen], i + dlen;
    assert Pow(b, i + 1) == b * p;
    ValBound(s[..i], b);
    assert s'[k..] == [q] + s[k + 1..];
    hide Val, Pow;
    ValMiddle(s, i, k + 1, b);
    ValMiddle(s', i, k, b);
    ValCons(q, s[k + 1..], b);
    FitsBelow(Val(s'[i..k], b), Val(s[..i], b), D, p);
    DivideValue(Val(s[..i], b), Val(s[i..k + 1], b), q, Val(s'[i..k], b), Val(s[k + 1..], b), D, p, b);
  }

  lemma DivideValue(l: int, r: int, q: int, r': int, Q: int, D: int, p: int, b: int)
    requires r == q * D + r'
    ensures l + r * p + (Q * D) * (b * p) == l + r' * p + ((q + b * Q) * D) * p
  {
    assert r * p == (q * D) * p + r' * p;
    assert (Q * D) * (b * p) == ((b * Q) * D) * p;
    assert ((q + b * Q) * D) * p == (q * D) * p + ((b * Q) * D) * p;
  }

  /** The long division by a normalised divisor of at least two digits. */
  method LongDivide(n: array<nat>, no: nat, nlen: nat, d: array<nat>, dofs: nat, dlen: nat, w: WordBits)
    requires 2 <= dlen < nlen && no + nlen <= n.Length && dofs + dlen <= d.Length
    requires Apart(n, no, nlen, d, dofs, dlen)
    requires IsDigits(n[no..no + nlen], Base(w)) && IsDigits(d[dofs..dofs + dlen], Base(w))
    requires Val(n[no..no + nlen], Base(w)) < Val(d[dofs..dofs + dlen], Base(w)) * Pow(Base(w), nlen - dlen)
    requires Base(w) <= 2 * d[dofs + dlen - 1]
    modifies n
    ensures IsDigits(n[no..no + nlen], Base(w)) && OnlyRange(n, no, nlen)
    ensures Val(n[no..no + dlen], Base(w)) < old(Val(d[dofs..dofs + dlen], Base(w)))
    ensures old(Val(n[no..no + nlen], Base(w)))
            == Val(n[no + dlen..no + nlen], Base(w)) * old(Val(d[dofs..dofs + dlen], Base(w)))
               + Val(n[no..no + dlen], Base(w))
  {
    hide Val, Pow, Base, IsDigits, Dividing;
    ghost var b: nat, D := Base(w), d[dofs..dofs + dlen];
    ghost var N: nat, v: nat := Val(n[no..no + nlen], b), Val(D, b);
    StartDividing(n[no..no + nlen], v, nlen - dlen, b);
    var j: nat := nlen - 1;
    while j >= dlen
      invariant dlen - 1 <= j < nlen
      invariant IsDigits(n[no..no + nlen], b) && OnlyRange(n, no, nlen) && d[dofs..dofs + dlen] == D
      invariant Dividing(n[no..no + nlen], N, v, j + 1, j + 1 - dlen, b)
    {
      var i: nat := j - dlen;
      ghost var f := n[..];
      assert d[dofs + dlen - 1] == D[dlen - 1];
      NumeratorAt(f, no, nlen, N, v, i, dlen, b);
      ghost var fixes := QuotientDigit(n, no + i, d, dofs, dlen, w);
      DivideAt(f, n[..], no, nlen, N, v, i, dlen, b);
      j := j - 1;
    }
    DoneDividing(n[..], no, nlen, N, v, dlen, b);
  }

  lemma StartDividing(s: seq<nat>, D: nat, m: nat, b: nat)
    requires Val(s, b) < D * Pow(b, m)
    ensures Dividing(s, Val(s, b), D, |s|, m, b)
  {
    assert s[..|s|] == s && s[|s|..] == [];
  }

  lemma DoneDividing(f: seq<nat>, o: nat, n: nat, N: nat, D: nat, dlen: nat, b: nat)
    requires dlen <= n && o + n <= |f| && Dividing(f[o..o + n], N, D, dlen, 0, b)
    ensures Val(f[o..o + dlen], b) < D
    ensures N == Val(f[o + dlen..o + n], b) * D + Val(f[o..o + dlen], b)
  {
    Rejoin(f, o, dlen, n);
  }

  lemma Rejoin(f: seq<nat>, o: nat, m: nat, n: nat)
    requires m <= n && o + n <= |f|
    ensures f[o..o + n][..m] == f[o..o + m] && f[o..o + n][m..] == f[o + m..o + n]
  {
  }

  // The part of the numerator one quotient digit is taken from.
  lemma NumeratorAt(f: seq<nat>, o: nat, n: nat, N: nat, D: nat, i: nat, dlen: nat, b: nat)
    requires b >= 1 && i + dlen + 1 <= n && o + n <= |f| && IsDigits(f[o..o + n], b)
    requires Dividing(f[o..o + n], N, D, i + dlen + 1, i + 1, b)
    ensures IsDigits(f[o + i..o + i + (dlen + 1)], b) && Val(f[o + i..o + i + (dlen + 1)], b) < D * b
  {
    SubSlice(f, o, o + n, i, i + dlen + 1);
    DividingBound(f[o..o + n], N, D, i, i + dlen + 1, b);
    hide *;
    SubDigits(f[o..o + n], i, i + dlen + 1, b);
  }

  lemma DividingBound(s: seq<nat>, N: nat, D: nat, i: nat, k: nat, b: nat)
    requires b >= 1 && i <= k <= |s| && Dividing(s, N, D, k, i + 1, b)
    ensures Val(s[i..k], b) < D * b
  {
    hide Val, Pow;
    NumeratorBound(s, D, i, k, b);
  }

  lemma SubDigits(s: seq<nat>, i: nat, k: nat, b: nat)
    requires i <= k <= |s| && IsDigits(s, b)
    ensures IsDigits(s[i..k], b)
  {
  }

  // The same step on the whole array, of which only that part changes.
  lemma DivideAt(f: seq<nat>, g: seq<nat>, o: nat, n: nat, N: nat, D: nat, i: nat, dlen: nat, b: nat)
    requires b >= 1 && i + dlen < n && o + n <= |f| == |g| && IsDigits(f[o..o + n], b)
    requires g[..o + i] == f[..o + i] && g[o + i + (dlen + 1)..] == f[o + i + (dlen + 1)..]
    requires IsDigits(g[o + i..o + i + (dlen + 1)], b)
    requires Val(f[o + i..o + i + (dlen + 1)], b) == g[o + i + dlen] * D + Val(g[o + i..o + i + dlen], b)
    requires Val(g[o + i..o + i + dlen], b) < D
    requires Dividing(f[o..o + n], N, D, i + dlen + 1, i + 1, b)
    ensures Dividing(g[o..o + n], N, D, i + dlen, i, b)
    ensures IsDigits(g[o..o + n], b) && g[..o] == f[..o] && g[o + n..] == f[o + n..]
  {
    var s, s' := f[o..o + n], g[o..o + n];
    hide Val, Pow, Dividing;
    Framed(f, g, o, n, i, dlen + 1, b);
    SubSlice(f, o, o + n, i, i + dlen + 1); SubSlice(g, o, o + n, i, i + dlen);
    assert s'[i + dlen] == g[o + i + dlen] && i + (dlen + 1) == i + dlen + 1;
    SplitDigits(s, i, b);
    DivideStep(s, s', N, D, i, dlen, b);
  }

  lemma Framed(f: seq<nat>, g: seq<nat>, o: nat, n: nat, i: nat, c: nat, b: nat)
    requires i + c <= n && o + n <= |f| == |g| && IsDigits(f[o..o + n], b) && IsDigits(g[o + i..o + i + c], b)
    requires g[..o + i] == f[..o + i] && g[o + i + c..] == f[o + i + c..]
    ensures g[o..o + n][..i] == f[o..o + n][..i] && g[o..o + n][i + c..] == f[o..o + n][i + c..]
    ensures IsDigits(g[o..o + n], b) && g[..o] == f[..o] && g[o + n..] == f[o + n..]
  {
    var s, t := f[o..o + n], g[o..o + n];
    SamePlaces(f, g, o, n, i, c);
    SubSlice(g, o, o + n, i, i + c);
    SplitDigits(s, i, b);
    SplitDigits(s, i + c, b);
    hide IsDigits;
    JoinThree(t, i, i + c, b);
  }

  lemma SamePlaces(f: seq<nat>, g: seq<nat>, o: nat, n: nat, i: nat, c: nat)
    requires i + c <= n && o + n <= |f| == |g|
    requires g[..o + i] == f[..o + i] && g[o + i + c..] == f[o + i + c..]
    ensures g[o..o + n][..i] == f[o..o + n][..i] && g[o..o + n][i + c..] == f[o..o + n][i + c..]
    ensures g[..o] == f[..o] && g[o + n..] == f[o + n..]
  {
    Step(f, g, o + i, c, 0, 0);
  }

  lemma JoinThree(t: seq<nat>, i: nat, k: nat, b: nat)
    requires i <= k <= |t| && IsDigits(t[..i], b) && IsDigits(t[i..k], b) && IsDigits(t[k..], b)
    ensures IsDigits(t, b)
  {
    assert t == t[..i] + t[i..k] + t[k..];
  }

  // Undoing the normalisation: the scaled division is the division, scaled.
  lemma Unscale(N: nat, D: nat, Q: nat, R': nat, s: nat)
    requires 0 < s && N * s == Q * (D * s) + R' && R' < D * s
    ensures N == Q * D + R' / s && R' / s < D
  {
    var r := N - Q * D;
    assert r * s == R';
    DivUnique(R', s, r, 0);
    MulCancelLt(r, D, s);
  }

  // A number below D shifted by m places stays below it when both are scaled.
  lemma ScaledBound(N: nat, D: nat, p: nat, s: nat)
    requires N < D * p && s > 0
    ensures N * s < (D * s) * p
  {
    MulStrict(N, D * p, s);
    assert (D * p) * s == (D * s) * p;
  }

  // A top digit below that of D keeps the whole number below D in its place.
  lemma TopBelowDivisor(s: seq<nat>, d: seq<nat>, b: nat)
    requires b >= 1 && |s| > |d| > 0 && IsDigits(s, b) && IsDigits(d, b)
    requires s[|s| - 1] < d[|d| - 1]
    ensures Val(s, b) < Val(d, b) * Pow(b, |s| - |d|)
  {
    var x, y, n, m := s[|s| - 1], d[|d| - 1], |d| - 1, |s| - |d|;
    ValTop(s, b); ValTop(d, b);
    PowAdd(b, n, m);
    assert n + m == |s| - 1;
    hide Val, Pow;
    MulMono(x + 1, y, Pow(b, n + m));
    MulMono(y * Pow(b, n), Val(d, b), Pow(b, m));
    MulAssoc(y, Pow(b, n), Pow(b, m));
  }

  // Shifting left loses nothing from a number that stays below the top.
  lemma NothingLost(v: nat, out: nat, p: nat, x: nat)
    requires v + out * p == x && x < p
    ensures out == 0
  {
    if out > 0 {
      MulMono(1, out, p);
    }
  }

  // Scaling D by what normalises its top digit keeps its length.
  lemma ScaledFits(d: seq<nat>, shift: nat, w: WordBits)
    requires |d| > 0 && IsDigits(d, Base(w)) && shift < w && d[|d| - 1] * Pow(2, shift) < Base(w)
    ensures Val(d, Base(w)) * Pow(2, shift) < Pow(Base(w), |d|)
  {
    ValTop(d, Base(w));
    assert Pow(Base(w), |d|) == Base(w) * Pow(Base(w), |d| - 1);
    hide *;
    BaseSplit(shift, w);
    FitsScaled(Val(d, Base(w)), d[|d| - 1], Pow(2, shift), Pow(Base(w), |d| - 1), Pow(2, w - shift), Base(w));
  }

  lemma FitsScaled(D: nat, t: nat, s: nat, p: nat, q: nat, b: nat)
    requires D < (t + 1) * p && t * s < b && b == q * s && 0 < s
    ensures D * s < b * p
  {
    MulCancelLt(t, q, s);
    MulMono(t + 1, q, s);
    MulMono((t + 1) * s, b, p);
    MulStrict(D, (t + 1) * p, s);
    Regroup(t + 1, p, s);
  }

  lemma Regroup(x: int, p: int, s: int)
    ensures (x * p) * s == (x * s) * p
  {
  }

  // The top digit of the scaled D is at least the scaled top digit.
  lemma ScaledTop(d: seq<nat>, d': seq<nat>, s: nat, b: nat)
    requires b >= 1 && |d| == |d'| > 0 && IsDigits(d, b) && IsDigits(d', b)
    requires Val(d', b) == Val(d, b) * s
    ensures d[|d| - 1] * s <= d'[|d| - 1]
  {
    ValTop(d, b); ValTop(d', b);
    hide *;
    var t, t', p := d[|d| - 1], d'[|d| - 1], Pow(b, |d| - 1);
    MulMono(t * p, Val(d, b), s);
    Regroup(t, p, s);
    MulCancelLt(t * s, t' + 1, p);
  }

  // Nothing outside two ranges has changed.
  ghost predicate Beside(f: seq<nat>, g: seq<nat>, ao: nat, an: nat, bo: nat, bn: nat) {
    |f| == |g| && forall k :: 0 <= k < |f| && !(ao <= k < ao + an) && !(bo <= k < bo + bn) ==> g[k] == f[k]
  }

  lemma Step(f: seq<nat>, g: seq<nat>, ao: nat, an: nat, bo: nat, bn: nat)
    requires ao + an <= |f| == |g| && g[..ao] == f[..ao] && g[ao + an..] == f[ao + an..]
    ensures Beside(f, g, ao, an, bo, bn) && Beside(f, g, bo, bn, ao, an)
  {
    forall k | 0 <= k < |f| && !(ao <= k < ao + an) ensures g[k] == f[k] {
      if k < ao {
        assert g[..ao][k] == f[..ao][k];
      } else {
        assert g[ao + an..][k - (ao + an)] == f[ao + an..][k - (ao + an)];
      }
    }
  }

  // With one of the two ranges back to what it was, only the other has changed.
  lemma OneBack(f: seq<nat>, g: seq<nat>, ao: nat, an: nat, bo: nat, bn: nat)
    requires ao + an <= |f| && bo + bn <= |f| && Beside(f, g, ao, an, bo, bn)
    requires g[bo..bo + bn] == f[bo..bo + bn]
    ensures g[..ao] == f[..ao] && g[ao + an..] == f[ao + an..]
  {
    forall k | 0 <= k < |f| && !(ao <= k < ao + an) ensures g[k] == f[k] {
      if bo <= k < bo + bn {
        assert g[bo..bo + bn][k - bo] == f[bo..bo + bn][k - bo];
      }
    }
  }

  twostate predicate OnlyRanges(a: array<nat>, ao: nat, an: nat, b: array<nat>, bo: nat, bn: nat)
    requires ao + an <= a.Length && bo + bn <= b.Length
    reads a, b
  {
    if a == b then Beside(old(a[..]), a[..], ao, an, bo, bn) else OnlyRange(a, ao, an) && OnlyRange(b, bo, bn)
  }

  // Shifts both numbers left.
  method ShiftBoth(n: array<nat>, no: nat, nlen: nat, d: array<nat>, dofs: nat, dlen: nat, shift: nat, w: WordBits)
    returns (outN: nat, outD: nat)
    requires no + nlen <= n.Length && dofs + dlen <= d.Length && Apart(n, no, nlen, d, dofs, dlen) && shift < w
    requires IsDigits(n[no..no + nlen], Base(w)) && IsDigits(d[dofs..dofs + dlen], Base(w))
    modifies n, d
    ensures OnlyRanges(n, no, nlen, d, dofs, dlen)
    ensures IsDigits(n[no..no + nlen], Base(w)) && IsDigits(d[dofs..dofs + dlen], Base(w))
    ensures Val(n[no..no + nlen], Base(w)) + outN * Pow(Base(w), nlen)
            == old(Val(n[no..no + nlen], Base(w))) * Pow(2, shift)
    ensures Val(d[dofs..dofs + dlen], Base(w)) + outD * Pow(Base(w), dlen)
            == old(Val(d[dofs..dofs + dlen], Base(w))) * Pow(2, shift)
  {
    hide Val, Pow, Base, IsDigits, Beside;
    ghost var f0, D := n[..], d[dofs..dofs + dlen];
    outN := ShiftLeft(n, no, nlen, shift, w);
    ghost var f1, S := n[..], n[no..no + nlen];
    if n == d {
      KeptOutside(f0, f1, no, nlen, dofs, dofs + dlen);
    }
    assert d[dofs..dofs + dlen] == D;
    outD := ShiftLeft(d, dofs, dlen, shift, w);
    if n == d {
      KeptOutside(f1, d[..], dofs, dlen, no, no + nlen);
      TwoSteps(f0, f1, d[..], no, nlen, dofs, dlen);
    } else {
      assert n[..] == f1;
    }
    assert n[no..no + nlen] == S;
  }

  // Shifts both numbers right.
  method ShiftBack(n: array<nat>, no: nat, nlen: nat, d: array<nat>, dofs: nat, dlen: nat, shift: nat, w: WordBits)
    requires no + nlen <= n.Length && dofs + dlen <= d.Length && Apart(n, no, nlen, d, dofs, dlen) && shift < w
    requires IsDigits(n[no..no + nlen], Base(w)) && IsDigits(d[dofs..dofs + dlen], Base(w))
    modifies n, d
    ensures OnlyRanges(n, no, nlen, d, dofs, dlen)
    ensures IsDigits(n[no..no + nlen], Base(w)) && IsDigits(d[dofs..dofs + dlen], Base(w))
    ensures Val(n[no..no + nlen], Base(w)) == old(Val(n[no..no + nlen], Base(w))) / Pow(2, shift)
    ensures Val(d[dofs..dofs + dlen], Base(w)) == old(Val(d[dofs..dofs + dlen], Base(w))) / Pow(2, shift)
  {
    hide Val, Pow, Base, IsDigits, Beside;
    ghost var f0, D := n[..], d[dofs..dofs + dlen];
    var outN := ShiftRight(n, no, nlen, shift, w);
    ghost var f1, S := n[..], n[no..no + nlen];
    if n == d {
      KeptOutside(f0, f1, no, nlen, dofs, dofs + dlen);
    }
    assert d[dofs..dofs + dlen] == D;
    var outD := ShiftRight(d, dofs, dlen, shift, w);
    if n == d {
      KeptOutside(f1, d[..], dofs, dlen, no, no + nlen);
      TwoSteps(f0, f1, d[..], no, nlen, dofs, dlen);
    } else {
      assert n[..] == f1;
    }
    assert n[no..no + nlen] == S;
  }

  lemma TwoSteps(f0: seq<nat>, f1: seq<nat>, f2: seq<nat>, ao: nat, an: nat, bo: nat, bn: nat)
    requires ao + an <= |f0| && bo + bn <= |f0| == |f1| == |f2|
    requires f1[..ao] == f0[..ao] && f1[ao + an..] == f0[ao + an..]
    requires f2[..bo] == f1[..bo] && f2[bo + bn..] == f1[bo + bn..]
    ensures Beside(f0, f2, ao, an, bo, bn)
  {
    Step(f0, f1, ao, an, bo, bn);
    Step(f1, f2, bo, bn, ao, an);
  }

  /** Shifts n and d left until the top digit of d is normalised. */
  method Normalise(n: array<nat>, no: nat, nlen: nat, d: array<nat>, dofs: nat, dlen: nat, w: WordBits)
    returns (shift: nat)
    requires 0 < dlen < nlen && no + nlen <= n.Length && dofs + dlen <= d.Length
    requires Apart(n, no, nlen, d, dofs, dlen)
    requires IsDigits(n[no..no + nlen], Base(w)) && IsDigits(d[dofs..dofs + dlen], Base(w))
    requires n[no + nlen - 1] < d[dofs + dlen - 1]
    modifies n, d
    ensures shift < w && OnlyRanges(n, no, nlen, d, dofs, dlen)
    ensures IsDigits(n[no..no + nlen], Base(w)) && IsDigits(d[dofs..dofs + dlen], Base(w))
    ensures Val(n[no..no + nlen], Base(w)) == old(Val(n[no..no + nlen], Base(w))) * Pow(2, shift)
    ensures Val(d[dofs..dofs + dlen], Base(w)) == old(Val(d[dofs..dofs + dlen], Base(w))) * Pow(2, shift)
    ensures Base(w) <= 2 * d[dofs + dlen - 1]
    ensures Val(n[no..no + nlen], Base(w)) < Val(d[dofs..dofs + dlen], Base(w)) * Pow(Base(w), nlen - dlen)
  {
    hide Val, Pow, Base, IsDigits, Beside;
    ghost var b: nat, S, D := Base(w), n[no..no + nlen], d[dofs..dofs + dlen];
    ghost var p: nat := Pow(b, nlen - dlen);
    Member(D, dlen - 1, b);
    TopBelowDivisor(S, D, b);
    shift := LeadingZeroBits(d[dofs + dlen - 1], w);
    ghost var s: nat := Pow(2, shift);
    ScaledBound(Val(S, b), Val(D, b), p, s);
    ScaledFits(D, shift, w);
    var outN, outD := ShiftBoth(n, no, nlen, d, dofs, dlen, shift, w);
    NothingLost(Val(d[dofs..dofs + dlen], b), outD, Pow(b, dlen), Val(D, b) * s);
    PowAdd(b, dlen, nlen - dlen);
    MulMono(Val(D, b) * s, Pow(b, dlen), p);
    NothingLost(Val(n[no..no + nlen], b), outN, Pow(b, nlen), Val(S, b) * s);
    ScaledTop(D, d[dofs..dofs + dlen], s, b);
  }

  /** The division by a normalised divisor of any length. */
  method DivideNormalised(n: array<nat>, no: nat, nlen: nat, d: array<nat>, dofs: nat, dlen: nat, w: WordBits)
    requires 0 < dlen < nlen && no + nlen <= n.Length && dofs + dlen <= d.Length && Apart(n, no, nlen, d, dofs, dlen)
    requires IsDigits(n[no..no + nlen], Base(w)) && IsDigits(d[dofs..dofs + dlen], Base(w))
    requires Val(n[no..no + nlen], Base(w)) < Val(d[dofs..dofs + dlen], Base(w)) * Pow(Base(w), nlen - dlen)
    requires Base(w) <= 2 * d[dofs + dlen - 1]
    modifies n
    ensures IsDigits(n[no..no + nlen], Base(w)) && OnlyRange(n, no, nlen)
    ensures Val(n[no..no + dlen], Base(w)) < old(Val(d[dofs..dofs + dlen], Base(w)))
    ensures old(Val(n[no..no + nlen], Base(w)))
            == Val(n[no + dlen..no + nlen], Base(w)) * old(Val(d[dofs..dofs + dlen], Base(w)))
               + Val(n[no..no + dlen], Base(w))
  {
    hide Val, Pow, Base, IsDigits;
    if dlen == 1 {
      ghost var b: nat, f := Base(w), n[..];
      assert d[dofs..dofs + 1] == [d[dofs]];
      ValOne(d[dofs], b);
      Member(d[dofs..dofs + 1], 0, b);
      TopBelowDigit(n[no..no + nlen], d[dofs], b);
      var rem := DivRemNormDigit(n, no + 1, n, no, nlen, d[dofs], w);
      n[no] := rem;
      assert n[no..no + 1] == [rem];
      ValOne(rem, b);
      assert no + 1 + (nlen - 1) == no + nlen;
      assert n[no..no + nlen] == [rem] + n[no + 1..no + nlen];
      ConsDigit(rem, n[no + 1..no + nlen], b);
    } else {
      LongDivide(n, no, nlen, d, dofs, dlen, w);
    }
  }

  lemma ConsDigit(x: nat, s: seq<nat>, b: nat)
    requires x < b && IsDigits(s, b)
    ensures IsDigits([x] + s, b)
  {
  }

  lemma TopBelowDigit(s: seq<nat>, d: nat, b: nat)
    requires b >= 1 && |s| > 0 && IsDigits(s, b) && Val(s, b) < d * Pow(b, |s| - 1)
    ensures s[|s| - 1] < d
  {
    hide Pow, Val;
    ValTop(s, b);
    MulCancelLt(s[|s| - 1], d, Pow(b, |s| - 1));
  }

  /**
   {n+dlen,nlen-dlen} := {n,nlen} / {d,dlen} and {n,dlen} := {n,nlen} modulo
   {d,dlen}, for a top digit of n below that of d. d is shifted left to normalise it,
   and given back as it was.
   */
  method DivRem(n: array<nat>, no: nat, nlen: nat, d: array<nat>, dofs: nat, dlen: nat, w: WordBits)
    requires 0 < dlen < nlen && no + nlen <= n.Length && dofs + dlen <= d.Length
    requires Apart(n, no, nlen, d, dofs, dlen)
    requires IsDigits(n[no..no + nlen], Base(w)) && IsDigits(d[dofs..dofs + dlen], Base(w))
    requires n[no + nlen - 1] < d[dofs + dlen - 1]
    modifies n, d
    ensures IsDigits(n[no..no + nlen], Base(w)) && OnlyRange(n, no, nlen)
    ensures d[dofs..dofs + dlen] == old(d[dofs..dofs + dlen]) && (n != d ==> d[..] == old(d[..]))
    ensures Val(n[no..no + dlen], Base(w)) < Val(d[dofs..dofs + dlen], Base(w))
    ensures old(Val(n[no..no + nlen], Base(w)))
            == Val(n[no + dlen..no + nlen], Base(w)) * Val(d[dofs..dofs + dlen], Base(w))
               + Val(n[no..no + dlen], Base(w))
  {
    hide Val, Pow, Base, IsDigits, Beside;
    ghost var b: nat, f0, g0, D := Base(w), n[..], d[..], d[dofs..dofs + dlen];
    ghost var N: nat := Val(n[no..no + nlen], b);
    var shift := Normalise(n, no, nlen, d, dofs, dlen, w);
    ghost var s: nat, f1, g1, D1 := Pow(2, shift), n[..], d[..], d[dofs..dofs + dlen];
    DivideNormalised(n, no, nlen, d, dofs, dlen, w);
    ghost var f2, R' := n[..], Val(n[no..no + dlen], b);
    if n == d {
      KeptOutside(f1, f2, no, nlen, dofs, dofs + dlen);
    }
    assert d[dofs..dofs + dlen] == D1;
    Unscale(N, Val(D, b), Val(n[no + dlen..no + nlen], b), R', s);
    LowDigits(f2, no, dlen, nlen, b);
    ShiftBack(n, no, dlen, d, dofs, dlen, shift, w);
    ScaleBack(Val(D, b), s);
    ValUnique(D, d[dofs..dofs + dlen], b);
    if n == d {
      SharedRestored(f0, f1, f2, n[..], no, dlen, nlen, dofs);
    } else {
      Reassemble(g0, g1, d[..], dofs, dlen);
      Narrower(f2, n[..], no, dlen, nlen);
    }
    BackDigits(f2, n[..], no, dlen, nlen, b);
  }

  lemma Narrower(f: seq<nat>, g: seq<nat>, o: nat, m: nat, n: nat)
    requires m <= n && o + n <= |f| == |g| && g[o + m..] == f[o + m..]
    ensures g[o + n..] == f[o + n..] && g[o + m..o + n] == f[o + m..o + n]
  {
    Widen(g, f, o, m, n);
    var z := |f|;
    assert g[o + m..z] == f[o + m..z];
    AgreeWithin(g, f, o + m, z, o + m, o + n);
  }

  // The remainder shifted back, below the quotient.
  lemma BackDigits(f: seq<nat>, g: seq<nat>, o: nat, m: nat, n: nat, b: nat)
    requires m <= n && o + n <= |f| == |g| && IsDigits(f[o..o + n], b) && IsDigits(g[o..o + m], b)
    requires g[o + m..o + n] == f[o + m..o + n]
    ensures IsDigits(g[o..o + n], b)
  {
    Rejoin(f, o, m, n);
    Rejoin(g, o, m, n);
    SplitDigits(f[o..o + n], m, b);
    JoinDigits(g[o..o + n], m, b);
  }

  // The frames of the steps, when dividend and divisor are in one array.
  lemma SharedRestored(f0: seq<nat>, f1: seq<nat>, f2: seq<nat>, f3: seq<nat>, no: nat, dlen: nat, nlen: nat, dofs: nat)
    requires dlen <= nlen && no + nlen <= |f0| && dofs + dlen <= |f0| && |f0| == |f1| == |f2| == |f3|
    requires Beside(f0, f1, no, nlen, dofs, dlen) && Beside(f2, f3, no, dlen, dofs, dlen)
    requires f2[..no] == f1[..no] && f2[no + nlen..] == f1[no + nlen..]
    requires f3[dofs..dofs + dlen] == f0[dofs..dofs + dlen] && (no + nlen <= dofs || dofs + dlen <= no)
    ensures f3[..no] == f0[..no] && f3[no + nlen..] == f0[no + nlen..]
    ensures f3[no + dlen..no + nlen] == f2[no + dlen..no + nlen]
  {
    Step(f1, f2, no, nlen, dofs, dlen);
    OneBack(f0, f3, no, nlen, dofs, dlen);
  }

  lemma ScaleBack(D: nat, s: nat)
    requires s > 0
    ensures (D * s) / s == D
  {
    DivUnique(D * s, s, D, 0);
  }

  lemma LowDigits(f: seq<nat>, o: nat, m: nat, n: nat, b: nat)
    requires m <= n && o + n <= |f| && IsDigits(f[o..o + n], b)
    ensures IsDigits(f[o..o + m], b)
  {
    assert f[o..o + m] == f[o..o + n][..m];
  }

  // A range that is back to what it was, in an array otherwise unchanged.
  lemma Reassemble(g0: seq<nat>, g1: seq<nat>, g2: seq<nat>, o: nat, n: nat)
    requires o + n <= |g0| == |g1| == |g2| && g2[o..o + n] == g0[o..o + n]
    requires g1[..o] == g0[..o] && g1[o + n..] == g0[o + n..] && g2[..o] == g1[..o] && g2[o + n..] == g1[o + n..]
    ensures g2 == g0
  {
    assert g2 == g2[..o] + g2[o..o + n] + g2[o + n..];
    assert g0 == g0[..o] + g0[o..o + n] + g0[o + n..];
  }

  lemma ShlExact(d: nat, s: nat, w: WordBits)
    requires d * Pow(2, s) < Base(w)
    ensures Shl(d, s, w) == d * Pow(2, s)
  {
    hide Pow, Base, Wrap;
    MulMono(0, d, Pow(2, s));
  }

  // Scaling a number whose top digit is below d, by what normalises d, loses nothing
  // and keeps its top digit below the scaled d.
  lemma ScaledDigits(S: seq<nat>, d: nat, s: nat, b: nat)
    requires b >= 1 && |S| > 0 && IsDigits(S, b) && S[|S| - 1] < d && s > 0 && d * s < b
    ensures Val(S, b) * s < (d * s) * Pow(b, |S| - 1) && Val(S, b) * s < Pow(b, |S|)
  {
    ValTop(S, b);
    assert Pow(b, |S|) == b * Pow(b, |S| - 1);
    hide Val, Pow;
    var p := Pow(b, |S| - 1);
    MulMono(S[|S| - 1] + 1, d, p);
    ScaledBound(Val(S, b), d, p, s);
    MulMono(d * s, b, p);
  }

  // Divides by a normalised digit, which leaves the dividend as it is.
  method DivideApart(a: array<nat>, ao: nat, b: array<nat>, bo: nat, len: nat, d: nat, w: WordBits)
    returns (rem: nat)
    requires len > 0 && ao + (len - 1) <= a.Length && bo + len <= b.Length && Apart(a, ao, len - 1, b, bo, len)
    requires IsDigits(b[bo..bo + len], Base(w)) && b[bo + len - 1] < d < Base(w)
    modifies a
    ensures IsDigits(a[ao..ao + (len - 1)], Base(w)) && OnlyRange(a, ao, len - 1) && rem < d
    ensures b[bo..bo + len] == old(b[bo..bo + len]) && (a != b ==> b[..] == old(b[..]))
    ensures Val(b[bo..bo + len], Base(w)) == Val(a[ao..ao + (len - 1)], Base(w)) * d + rem
  {
    hide Val, Pow, Base, IsDigits;
    ghost var f := a[..];
    rem := DivRemNormDigit(a, ao, b, bo, len, d, w);
    if a == b {
      KeptOutside(f, a[..], ao, len - 1, bo, bo + len);
    }
  }

  // Shifts the dividend right, which leaves the quotient as it is.
  method ShiftDividendBack(a: array<nat>, ao: nat, an: nat, b: array<nat>, bo: nat, len: nat, shift: nat, w: WordBits)
    requires ao + an <= a.Length && bo + len <= b.Length && Apart(a, ao, an, b, bo, len) && shift < w
    requires IsDigits(b[bo..bo + len], Base(w))
    modifies b
    ensures a[ao..ao + an] == old(a[ao..ao + an]) && (a != b ==> a[..] == old(a[..]))
    ensures IsDigits(b[bo..bo + len], Base(w)) && OnlyRange(b, bo, len)
    ensures Val(b[bo..bo + len], Base(w)) == old(Val(b[bo..bo + len], Base(w))) / Pow(2, shift)
  {
    hide Val, Pow, Base, IsDigits;
    ghost var f := b[..];
    var out := ShiftRight(b, bo, len, shift, w);
    if a == b {
      KeptOutside(f, b[..], bo, len, ao, ao + an);
    }
  }

  // The frames of the steps, when quotient and dividend are in one array.
  lemma BackAgain(f0: seq<nat>, f1: seq<nat>, f2: seq<nat>, f3: seq<nat>, ao: nat, an: nat, bo: nat, bn: nat)
    requires ao + an <= |f0| && bo + bn <= |f0| == |f1| == |f2| == |f3|
    requires f1[..bo] == f0[..bo] && f1[bo + bn..] == f0[bo + bn..]
    requires f2[..ao] == f1[..ao] && f2[ao + an..] == f1[ao + an..]
    requires f3[..bo] == f2[..bo] && f3[bo + bn..] == f2[bo + bn..] && f3[bo..bo + bn] == f0[bo..bo + bn]
    ensures f3[..ao] == f0[..ao] && f3[ao + an..] == f0[ao + an..]
  {
    TwoSteps(f0, f1, f2, bo, bn, ao, an);
    Step(f2, f3, bo, bn, ao, an);
    OneBack(f0, f3, ao, an, bo, bn);
  }

  /**
   {a,len-1} := {b,len} / d for any d above the top digit of b: b and d are shifted
   left to normalise d, and b is given back as it was.
   */
  method DivRemDigit(a: array<nat>, ao: nat, b: array<nat>, bo: nat, len: nat, d: nat, w: WordBits)
    returns (rem: nat)
    requires len > 0 && ao + (len - 1) <= a.Length && bo + len <= b.Length
    requires Apart(a, ao, len - 1, b, bo, len)
    requires IsDigits(b[bo..bo + len], Base(w)) && b[bo + len - 1] < d < Base(w)
    modifies a, b
    ensures IsDigits(a[ao..ao + (len - 1)], Base(w)) && OnlyRange(a, ao, len - 1) && rem < d
    ensures b[bo..bo + len] == old(b[bo..bo + len]) && (a != b ==> b[..] == old(b[..]))
    ensures Val(b[bo..bo + len], Base(w)) == Val(a[ao..ao + (len - 1)], Base(w)) * d + rem
  {
    hide Val, Pow, Base, IsDigits, Wrap, Shl, Beside;
    ghost var B: nat, S, g0 := Base(w), b[bo..bo + len], b[..];
    var shift := LeadingZeroBits(d, w);
    ghost var s: nat := Pow(2, shift);
    ShlExact(d, shift, w);
    var d': nat := Shl(d, shift, w);
    ScaledDigits(S, d, s, B);
    var out := ShiftLeft(b, bo, len, shift, w);
    ghost var g1 := b[..];
    NothingLost(Val(b[bo..bo + len], B), out, Pow(B, len), Val(S, B) * s);
    TopBelowDigit(b[bo..bo + len], d', B);
    rem := DivideApart(a, ao, b, bo, len, d', w);
    Unscale(Val(S, B), d, Val(a[ao..ao + (len - 1)], B), rem, s);
    ghost var f2 := a[..];
    ShiftDividendBack(a, ao, len - 1, b, bo, len, shift, w);
    ScaleBack(Val(S, B), s);
    ValUnique(S, b[bo..bo + len], B);
    if a == b {
      BackAgain(g0, g1, f2, b[..], ao, len - 1, bo, len);
    } else {
      Reassemble(g0, g1, b[..], bo, len);
    }
    rem := Shr(rem, shift);
  }
}
