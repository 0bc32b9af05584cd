/**
 The generic multi-precision routines of the num library. A number is a range of
 a digit array, least significant digit first; every routine works in place.
 */
module Bng {
  import opened Arith
  import opened Bits
  import opened Digits
  import opened BngDigit

  // Nothing outside the n digits from o on has changed.
  twostate predicate OnlyRange(a: array<nat>, o: nat, n: nat)
    requires o + n <= a.Length
    reads a
  {
    a[..o] == old(a[..o]) && a[o + n..] == old(a[o + n..])
  }

  // What is unchanged above m digits is unchanged above n.
  lemma Widen(f: seq<nat>, g: seq<nat>, o: nat, m: nat, n: nat)
    requires m <= n && o + n <= |f| == |g| && f[o + m..] == g[o + m..]
    ensures f[o + n..] == g[o + n..] && (m < n ==> f[o + m] == g[o + m])
  {
    assert forall j :: o + m <= j < |f| ==> f[j] == f[o + m..][j - (o + m)] == g[o + m..][j - (o + m)] == g[j];
  }

  // Two ranges do not overlap.
  ghost predicate Apart(a: array<nat>, ao: nat, an: nat, b: array<nat>, bo: nat, bn: nat) {
    a != b || ao + an <= bo || bo + bn <= ao
  }

  // Changing a range leaves the ranges apart from it as they were.
  lemma KeptOutside(f: seq<nat>, g: seq<nat>, o: nat, n: nat, i: nat, k: nat)
    requires o + n <= |f| == |g| && g[..o] == f[..o] && g[o + n..] == f[o + n..]
    requires i <= k <= |f| && (k <= o || o + n <= i)
    ensures g[i..k] == f[i..k]
  {
    var z := |f|;
    assert g[0..o] == f[0..o] && g[o + n..z] == f[o + n..z];
    if k <= o {
      AgreeWithin(f, g, 0, o, i, k);
    } else {
      AgreeWithin(f, g, o + n, z, i, k);
    }
  }

  // The low end of b may be read while a is written from its low end up.
  ghost predicate Readable(a: array<nat>, ao: nat, an: nat, b: array<nat>, bo: nat, bn: nat) {
    Apart(a, ao, an, b, bo, bn) || (a == b && ao == bo)
  }

  // Changing at most digits up to i, or others, leaves those above i to be read.
  lemma StillAhead(f: seq<nat>, g: seq<nat>, o: nat, n: nat, t: seq<nat>, i: nat)
    requires o + n <= |f| == |g| && i < n == |t| && f[o..o + n][i..] == t[i..]
    requires forall k :: o + i < k < o + n ==> g[k] == f[k]
    ensures g[o..o + n][i + 1..] == t[i + 1..]
  {
    var u, v := f[o..o + n], g[o..o + n];
    forall k | i < k < n ensures v[k] == t[k] {
      assert v[k] == f[o + k] == u[k] == u[i..][k - i] == t[i..][k - i];
    }
  }

  // What is still unread is a digit.
  lemma SameDigit(r: seq<nat>, s: seq<nat>, i: nat, b: nat)
    requires i < |s| && |r| == |s| && r[i..] == s[i..] && IsDigits(s, b)
    ensures r[i] == s[i] < b
  {
    assert r[i] == r[i..][0] == s[i];
  }

  /** {a,n} := {a,n} + carry; returns the carry out. */
  method AddCarry(a: array<nat>, o: nat, n: nat, carry: nat, w: WordBits) returns (out: nat)
    requires o + n <= a.Length && carry <= 1 && IsDigits(a[o..o + n], Base(w))
    modifies a
    ensures IsDigits(a[o..o + n], Base(w)) && out <= 1 && OnlyRange(a, o, n)
    ensures Val(a[o..o + n], Base(w)) + out * Pow(Base(w), n) == old(Val(a[o..o + n], Base(w))) + carry
  {
    hide Val, Pow, Base, Wrap, IsDigits;
    ghost var b: nat, s := Base(w), a[o..o + n];
    Start(s, b);
    if carry == 0 || n == 0 {
      return carry;
    }
    var i: nat := 0;
    while i < n
      invariant i <= n && a[o..o + n][i..] == s[i..]
      invariant IsDigits(a[o..o + n], b) && OnlyRange(a, o, n)
      invariant Val(a[o..o + n][..i], b) + 1 * Pow(b, i) == Val(s[..i], b) + 1
    {
      ghost var r := a[o..o + n];
      IncStep(r, s, i, 1, w);
      a[o + i] := Wrap(a[o + i] + 1, w);
      assert a[o..o + n] == r[i := Wrap(s[i] + 1, w)];
      if a[o + i] != 0 {
        return 0;
      }
      i := i + 1;
    }
    assert a[o..o + n][..n] == a[o..o + n] && s[..n] == s;
    return 1;
  }

  lemma Start(s: seq<nat>, b: nat)
    ensures Val(s[..0], b) == 0 && Pow(b, 0) == 1 && (|s| == 0 ==> Val(s, b) == 0)
  {
  }

  // Incrementing digit i, when every digit below it has wrapped to zero.
  lemma IncStep(r: seq<nat>, s: seq<nat>, i: nat, E: int, w: WordBits)
    requires i < |s| && |r| == |s| && r[i..] == s[i..] && IsDigits(r, Base(w))
    requires Val(r[..i], Base(w)) + 1 * Pow(Base(w), i) == Val(s[..i], Base(w)) + E
    ensures r[i] == s[i]
    ensures var b, t := Base(w), r[i := Wrap(s[i] + 1, w)];
            && IsDigits(t, b) && t[i + 1..] == s[i + 1..]
            && (t[i] != 0 ==> Val(t, b) == Val(s, b) + E)
            && (t[i] == 0 ==> Val(t[..i + 1], b) + 1 * Pow(b, i + 1) == Val(s[..i + 1], b) + E)
  {
    hide *;
    SameDigit(s, r, i, Base(w));
    WrapUp(s[i] + 1, w);
    if s[i] + 1 == Base(w) {
      CarryStep(r, s, i, 0, 1, 1, E, 0, Base(w));
    } else {
      CarryStep(r, s, i, s[i] + 1, 1, 0, E, 0, Base(w));
      CarryDone(r[i := s[i] + 1], s, i + 1, E, Base(w));
    }
  }

  /** {a,n} := {a,n} - carry; returns the borrow out. */
  method SubCarry(a: array<nat>, o: nat, n: nat, carry: nat, w: WordBits) returns (out: nat)
    requires o + n <= a.Length && carry <= 1 && IsDigits(a[o..o + n], Base(w))
    modifies a
    ensures IsDigits(a[o..o + n], Base(w)) && out <= 1 && OnlyRange(a, o, n)
    ensures Val(a[o..o + n], Base(w)) - out * Pow(Base(w), n) == old(Val(a[o..o + n], Base(w))) - carry
  {
    hide Val, Pow, Base, Wrap, IsDigits;
    ghost var b: nat, s := Base(w), a[o..o + n];
    Start(s, b);
    if carry == 0 || n == 0 {
      return carry;
    }
    var i: nat := 0;
    while i < n
      invariant i <= n && a[o..o + n][i..] == s[i..]
      invariant IsDigits(a[o..o + n], b) && OnlyRange(a, o, n)
      invariant Val(a[o..o + n][..i], b) + -1 * Pow(b, i) == Val(s[..i], b) - 1
    {
      ghost var r := a[o..o + n];
      DecStep(r, s, i, -1, w);
      var before := a[o + i];
      a[o + i] := Wrap(before as int - 1, w);
      assert a[o..o + n] == r[i := Wrap(s[i] as int - 1, w)];
      if before != 0 {
        return 0;
      }
      i := i + 1;
    }
    assert a[o..o + n][..n] == a[o..o + n] && s[..n] == s;
    return 1;
  }

  // Decrementing digit i, when every digit below it was zero.
  lemma DecStep(r: seq<nat>, s: seq<nat>, i: nat, E: int, w: WordBits)
    requires i < |s| && |r| == |s| && r[i..] == s[i..] && IsDigits(r, Base(w))
    requires Val(r[..i], Base(w)) + -1 * Pow(Base(w), i) == Val(s[..i], Base(w)) + E
    ensures r[i] == s[i]
    ensures var b, t := Base(w), r[i := Wrap(s[i] as int - 1, w)];
            && IsDigits(t, b) && t[i + 1..] == s[i + 1..]
            && (s[i] != 0 ==> Val(t, b) == Val(s, b) + E)
            && (s[i] == 0 ==> Val(t[..i + 1], b) + -1 * Pow(b, i + 1) == Val(s[..i + 1], b) + E)
  {
    hide *;
    SameDigit(s, r, i, Base(w));
    WrapDown(s[i] as int - 1, w);
    if s[i] == 0 {
      CarryStep(r, s, i, Base(w) - 1, -1, -1, E, 0, Base(w));
    } else {
      CarryStep(r, s, i, s[i] - 1, -1, 0, E, 0, Base(w));
      CarryDone(r[i := s[i] - 1], s, i + 1, E, Base(w));
    }
  }

  /**
   A carry chain over the low m of the n digits from o on, then a carry c over the
   rest; f0, f1 and f2 are the whole array before, between and after.
   */
  lemma JoinChains(f0: seq<nat>, f1: seq<nat>, f2: seq<nat>, o: nat, m: nat, n: nat, E: int, c: int, out: int, b: nat)
    requires m <= n && o + n <= |f0| == |f1| == |f2|
    requires f1[..o] == f0[..o] && f1[o + n..] == f0[o + n..] && f1[o..o + n][m..] == f0[o..o + n][m..]
    requires f2[..o + m] == f1[..o + m] && f2[o + m + (n - m)..] == f1[o + m + (n - m)..]
    requires IsDigits(f1[o..o + n], b) && IsDigits(f2[o + m..o + m + (n - m)], b)
    requires Val(f1[o..o + n][..m], b) + c * Pow(b, m) == Val(f0[o..o + n][..m], b) + E
    requires Val(f2[o + m..o + m + (n - m)], b) + out * Pow(b, n - m) == Val(f1[o + m..o + m + (n - m)], b) + c
    ensures f2[..o] == f0[..o] && f2[o + n..] == f0[o + n..] && IsDigits(f2[o..o + n], b)
    ensures Val(f2[o..o + n], b) + out * Pow(b, n) == Val(f0[o..o + n], b) + E
  {
    var s, r, t := f0[o..o + n], f1[o..o + n], f2[o..o + n];
    SameBelow(f1, f2, o, m, n);
    assert o + m + (n - m) == o + n;
    SplitDigits(r, m, b);
    JoinDigits(t, m, b);
    hide *;
    ValSplit(s, m, b); ValSplit(t, m, b);
    PowAdd(b, n - m, m);
    JoinValue(Val(t[m..], b), out, Pow(b, n - m), Val(r[m..], b), c, Pow(b, m));
  }

  // Arrays that agree below o + m, and the parts of the range from o on.
  lemma SameBelow(f: seq<nat>, g: seq<nat>, o: nat, m: nat, n: nat)
    requires m <= n && o + n <= |f| == |g| && g[..o + m] == f[..o + m]
    ensures g[..o] == f[..o] && g[o..o + n][..m] == f[o..o + n][..m]
    ensures f[o..o + n][m..] == f[o + m..o + n] && g[o..o + n][m..] == g[o + m..o + n]
  {
    assert g[0..o + m] == f[0..o + m];
    AgreeWithin(f, g, 0, o + m, 0, o);
    AgreeWithin(f, g, 0, o + m, o, o + m);
    SubSlice(f, o, o + n, 0, m); SubSlice(g, o, o + n, 0, m);
    SubSlice(f, o, o + n, m, n); SubSlice(g, o, o + n, m, n);
    assert f[o..o + n][..m] == f[o..o + n][0..m] && g[o..o + n][..m] == g[o..o + n][0..m];
    assert f[o..o + n][m..] == f[o..o + n][m..n] && g[o..o + n][m..] == g[o..o + n][m..n];
  }

  // The same for a borrow chain.
  lemma JoinBorrows(f0: seq<nat>, f1: seq<nat>, f2: seq<nat>, o: nat, m: nat, n: nat, E: int, c: int, out: int, b: nat)
    requires m <= n && o + n <= |f0| == |f1| == |f2|
    requires f1[..o] == f0[..o] && f1[o + n..] == f0[o + n..] && f1[o..o + n][m..] == f0[o..o + n][m..]
    requires f2[..o + m] == f1[..o + m] && f2[o + m + (n - m)..] == f1[o + m + (n - m)..]
    requires IsDigits(f1[o..o + n], b) && IsDigits(f2[o + m..o + m + (n - m)], b)
    requires Val(f1[o..o + n][..m], b) - c * Pow(b, m) == Val(f0[o..o + n][..m], b) - E
    requires Val(f2[o + m..o + m + (n - m)], b) - out * Pow(b, n - m) == Val(f1[o + m..o + m + (n - m)], b) - c
    ensures f2[..o] == f0[..o] && f2[o + n..] == f0[o + n..] && IsDigits(f2[o..o + n], b)
    ensures Val(f2[o..o + n], b) - out * Pow(b, n) == Val(f0[o..o + n], b) - E
  {
    hide *;
    NegMul(c, Pow(b, m)); NegMul(out, Pow(b, n - m)); NegMul(out, Pow(b, n));
    JoinChains(f0, f1, f2, o, m, n, -E, -c, -out, b);
  }

  lemma JoinValue(t: int, out: int, q: int, r: int, c: int, p: int)
    requires t + out * q == r + c
    ensures t * p + out * (q * p) == r * p + c * p
  {
    assert (t + out * q) * p == (r + c) * p;
  }

  lemma JoinDigits(s: seq<nat>, m: nat, b: nat)
    requires m <= |s| && IsDigits(s[..m], b) && IsDigits(s[m..], b)
    ensures IsDigits(s, b)
  {
    assert s == s[..m] + s[m..];
  }

  lemma SplitDigits(s: seq<nat>, m: nat, b: nat)
    requires m <= |s| && IsDigits(s, b)
    ensures IsDigits(s[..m], b) && IsDigits(s[m..], b)
  {
  }

  // What a chain over the low digits leaves for the rest.
  lemma RestDigits(f: seq<nat>, o: nat, m: nat, n: nat, b: nat)
    requires m <= n && o + n <= |f| && IsDigits(f[o..o + n], b)
    ensures IsDigits(f[o + m..o + m + (n - m)], b)
  {
    assert f[o + m..o + m + (n - m)] == f[o..o + n][m..];
  }

  // The low bn digits: b and the carry are added, digit by digit.
  method AddLow(a: array<nat>, ao: nat, an: nat, b: array<nat>, bo: nat, bn: nat, carry: nat, w: WordBits)
    returns (out: nat)
    requires ao + an <= a.Length && bo + bn <= b.Length && bn <= an && carry <= 1
    requires Readable(a, ao, an, b, bo, bn)
    requires IsDigits(a[ao..ao + an], Base(w)) && IsDigits(b[bo..bo + bn], Base(w))
    modifies a
    ensures IsDigits(a[ao..ao + an], Base(w)) && out <= 1 && OnlyRange(a, ao, an)
    ensures a[ao..ao + an][bn..] == old(a[ao..ao + an])[bn..]
    ensures Val(a[ao..ao + an][..bn], Base(w)) + out * Pow(Base(w), bn)
            == Val(old(a[ao..ao + an])[..bn], Base(w)) + (old(Val(b[bo..bo + bn], Base(w))) + carry)
  {
    hide Val, Pow, Base, Wrap, IsDigits;
    ghost var B: nat, s, t := Base(w), a[ao..ao + an], b[bo..bo + bn];
    Start(s, B); Start(t, B);
    out := carry;
    var i: nat := 0;
    while i < bn
      invariant i <= bn && a[ao..ao + an][i..] == s[i..] && b[bo..bo + bn][i..] == t[i..]
      invariant IsDigits(a[ao..ao + an], B) && OnlyRange(a, ao, an) && out <= 1
      invariant Val(a[ao..ao + an][..i], B) + out * Pow(B, i) == Val(s[..i], B) + (Val(t[..i], B) + carry)
    {
      ghost var r, c, g := a[ao..ao + an], out, b[..];
      SameDigit(r, s, i, B); SameDigit(b[bo..bo + bn], t, i, B);
      var x;
      x, out := Add2Carry(a[ao + i], b[bo + i], out, w);
      a[ao + i] := x;
      assert a[ao..ao + an] == r[i := x];
      StillAhead(g, b[..], bo, bn, t, i);
      CarryStep(r, s, i, x, c, out, Val(t[..i], B) + carry, t[i], B);
      ValStep(t, i, B);
      i := i + 1;
    }
    assert t[..bn] == t;
  }

  /** {a,an} := {a,an} + {b,bn} + carry; returns the carry out. */
  method Add(a: array<nat>, ao: nat, an: nat, b: array<nat>, bo: nat, bn: nat, carry: nat, w: WordBits)
    returns (out: nat)
    requires ao + an <= a.Length && bo + bn <= b.Length && bn <= an && carry <= 1
    requires Readable(a, ao, an, b, bo, bn)
    requires IsDigits(a[ao..ao + an], Base(w)) && IsDigits(b[bo..bo + bn], Base(w))
    modifies a
    ensures IsDigits(a[ao..ao + an], Base(w)) && out <= 1 && OnlyRange(a, ao, an)
    ensures Val(a[ao..ao + an], Base(w)) + out * Pow(Base(w), an)
            == old(Val(a[ao..ao + an], Base(w))) + (old(Val(b[bo..bo + bn], Base(w))) + carry)
  {
    hide Val, Pow, Base, IsDigits;
    ghost var B: nat, f0, t := Base(w), a[..], Val(b[bo..bo + bn], Base(w));
    out := AddLow(a, ao, an, b, bo, bn, carry, w);
    ghost var f1, c := a[..], out;
    RestDigits(f1, ao, bn, an, B);
    out := AddCarry(a, ao + bn, an - bn, out, w);
    JoinChains(f0, f1, a[..], ao, bn, an, t + carry, c, out, B);
  }

  // The low bn digits: b and the borrow are subtracted, digit by digit.
  method SubLow(a: array<nat>, ao: nat, an: nat, b: array<nat>, bo: nat, bn: nat, carry: nat, w: WordBits)
    returns (out: nat)
    requires ao + an <= a.Length && bo + bn <= b.Length && bn <= an && carry <= 1
    requires Readable(a, ao, an, b, bo, bn)
    requires IsDigits(a[ao..ao + an], Base(w)) && IsDigits(b[bo..bo + bn], Base(w))
    modifies a
    ensures IsDigits(a[ao..ao + an], Base(w)) && out <= 1 && OnlyRange(a, ao, an)
    ensures a[ao..ao + an][bn..] == old(a[ao..ao + an])[bn..]
    ensures Val(a[ao..ao + an][..bn], Base(w)) - out * Pow(Base(w), bn)
            == Val(old(a[ao..ao + an])[..bn], Base(w)) - (old(Val(b[bo..bo + bn], Base(w))) + carry)
  {
    hide Val, Pow, Base, Wrap, IsDigits;
    ghost var B: nat, s, t := Base(w), a[ao..ao + an], b[bo..bo + bn];
    Start(s, B); Start(t, B);
    out := carry;
    var i: nat := 0;
    while i < bn
      invariant i <= bn && a[ao..ao + an][i..] == s[i..] && b[bo..bo + bn][i..] == t[i..]
      invariant IsDigits(a[ao..ao + an], B) && OnlyRange(a, ao, an) && out <= 1
      invariant Val(a[ao..ao + an][..i], B) - out * Pow(B, i) == Val(s[..i], B) - (Val(t[..i], B) + carry)
    {
      ghost var r, c, g := a[ao..ao + an], out, b[..];
      SameDigit(r, s, i, B); SameDigit(b[bo..bo + bn], t, i, B);
      var x;
      x, out := Sub2Carry(a[ao + i], b[bo + i], out, w);
      a[ao + i] := x;
      assert a[ao..ao + an] == r[i := x];
      StillAhead(g, b[..], bo, bn, t, i);
      BorrowStep(r, s, i, x, c, out, Val(t[..i], B) + carry, t[i], B);
      ValStep(t, i, B);
      i := i + 1;
    }
    assert t[..bn] == t;
  }

  /** {a,an} := {a,an} - {b,bn} - carry; returns the borrow out. */
  method Sub(a: array<nat>, ao: nat, an: nat, b: array<nat>, bo: nat, bn: nat, carry: nat, w: WordBits)
    returns (out: nat)
    requires ao + an <= a.Length && bo + bn <= b.Length && bn <= an && carry <= 1
    requires Readable(a, ao, an, b, bo, bn)
    requires IsDigits(a[ao..ao + an], Base(w)) && IsDigits(b[bo..bo + bn], Base(w))
    modifies a
    ensures IsDigits(a[ao..ao + an], Base(w)) && out <= 1 && OnlyRange(a, ao, an)
    ensures Val(a[ao..ao + an], Base(w)) - out * Pow(Base(w), an)
            == old(Val(a[ao..ao + an], Base(w))) - (old(Val(b[bo..bo + bn], Base(w))) + carry)
  {
    hide Val, Pow, Base, IsDigits;
    ghost var B: nat, f0, t := Base(w), a[..], Val(b[bo..bo + bn], Base(w));
    out := SubLow(a, ao, an, b, bo, bn, carry, w);
    ghost var f1, c := a[..], out;
    RestDigits(f1, ao, bn, an, B);
    out := SubCarry(a, ao + bn, an - bn, out, w);
    JoinBorrows(f0, f1, a[..], ao, bn, an, t + carry, c, out, B);
  }

  // Scaling one more digit.
  lemma ScaleStep(t: seq<nat>, i: nat, d: int, b: nat)
    requires i < |t|
    ensures Val(t[..i + 1], b) * d == Val(t[..i], b) * d + (t[i] * d) * Pow(b, i)
  {
    hide *;
    ValStep(t, i, b);
    ScaleValue(Val(t[..i], b), t[i], Pow(b, i), d);
  }

  lemma ScaleValue(v: int, x: int, p: int, d: int)
    ensures (v + x * p) * d == v * d + (x * d) * p
  {
  }

  // {a,n} := {a,n} + x for one digit x; returns the carry out.
  method AddDigit(a: array<nat>, o: nat, n: nat, x: nat, w: WordBits) returns (out: nat)
    requires 0 < n && o + n <= a.Length && x < Base(w) && IsDigits(a[o..o + n], Base(w))
    modifies a
    ensures IsDigits(a[o..o + n], Base(w)) && out <= 1 && OnlyRange(a, o, n)
    ensures Val(a[o..o + n], Base(w)) + out * Pow(Base(w), n) == old(Val(a[o..o + n], Base(w))) + x
  {
    hide Val, Pow, Base, IsDigits;
    ghost var b: nat, f0, s := Base(w), a[..], a[o..o + n];
    Start(s, b);
    SameDigit(s, s, 0, b);
    var y, carry := Add2(a[o], x, w);
    a[o] := y;
    assert a[o..o + n] == s[0 := y];
    CarryStep(s, s, 0, y, 0, carry, 0, x, b);
    ghost var f1 := a[..];
    RestDigits(f1, o, 1, n, b);
    out := AddCarry(a, o + 1, n - 1, carry, w);
    JoinChains(f0, f1, a[..], o, 1, n, x, carry, out, b);
  }

  // The low bn digits: d times b is added, digit by digit.
  method MultAddLow(a: array<nat>, ao: nat, an: nat, b: array<nat>, bo: nat, bn: nat, d: nat, w: WordBits)
    returns (out: nat)
    requires ao + an <= a.Length && bo + bn <= b.Length && bn <= an && d < Base(w)
    requires Readable(a, ao, an, b, bo, bn)
    requires IsDigits(a[ao..ao + an], Base(w)) && IsDigits(b[bo..bo + bn], Base(w))
    modifies a
    ensures IsDigits(a[ao..ao + an], Base(w)) && out < Base(w) && OnlyRange(a, ao, an)
    ensures a[ao..ao + an][bn..] == old(a[ao..ao + an])[bn..]
    ensures Val(a[ao..ao + an][..bn], Base(w)) + out * Pow(Base(w), bn)
            == Val(old(a[ao..ao + an])[..bn], Base(w)) + old(Val(b[bo..bo + bn], Base(w))) * d
  {
    hide Val, Pow, Base, Wrap, Carry, IsDigits;
    ghost var B: nat, s, t := Base(w), a[ao..ao + an], b[bo..bo + bn];
    Start(s, B); Start(t, B);
    out := 0;
    var i: nat := 0;
    while i < bn
      invariant i <= bn && a[ao..ao + an][i..] == s[i..] && b[bo..bo + bn][i..] == t[i..]
      invariant IsDigits(a[ao..ao + an], B) && OnlyRange(a, ao, an) && out < B
      invariant Val(a[ao..ao + an][..i], B) + out * Pow(B, i) == Val(s[..i], B) + Val(t[..i], B) * d
    {
      ghost var r, c, g := a[ao..ao + an], out, b[..];
      SameDigit(r, s, i, B); SameDigit(b[bo..bo + bn], t, i, B);
      var x;
      x, out := MultAdd3(a[ao + i], b[bo + i], d, out, w);
      a[ao + i] := x;
      assert a[ao..ao + an] == r[i := x];
      StillAhead(g, b[..], bo, bn, t, i);
      CarryStep(r, s, i, x, c, out, Val(t[..i], B) * d, t[i] * d, B);
      ScaleStep(t, i, d, B);
      i := i + 1;
    }
    assert t[..bn] == t;
  }

  /**
   {a,an} := {a,an} + d * {b,bn}; returns the carry out, a digit, which is 0 or 1
   when a is longer than b.
   */
  method MultAddDigit(a: array<nat>, ao: nat, an: nat, b: array<nat>, bo: nat, bn: nat, d: nat, w: WordBits)
    returns (out: nat)
    requires ao + an <= a.Length && bo + bn <= b.Length && bn <= an && d < Base(w)
    requires Readable(a, ao, an, b, bo, bn)
    requires IsDigits(a[ao..ao + an], Base(w)) && IsDigits(b[bo..bo + bn], Base(w))
    modifies a
    ensures IsDigits(a[ao..ao + an], Base(w)) && OnlyRange(a, ao, an)
    ensures out < Base(w) && (bn < an ==> out <= 1)
    ensures Val(a[ao..ao + an], Base(w)) + out * Pow(Base(w), an)
            == old(Val(a[ao..ao + an], Base(w))) + old(Val(b[bo..bo + bn], Base(w))) * d
  {
    hide Val, Pow, Base, IsDigits;
    ghost var B: nat, f0, s, t := Base(w), a[..], a[ao..ao + an], Val(b[bo..bo + bn], Base(w));
    out := MultAddLow(a, ao, an, b, bo, bn, d, w);
    if an == bn {
      assert a[ao..ao + an][..bn] == a[ao..ao + an] && s[..bn] == s;
      return;
    }
    ghost var f1, c := a[..], out;
    RestDigits(f1, ao, bn, an, B);
    out := AddDigit(a, ao + bn, an - bn, out, w);
    JoinChains(f0, f1, a[..], ao, bn, an, t * d, c, out, B);
  }

  // {a,n} := {a,n} - x for one digit x; returns the borrow out.
  method SubDigit(a: array<nat>, o: nat, n: nat, x: nat, w: WordBits) returns (out: nat)
    requires 0 < n && o + n <= a.Length && x < Base(w) && IsDigits(a[o..o + n], Base(w))
    modifies a
    ensures IsDigits(a[o..o + n], Base(w)) && out <= 1 && OnlyRange(a, o, n)
    ensures Val(a[o..o + n], Base(w)) - out * Pow(Base(w), n) == old(Val(a[o..o + n], Base(w))) - x
  {
    hide Val, Pow, Base, IsDigits;
    ghost var b: nat, f0, s := Base(w), a[..], a[o..o + n];
    Start(s, b);
    SameDigit(s, s, 0, b);
    var y, carry := Sub2(a[o], x, w);
    a[o] := y;
    assert a[o..o + n] == s[0 := y];
    BorrowStep(s, s, 0, y, 0, carry, 0, x, b);
    ghost var f1 := a[..];
    RestDigits(f1, o, 1, n, b);
    out := SubCarry(a, o + 1, n - 1, carry, w);
    JoinBorrows(f0, f1, a[..], o, 1, n, x, carry, out, b);
  }

  // The low bn digits: d times b is subtracted, digit by digit.
  method MultSubLow(a: array<nat>, ao: nat, an: nat, b: array<nat>, bo: nat, bn: nat, d: nat, w: WordBits)
    returns (out: nat)
    requires ao + an <= a.Length && bo + bn <= b.Length && bn <= an && d < Base(w)
    requires Readable(a, ao, an, b, bo, bn)
    requires IsDigits(a[ao..ao + an], Base(w)) && IsDigits(b[bo..bo + bn], Base(w))
    modifies a
    ensures IsDigits(a[ao..ao + an], Base(w)) && out < Base(w) && OnlyRange(a, ao, an)
    ensures a[ao..ao + an][bn..] == old(a[ao..ao + an])[bn..]
    ensures Val(a[ao..ao + an][..bn], Base(w)) - out * Pow(Base(w), bn)
            == Val(old(a[ao..ao + an])[..bn], Base(w)) - old(Val(b[bo..bo + bn], Base(w))) * d
  {
    hide Val, Pow, Base, Wrap, Carry, IsDigits;
    ghost var B: nat, s, t := Base(w), a[ao..ao + an], b[bo..bo + bn];
    Start(s, B); Start(t, B);
    out := 0;
    var i: nat := 0;
    while i < bn
      invariant i <= bn && a[ao..ao + an][i..] == s[i..] && b[bo..bo + bn][i..] == t[i..]
      invariant IsDigits(a[ao..ao + an], B) && OnlyRange(a, ao, an) && out < B
      invariant Val(a[ao..ao + an][..i], B) - out * Pow(B, i) == Val(s[..i], B) - Val(t[..i], B) * d
    {
      ghost var r, c, g := a[ao..ao + an], out, b[..];
      SameDigit(r, s, i, B); SameDigit(b[bo..bo + bn], t, i, B);
      var x;
      x, out := MultSub3(a[ao + i], b[bo + i], d, out, w);
      a[ao + i] := x;
      assert a[ao..ao + an] == r[i := x];
      StillAhead(g, b[..], bo, bn, t, i);
      BorrowStep(r, s, i, x, c, out, Val(t[..i], B) * d, t[i] * d, B);
      ScaleStep(t, i, d, B);
      i := i + 1;
    }
    assert t[..bn] == t;
  }

  /**
   {a,an} := {a,an} - d * {b,bn}; returns the borrow out, a digit, which is 0 or 1
   when a is longer than b.
   */
  method MultSubDigit(a: array<nat>, ao: nat, an: nat, b: array<nat>, bo: nat, bn: nat, d: nat, w: WordBits)
    returns (out: nat)
    requires ao + an <= a.Length && bo + bn <= b.Length && bn <= an && d < Base(w)
    requires Readable(a, ao, an, b, bo, bn)
    requires IsDigits(a[ao..ao + an], Base(w)) && IsDigits(b[bo..bo + bn], Base(w))
    modifies a
    ensures IsDigits(a[ao..ao + an], Base(w)) && OnlyRange(a, ao, an)
    ensures out < Base(w) && (bn < an ==> out <= 1)
    ensures Val(a[ao..ao + an], Base(w)) - out * Pow(Base(w), an)
            == old(Val(a[ao..ao + an], Base(w))) - old(Val(b[bo..bo + bn], Base(w))) * d
  {
    hide Val, Pow, Base, IsDigits;
    ghost var B: nat, f0, s, t := Base(w), a[..], a[ao..ao + an], Val(b[bo..bo + bn], Base(w));
    out := MultSubLow(a, ao, an, b, bo, bn, d, w);
    if an == bn {
      assert a[ao..ao + an][..bn] == a[ao..ao + an] && s[..bn] == s;
      return;
    }
    ghost var f1, c := a[..], out;
    RestDigits(f1, ao, bn, an, B);
    out := SubDigit(a, ao + bn, an - bn, out, w);
    JoinBorrows(f0, f1, a[..], ao, bn, an, t * d, c, out, B);
  }
}
