/** Products and squares accumulated into a number. */
module BngMul {
  import opened Arith
  import opened Bits
  import opened Digits
  import opened BngDigit
  import opened Bng
  import opened BngShift

  // Accumulating x from digit i on, seen on all n digits from o.
  lemma AccumulateAt(f: seq<nat>, g: seq<nat>, o: nat, i: nat, n: nat, x: int, out: int, b: nat)
    requires i <= n && o + n <= |f| == |g|
    requires g[..o + i] == f[..o + i] && g[o + i + (n - i)..] == f[o + i + (n - i)..]
    requires IsDigits(f[o..o + n], b) && IsDigits(g[o + i..o + i + (n - i)], b)
    requires Val(g[o + i..o + i + (n - i)], b) + out * Pow(b, n - i) == Val(f[o + i..o + i + (n - i)], b) + x
    ensures g[..o] == f[..o] && g[o + n..] == f[o + n..] && IsDigits(g[o..o + n], b)
    ensures Val(g[o..o + n], b) + out * Pow(b, n) == Val(f[o..o + n], b) + x * Pow(b, i)
  {
    hide Val, Pow, IsDigits;
    JoinChains(f, f, g, o, i, n, x * Pow(b, i), x, out, b);
  }

  // The whole accumulation stays below twice the top, so its carry is at most one.
  lemma CarryBelowTwo(v: nat, c: nat, p: nat, x: nat, y: nat)
    requires v + c * p == x + y && x < p && y <= p
    ensures c <= 1
  {
    if c >= 2 {
      MulMono(2, c, p);
    }
  }

  // A product of m and k digits fits in n digits.
  lemma ProductFits(t: nat, u: nat, m: nat, k: nat, n: nat, b: nat)
    requires b >= 1 && t < Pow(b, m) && u < Pow(b, k) && m + k <= n
    ensures 0 <= t * u < Pow(b, n)
  {
    hide Pow;
    MulMono(0, t, u);
    MulMono(t, Pow(b, m), u);
    MulStrict(u, Pow(b, k), Pow(b, m));
    PowAdd(b, m, k);
    PowMono(b, m + k, n);
  }

  // One digit times b, accumulated into a from digit i on.
  method MultAddAt(a: array<nat>, ao: nat, an: nat, i: nat, b: array<nat>, bo: nat, bn: nat, d: nat, w: WordBits)
    returns (out: nat)
    requires ao + an <= a.Length && bo + bn <= b.Length && i + bn < an && d < Base(w) && Apart(a, ao, an, b, bo, bn)
    requires IsDigits(a[ao..ao + an], Base(w)) && IsDigits(b[bo..bo + bn], Base(w))
    modifies a
    ensures IsDigits(a[ao..ao + an], Base(w)) && OnlyRange(a, ao, an) && out <= 1
    ensures b[bo..bo + bn] == old(b[bo..bo + bn])
    ensures Val(a[ao..ao + an], Base(w)) + out * Pow(Base(w), an)
            == old(Val(a[ao..ao + an], Base(w))) + (d * old(Val(b[bo..bo + bn], Base(w)))) * Pow(Base(w), i)
  {
    hide Val, Pow, Base, IsDigits;
    ghost var f, v: nat := a[..], Val(b[bo..bo + bn], Base(w));
    RestDigits(f, ao, i, an, Base(w));
    out := MultAddDigit(a, ao + i, an - i, b, bo, bn, d, w);
    AccumulateAt(f, a[..], ao, i, an, v * d, out, Base(w));
  }

  // After i digits of u the carry is at most one.
  lemma MultCarry(v: nat, carry: nat, s: seq<nat>, t: seq<nat>, u: seq<nat>, i: nat, b: nat)
    requires b >= 1 && IsDigits(s, b) && IsDigits(t, b) && IsDigits(u, b) && i <= |u| && |t| + |u| <= |s|
    requires v + carry * Pow(b, |s|) == Val(s, b) + Val(u[..i], b) * Val(t, b)
    ensures carry <= 1
  {
    SplitDigits(u, i, b);
    hide Val, Pow, IsDigits;
    ValBound(s, b); ValBound(t, b); ValBound(u[..i], b);
    ProductFits(Val(u[..i], b), Val(t, b), i, |t|, |s|, b);
    CarryBelowTwo(v, carry, Pow(b, |s|), Val(s, b), Val(u[..i], b) * Val(t, b));
  }

  /** {a,an} := {a,an} + {b,bn} * {c,cn}; returns the carry out, for an >= bn + cn. */
  method MultAdd(a: array<nat>, ao: nat, an: nat, b: array<nat>, bo: nat, bn: nat,
                 c: array<nat>, co: nat, cn: nat, w: WordBits)
    returns (carry: nat)
    requires ao + an <= a.Length && bo + bn <= b.Length && co + cn <= c.Length && bn + cn <= an
    requires Apart(a, ao, an, b, bo, bn) && Apart(a, ao, an, c, co, cn)
    requires IsDigits(a[ao..ao + an], Base(w)) && IsDigits(b[bo..bo + bn], Base(w)) && IsDigits(c[co..co + cn], Base(w))
    modifies a
    ensures IsDigits(a[ao..ao + an], Base(w)) && OnlyRange(a, ao, an) && carry <= 1
    ensures b[bo..bo + bn] == old(b[bo..bo + bn]) && c[co..co + cn] == old(c[co..co + cn])
    ensures Val(a[ao..ao + an], Base(w)) + carry * Pow(Base(w), an)
            == old(Val(a[ao..ao + an], Base(w))) + Val(c[co..co + cn], Base(w)) * Val(b[bo..bo + bn], Base(w))
  {
    hide Val, Pow, Base, IsDigits;
    ghost var B: nat, s, t, u := Base(w), a[ao..ao + an], b[bo..bo + bn], c[co..co + cn];
    Start(u, B);
    carry := 0;
    var i: nat := 0;
    while i < cn
      invariant i <= cn && carry <= 1 && IsDigits(a[ao..ao + an], B) && OnlyRange(a, ao, an)
      invariant b[bo..bo + bn] == t && c[co..co + cn] == u
      invariant Val(a[ao..ao + an], B) + carry * Pow(B, an) == Val(s, B) + Val(u[..i], B) * Val(t, B)
    {
      Member(u, i, B);
      assert c[co + i] == u[i];
      ghost var f := a[..];
      var more := MultAddAt(a, ao, an, i, b, bo, bn, c[co + i], w);
      if a == c {
        KeptOutside(f, a[..], ao, an, co, co + cn);
      }
      ScaleStep(u, i, Val(t, B), B);
      AddCarries(carry, more, Pow(B, an));
      carry := carry + more;
      i := i + 1;
      MultCarry(Val(a[ao..ao + an], B), carry, s, t, u, i, B);
    }
    assert u[..cn] == u;
  }

  lemma AddCarries(x: int, y: int, p: int)
    ensures (x + y) * p == x * p + y * p
  {
  }

  // The products of two different digits of t, each once, in their places.
  ghost function Cross(t: seq<nat>, b: nat): nat {
    if |t| == 0 then 0 else
      var v, c := Val(t[1..], b), Cross(t[1..], b);
      MulNonNeg(t[0], v);
      MulNonNeg(b, c);
      MulNonNeg(b, t[0] * v + b * c);
      b * (t[0] * v + b * c)
  }

  // The squares of the digits of t, in their places.
  ghost function Squares(t: seq<nat>, b: nat): nat {
    if |t| == 0 then 0 else
      var q := Squares(t[1..], b);
      MulNonNeg(t[0], t[0]);
      MulNonNeg(b, q);
      MulNonNeg(b, b * q);
      t[0] * t[0] + b * (b * q)
  }

  /** A square is twice the cross products and the squares of the digits. */
  lemma {:induction false} SquareSplits(t: seq<nat>, b: nat)
    ensures Val(t, b) * Val(t, b) == 2 * Cross(t, b) + Squares(t, b)
  {
    if |t| > 0 {
      SquareSplits(t[1..], b);
      assert t == [t[0]] + t[1..];
      ValCons(t[0], t[1..], b);
      SquareValue(t[0], Val(t[1..], b), b, Cross(t[1..], b), Squares(t[1..], b));
    }
  }

  lemma SquareValue(d: int, v: int, b: int, c: int, q: int)
    requires v * v == 2 * c + q
    ensures (d + b * v) * (d + b * v) == 2 * (b * (d * v + b * c)) + (d * d + b * (b * q))
  {
    assert (d + b * v) * (d + b * v) == d * d + 2 * (b * (d * v)) + b * b * (v * v);
    assert b * b * (2 * c + q) == 2 * (b * b * c) + b * b * q;
  }

  // Taking the first digit off what is left of the cross products from i on.
  lemma CrossStep(t: seq<nat>, i: nat, b: nat)
    requires i < |t|
    ensures Pow(b, 2 * i) * Cross(t[i..], b)
            == (t[i] * Val(t[i + 1..], b)) * Pow(b, 2 * i + 1) + Pow(b, 2 * (i + 1)) * Cross(t[i + 1..], b)
  {
    assert t[i..][1..] == t[i + 1..];
    PowTwo(b, 2 * i);
    hide Pow;
    CrossValue(Pow(b, 2 * i), b, t[i] * Val(t[i + 1..], b), Cross(t[i + 1..], b));
  }

  lemma PowTwo(b: nat, n: nat)
    ensures Pow(b, n + 1) == b * Pow(b, n) && Pow(b, n + 2) == b * (b * Pow(b, n))
  {
  }

  lemma CrossValue(p: int, b: int, x: int, c: int)
    ensures p * (b * (x + b * c)) == x * (b * p) + (b * (b * p)) * c
  {
    assert b * (x + b * c) == b * x + b * (b * c);
    assert p * (b * x) == x * (b * p);
    assert p * (b * (b * c)) == (b * (b * p)) * c;
  }

  // Taking the first square off what is left of the squares from i on.
  lemma SquaresStep(t: seq<nat>, i: nat, b: nat)
    requires i < |t|
    ensures Pow(b, 2 * i) * Squares(t[i..], b)
            == (t[i] * t[i]) * Pow(b, 2 * i) + Pow(b, 2 * (i + 1)) * Squares(t[i + 1..], b)
  {
    assert t[i..][1..] == t[i + 1..];
    PowTwo(b, 2 * i);
    hide Pow;
    SquaresValue(Pow(b, 2 * i), b, t[i] * t[i], Squares(t[i + 1..], b));
  }

  lemma SquaresValue(p: int, b: int, x: int, q: int)
    ensures p * (x + b * (b * q)) == x * p + (b * (b * p)) * q
  {
    assert p * (b * (b * q)) == (b * (b * p)) * q;
  }

  // The cross products fit in twice the digits of t.
  lemma CrossFits(t: seq<nat>, n: nat, b: nat)
    requires b >= 1 && IsDigits(t, b) && 2 * |t| <= n
    ensures Cross(t, b) < Pow(b, n) && Val(t, b) * Val(t, b) < Pow(b, n)
  {
    hide Val, Pow, Cross, Squares, IsDigits;
    SquareSplits(t, b);
    ValBound(t, b);
    ProductFits(Val(t, b), Val(t, b), |t|, |t|, n, b);
  }

  // What the first loop keeps: the cross products from digit i on are still to come.
  ghost predicate Crossing(v: nat, carry: nat, s: nat, t: seq<nat>, i: nat, p: nat, b: nat)
    requires i <= |t|
  {
    v + carry * p + Pow(b, 2 * i) * Cross(t[i..], b) == s + Cross(t, b)
  }

  lemma CrossingStep(v: nat, v': nat, carry: nat, more: nat, s: seq<nat>, t: seq<nat>, i: nat, b: nat)
    requires b >= 1 && IsDigits(s, b) && IsDigits(t, b) && i < |t| && 2 * |t| <= |s|
    requires Crossing(v, carry, Val(s, b), t, i, Pow(b, |s|), b)
    requires v' + more * Pow(b, |s|) == v + (t[i] * Val(t[i + 1..], b)) * Pow(b, 2 * i + 1)
    ensures Crossing(v', carry + more, Val(s, b), t, i + 1, Pow(b, |s|), b) && carry + more <= 1
  {
    hide Val, Pow, Cross, IsDigits;
    CrossStep(t, i, b);
    AddCarries(carry, more, Pow(b, |s|));
    CrossFits(t, |s|, b); ValBound(s, b);
    MulMono(0, Pow(b, 2 * (i + 1)), Cross(t[i + 1..], b));
    CarrySmall(v', carry + more, Pow(b, |s|), Val(s, b) + Cross(t, b));
  }

  lemma CarrySmall(v: nat, c: nat, p: nat, x: nat)
    requires v + c * p <= x < 2 * p
    ensures c <= 1
  {
    if c >= 2 {
      MulMono(2, c, p);
    }
  }

  // {a,an} plus the products of two different digits of b.
  method AddCross(a: array<nat>, ao: nat, an: nat, b: array<nat>, bo: nat, bn: nat, w: WordBits)
    returns (carry: nat)
    requires ao + an <= a.Length && bo + bn <= b.Length && 2 * bn <= an && Apart(a, ao, an, b, bo, bn)
    requires IsDigits(a[ao..ao + an], Base(w)) && IsDigits(b[bo..bo + bn], Base(w))
    modifies a
    ensures IsDigits(a[ao..ao + an], Base(w)) && OnlyRange(a, ao, an) && carry <= 1
    ensures b[bo..bo + bn] == old(b[bo..bo + bn])
    ensures Val(a[ao..ao + an], Base(w)) + carry * Pow(Base(w), an)
            == old(Val(a[ao..ao + an], Base(w))) + Cross(b[bo..bo + bn], Base(w))
  {
    hide Val, Pow, Base, IsDigits, Cross, Crossing;
    ghost var B: nat, s, t, p: nat := Base(w), a[ao..ao + an], b[bo..bo + bn], Pow(Base(w), an);
    StartCrossing(Val(s, B), t, p, B);
    carry := 0;
    var i: nat := 1;
    while i < bn
      invariant 1 <= i && (bn > 0 ==> i <= bn) && carry <= 1
      invariant IsDigits(a[ao..ao + an], B) && OnlyRange(a, ao, an) && b[bo..bo + bn] == t
      invariant bn > 0 ==> Crossing(Val(a[ao..ao + an], B), carry, Val(s, B), t, i - 1, p, B)
      invariant bn == 0 ==> Val(a[ao..ao + an], B) == Val(s, B) && carry == 0
    {
      ghost var v := Val(a[ao..ao + an], B);
      var aofs := 2 * i - 1;
      Member(t, i - 1, B); SplitDigits(t, i, B);
      assert b[bo + i..bo + i + (bn - i)] == t[i..];
      assert b[bo + i - 1] == t[i - 1];
      var more := MultAddAt(a, ao, an, aofs, b, bo + i, bn - i, b[bo + i - 1], w);
      assert 2 * (i - 1) + 1 == aofs && i - 1 + 1 == i;
      CrossingStep(v, Val(a[ao..ao + an], B), carry, more, s, t, i - 1, B);
      carry := carry + more;
      i := i + 1;
    }
    DoneCrossing(Val(a[ao..ao + an], B), carry, Val(s, B), t, p, B);
  }

  lemma StartCrossing(v: nat, t: seq<nat>, p: nat, b: nat)
    ensures Crossing(v, 0, v, t, 0, p, b)
  {
    assert t[0..] == t;
  }

  lemma DoneCrossing(v: nat, carry: nat, s: nat, t: seq<nat>, p: nat, b: nat)
    requires if |t| > 0 then Crossing(v, carry, s, t, |t| - 1, p, b) else v == s && carry == 0
    ensures v + carry * p == s + Cross(t, b)
  {
    hide Cross, Pow;
    if |t| == 0 {
      NoCross(t, b);
    } else {
      NoCross(t[|t| - 1..], b);
      TimesZero(Pow(b, 2 * (|t| - 1)));
    }
  }

  lemma TimesZero(p: int)
    ensures p * 0 == 0
  {
  }

  lemma NoCross(t: seq<nat>, b: nat)
    requires |t| <= 1
    ensures Cross(t, b) == 0
  {
    if |t| == 1 {
      assert t[1..] == [];
    }
  }

  // What the last loop keeps: the squares of the digits from i on are still to come.
  ghost predicate Squaring(r: seq<nat>, s: seq<nat>, t: seq<nat>, i: nat, carry: nat, b: nat)
    requires i <= |t| && 2 * i <= |s| == |r|
  {
    && r[2 * i..] == s[2 * i..] && IsDigits(r, b)
    && Val(r[..2 * i], b) + carry * Pow(b, 2 * i) + Pow(b, 2 * i) * Squares(t[i..], b)
       == Val(s[..2 * i], b) + Squares(t, b)
  }

  // One square, over two digits: its low digit with the carry, then its high digit.
  lemma SquaringStep(r: seq<nat>, s: seq<nat>, t: seq<nat>, i: nat, carry: nat, x: nat, c: nat, y: nat, c': nat,
                     ph: nat, pl: nat, b: nat)
    requires b >= 1 && i < |t| && 2 * i + 2 <= |s| == |r| && x < b && y < b
    requires Squaring(r, s, t, i, carry, b)
    requires ph * b + pl == t[i] * t[i]
    requires x + c * b == s[2 * i] + pl + carry && y + c' * b == s[2 * i + 1] + ph + c
    ensures Squaring(r[2 * i := x][2 * i + 1 := y], s, t, i + 1, c', b)
  {
    var E := Squares(t, b) - Pow(b, 2 * i) * Squares(t[i..], b);
    hide Val, Pow, IsDigits, Squares;
    var r1 := r[2 * i := x];
    CarryStep(r, s, 2 * i, x, carry, c, E, pl, b);
    CarryStep(r1, s, 2 * i + 1, y, c, c', E + pl * Pow(b, 2 * i), ph, b);
    SquaresStep(t, i, b);
    PowTwo(b, 2 * i);
    TwoDigits(ph, pl, b, Pow(b, 2 * i), t[i] * t[i]);
    assert 2 * i + 1 + 1 == 2 * (i + 1) == 2 * i + 2;
  }

  lemma TwoDigits(ph: int, pl: int, b: int, p: int, v: int)
    requires ph * b + pl == v
    ensures v * p == pl * p + ph * (b * p)
  {
  }

  // {a,an} plus the squares of the digits of b, over the low 2bn digits.
  method AddSquares(a: array<nat>, ao: nat, an: nat, b: array<nat>, bo: nat, bn: nat, w: WordBits)
    returns (carry: nat)
    requires ao + an <= a.Length && bo + bn <= b.Length && 2 * bn <= an && Apart(a, ao, an, b, bo, bn)
    requires IsDigits(a[ao..ao + an], Base(w)) && IsDigits(b[bo..bo + bn], Base(w))
    modifies a
    ensures IsDigits(a[ao..ao + an], Base(w)) && OnlyRange(a, ao, an) && carry <= 1
    ensures a[ao..ao + an][2 * bn..] == old(a[ao..ao + an])[2 * bn..] && b[bo..bo + bn] == old(b[bo..bo + bn])
    ensures Val(a[ao..ao + an][..2 * bn], Base(w)) + carry * Pow(Base(w), 2 * bn)
            == Val(old(a[ao..ao + an])[..2 * bn], Base(w)) + Squares(b[bo..bo + bn], Base(w))
  {
    hide Val, Pow, Base, IsDigits, Squares, Squaring;
    ghost var B: nat, s, t := Base(w), a[ao..ao + an], b[bo..bo + bn];
    StartSquaring(s, t, B);
    carry := 0;
    var i: nat := 0;
    while i < bn
      invariant i <= bn && carry <= 1 && OnlyRange(a, ao, an)
      invariant Squaring(a[ao..ao + an], s, t, i, carry, B) && b[bo..bo + bn] == t
    {
      ghost var r, c0 := a[ao..ao + an], carry;
      Member(t, i, B);
      SquaringDigits(r, s, t, i, carry, B);
      assert b[bo + i] == t[i];
      var d := b[bo + i];
      var ph, pl := Mult(d, d, w);
      var x, y;
      x, carry := Add2Carry(a[ao + 2 * i], pl, carry, w);
      a[ao + 2 * i] := x;
      ghost var c1 := carry;
      assert a[ao..ao + an] == r[2 * i := x];
      y, carry := Add2Carry(a[ao + 2 * i + 1], ph, carry, w);
      a[ao + 2 * i + 1] := y;
      assert a[ao..ao + an] == r[2 * i := x][2 * i + 1 := y];
      SquaringStep(r, s, t, i, c0, x, c1, y, carry, ph, pl, B);
      i := i + 1;
    }
    DoneSquaring(a[ao..ao + an], s, t, carry, B);
  }

  lemma StartSquaring(s: seq<nat>, t: seq<nat>, b: nat)
    requires IsDigits(s, b)
    ensures Squaring(s, s, t, 0, 0, b)
  {
    assert t[0..] == t && s[0..] == s;
  }

  lemma SquaringDigits(r: seq<nat>, s: seq<nat>, t: seq<nat>, i: nat, carry: nat, b: nat)
    requires i < |t| && 2 * i + 2 <= |s| == |r| && Squaring(r, s, t, i, carry, b)
    ensures r[2 * i] == s[2 * i] < b && r[2 * i + 1] == s[2 * i + 1] < b
  {
    assert r[2 * i] == r[2 * i..][0] == s[2 * i] && r[2 * i + 1] == r[2 * i..][1] == s[2 * i + 1];
  }

  lemma DoneSquaring(r: seq<nat>, s: seq<nat>, t: seq<nat>, carry: nat, b: nat)
    requires 2 * |t| <= |s| == |r| && Squaring(r, s, t, |t|, carry, b)
    ensures r[2 * |t|..] == s[2 * |t|..] && IsDigits(r, b)
    ensures Val(r[..2 * |t|], b) + carry * Pow(b, 2 * |t|) == Val(s[..2 * |t|], b) + Squares(t, b)
  {
    assert Squares(t[|t|..], b) == 0;
  }

  // The last phase: the squares of the digits of b, and their carry.
  method AddAllSquares(a: array<nat>, ao: nat, an: nat, b: array<nat>, bo: nat, bn: nat, w: WordBits)
    returns (carry: nat)
    requires ao + an <= a.Length && bo + bn <= b.Length && 2 * bn <= an && Apart(a, ao, an, b, bo, bn)
    requires IsDigits(a[ao..ao + an], Base(w)) && IsDigits(b[bo..bo + bn], Base(w))
    modifies a
    ensures IsDigits(a[ao..ao + an], Base(w)) && OnlyRange(a, ao, an) && carry <= 1
    ensures Val(a[ao..ao + an], Base(w)) + carry * Pow(Base(w), an)
            == old(Val(a[ao..ao + an], Base(w))) + old(Squares(b[bo..bo + bn], Base(w)))
  {
    hide Val, Pow, Base, IsDigits, Squares;
    ghost var B: nat, f1, q := Base(w), a[..], Squares(b[bo..bo + bn], Base(w));
    carry := AddSquares(a, ao, an, b, bo, bn, w);
    ghost var f2, c := a[..], carry;
    RestDigits(f2, ao, 2 * bn, an, B);
    carry := AddCarry(a, ao + 2 * bn, an - 2 * bn, carry, w);
    JoinChains(f1, f2, a[..], ao, 2 * bn, an, q, c, carry, B);
  }

  // The three phases together: twice the number and the square.
  lemma SquareTotal(v1: nat, c1: nat, v2: nat, bit: nat, v3: nat, c3: nat, s: seq<nat>, t: seq<nat>, n: nat, b: nat)
    requires b >= 1 && IsDigits(s, b) && IsDigits(t, b) && n == |s| && 2 * |t| <= n
    requires v1 + c1 * Pow(b, n) == Val(s, b) + Cross(t, b) && v2 + bit * Pow(b, n) == v1 * 2
    requires v3 + c3 * Pow(b, n) == v2 + Squares(t, b)
    ensures v3 + (2 * c1 + bit + c3) * Pow(b, n) == 2 * Val(s, b) + Val(t, b) * Val(t, b)
    ensures 2 * c1 + bit + c3 <= 2
  {
    hide Val, Pow, Cross, Squares, IsDigits;
    SquareSplits(t, b);
    CrossFits(t, n, b); ValBound(s, b);
    TotalValue(c1, bit, c3, Pow(b, n));
    CarryAtMostTwo(v3, 2 * c1 + bit + c3, Pow(b, n), Val(s, b), Val(t, b) * Val(t, b));
  }

  lemma TotalValue(x: int, y: int, z: int, p: int)
    ensures (2 * x + y + z) * p == 2 * (x * p) + y * p + z * p
  {
  }

  lemma CarryAtMostTwo(v: nat, c: nat, p: nat, s: nat, q: int)
    requires v + c * p == 2 * s + q && s < p && q < p
    ensures c <= 2
  {
    if c >= 3 {
      MulMono(3, c, p);
    }
  }

  // A carry bit shifted left, with the bit shifted out below it.
  lemma OneBit(c: nat, bit: nat)
    requires bit < Pow(2, 1)
    ensures Pow(2, 1) == 2 && Or(c * 2, bit) == 2 * c + bit
  {
    PowTwo(2, 0);
    OrDisjoint(c, bit, 1);
  }

  /** {a,an} := 2 * {a,an} + {b,bn}^2; returns the carry out, for an >= 2 * bn. */
  method SquareAdd(a: array<nat>, ao: nat, an: nat, b: array<nat>, bo: nat, bn: nat, w: WordBits)
    returns (carry: nat)
    requires ao + an <= a.Length && bo + bn <= b.Length && 2 * bn <= an && Apart(a, ao, an, b, bo, bn)
    requires IsDigits(a[ao..ao + an], Base(w)) && IsDigits(b[bo..bo + bn], Base(w))
    modifies a
    ensures IsDigits(a[ao..ao + an], Base(w)) && OnlyRange(a, ao, an) && carry <= 2
    ensures Val(a[ao..ao + an], Base(w)) + carry * Pow(Base(w), an)
            == 2 * old(Val(a[ao..ao + an], Base(w))) + old(Val(b[bo..bo + bn], Base(w)) * Val(b[bo..bo + bn], Base(w)))
  {
    hide Val, Pow, Base, IsDigits, Cross, Squares, Or;
    ghost var B: nat, s, t := Base(w), a[ao..ao + an], b[bo..bo + bn];
    var carry1 := AddCross(a, ao, an, b, bo, bn, w);
    ghost var f := a[..];
    ghost var c1: nat, v1: nat := carry1, Val(a[ao..ao + an], B);
    var bit := ShiftLeft(a, ao, an, 1, w);
    if a == b {
      KeptOutside(f, a[..], ao, an, bo, bo + bn);
    }
    assert b[bo..bo + bn] == t;
    OneBit(carry1, bit);
    carry1 := Or(carry1 * 2, bit);
    ghost var v2: nat := Val(a[ao..ao + an], B);
    var carry2 := AddAllSquares(a, ao, an, b, bo, bn, w);
    carry := carry1 + carry2;
    SquareTotal(v1, c1, v2, bit, Val(a[ao..ao + an], B), carry2, s, t, an, B);
  }
}
