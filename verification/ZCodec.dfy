/**
 Bytes and hashes of Zarith integers: to_bits and of_bits, the custom block's wire
 format and its hash, all independent of the size of the limbs.
 */
module ZCodec {
  import opened Arith
  import opened Bits
  import opened Digits
  import opened BngDigit
  import opened ZRep
  import Nat

  lemma ByteBase()
    ensures Pow(2, 8) == 256
  {
    assert Pow(2, 4) == 16 by {
      assert Pow(2, 1) == 2 && Pow(2, 2) == 4 && Pow(2, 3) == 8;
    }
    PowAdd(2, 4, 4);
  }

  // Eight bits for every byte.
  lemma BytePow(k: nat)
    ensures Pow(256, k) == Pow(2, 8 * k) && Pow(2, 8 * k) > 0
  {
    ByteBase();
    PowMul(2, 8, k);
  }

  lemma LimbPow(w: WordBits, n: nat)
    ensures Base(w) == Pow(256, w / 8) && Pow(Base(w), n) == Pow(256, (w / 8) * n)
  {
    BytePow(w / 8);
    PowMul(256, w / 8, n);
  }

  // x, x >> 8, x >> 16 and so on, each cut to a byte.
  function LimbBytes(x: nat, n: nat): (s: seq<nat>)
    ensures |s| == n
  {
    seq(n, k requires 0 <= k < n => (BytePow(k); (x / Pow(2, 8 * k)) % 256))
  }

  lemma {:induction false} LimbBytesValue(x: nat, n: nat)
    ensures IsDigits(LimbBytes(x, n), 256) && Val(LimbBytes(x, n), 256) == x % Pow(256, n) && Pow(256, n) > 0
  {
    hide Val, Pow;
    BytePow(n);
    if n == 0 {
      PowZero(256);
      ValEmpty(256);
      assert LimbBytes(x, 0) == [];
    } else {
      LimbBytesValue(x, n - 1);
      BytePow(n - 1);
      var d := (x / Pow(256, n - 1)) % 256;
      assert LimbBytes(x, n) == LimbBytes(x, n - 1) + [d];
      ValSnoc(LimbBytes(x, n - 1), d, 256);
      PowOneMore(256, n - 1);
      DivDiv(x, Pow(256, n - 1), 256);
    }
  }

  lemma PowOneMore(b: nat, n: nat)
    ensures Pow(b, n + 1) == Pow(b, n) * b
  {
  }

  /** Writes limbs as bytes, lowest first. */
  method WriteLimbs(limbs: seq<nat>, w: WordBits) returns (bytes: seq<nat>)
    requires IsDigits(limbs, Base(w))
    ensures |bytes| == (w / 8) * |limbs| && IsDigits(bytes, 256)
    ensures Val(bytes, 256) == Val(limbs, Base(w))
  {
    hide Val, Pow, Base, LimbBytes;
    bytes := [];
    ValEmpty(256);
    ValEmpty(Base(w));
    var i: nat := 0;
    assert limbs[..0] == [];
    while i < |limbs|
      invariant i <= |limbs| && |bytes| == (w / 8) * i && IsDigits(bytes, 256)
      invariant Val(bytes, 256) == Val(limbs[..i], Base(w))
    {
      WriteOne(bytes, limbs, i, w);
      bytes := bytes + LimbBytes(limbs[i], w / 8);
      i := i + 1;
    }
    assert limbs[..i] == limbs;
  }

  lemma WriteOne(bytes: seq<nat>, limbs: seq<nat>, i: nat, w: WordBits)
    requires i < |limbs| && IsDigits(limbs, Base(w)) && |bytes| == (w / 8) * i && IsDigits(bytes, 256)
    requires Val(bytes, 256) == Val(limbs[..i], Base(w))
    ensures |bytes + LimbBytes(limbs[i], w / 8)| == (w / 8) * (i + 1)
    ensures IsDigits(bytes + LimbBytes(limbs[i], w / 8), 256)
    ensures Val(bytes + LimbBytes(limbs[i], w / 8), 256) == Val(limbs[..i + 1], Base(w))
  {
    hide Val, Pow, Base, LimbBytes;
    var x := limbs[i];
    LimbBytesValue(x, w / 8);
    LimbPow(w, i);
    DivUnique(x, Base(w), 0, x);
    ValConcat(bytes, LimbBytes(x, w / 8), 256);
    ValStep(limbs, i, Base(w));
  }

  /** One limb from its bytes: x |= byte << 8 * k. */
  method ReadLimb(bytes: seq<nat>, w: WordBits) returns (x: nat)
    requires |bytes| <= w / 8 && IsDigits(bytes, 256)
    ensures x == Val(bytes, 256) < Base(w)
  {
    hide Val, Pow, Base, Or;
    x := 0;
    ValEmpty(256);
    var k: nat := 0;
    assert bytes[..0] == [];
    while k < |bytes|
      invariant k <= |bytes| && x == Val(bytes[..k], 256)
    {
      ReadByte(bytes, k);
      x := Or(x, bytes[k] * Pow(2, 8 * k));
      k := k + 1;
    }
    assert bytes[..k] == bytes;
    LimbPow(w, 1);
    ValBound(bytes, 256);
    PowMono(256, |bytes|, w / 8);
  }

  lemma ReadByte(bytes: seq<nat>, k: nat)
    requires k < |bytes| && IsDigits(bytes, 256)
    ensures bytes[k] * Pow(2, 8 * k) >= 0
    ensures Or(Val(bytes[..k], 256), bytes[k] * Pow(2, 8 * k)) == Val(bytes[..k + 1], 256)
  {
    hide Val, Pow, Or;
    var l: nat, h: nat := Val(bytes[..k], 256), bytes[k];
    BytePow(k);
    ValBound(bytes[..k], 256);
    ValStep(bytes, k, 256);
    MulNonNeg(h, Pow(2, 8 * k));
    OrDisjoint(h, l, 8 * k);
    OrComm(l, h * Pow(2, 8 * k));
  }

  /** Limbs from bytes, the last one maybe from fewer. */
  method ReadLimbs(bytes: seq<nat>, w: WordBits) returns (r: array<nat>)
    requires IsDigits(bytes, 256)
    ensures fresh(r) && r.Length == (|bytes| + w / 8 - 1) / (w / 8)
    ensures IsDigits(r[..], Base(w)) && Val(r[..], Base(w)) == Val(bytes, 256)
  {
    hide Val, Pow, Base;
    var sz := |bytes|;
    var b := w / 8;
    var szw: nat := (sz + b - 1) / b;
    LimbCount(sz, b, szw);
    r := new nat[szw];
    var i: nat := 0;
    ValEmpty(256);
    ValEmpty(Base(w));
    assert r[..0] == [] && bytes[..0] == [];
    while i < szw
      invariant i <= szw && IsDigits(r[..i], Base(w))
      invariant Val(r[..i], Base(w)) == Val(bytes[..if i < szw then b * i else sz], 256)
    {
      ghost var s := r[..i];
      LimbPlace(sz, b, szw, i);
      var from, to := b * i, if i < szw - 1 then b * (i + 1) else sz;
      var x := ReadLimb(bytes[from..to], w);
      r[i] := x;
      assert r[..i + 1] == s + [x];
      ReadOne(s, x, bytes, from, to, i, w);
      i := i + 1;
    }
    assert r[..szw] == r[..] && bytes[..sz] == bytes;
    if szw == 0 {
      assert bytes == [];
    }
  }

  lemma LimbCount(sz: nat, b: nat, szw: int)
    requires b > 0 && szw == (sz + b - 1) / b
    ensures szw >= 0 && b * szw < sz + b && sz <= b * szw && (szw == 0 <==> sz == 0)
  {
    DivMod(sz + b - 1, b);
    if szw < 0 {
      MulMono(szw, -1, b);
    }
  }

  lemma LimbPlace(sz: nat, b: nat, szw: nat, i: nat)
    requires b > 0 && i < szw && b * szw < sz + b && sz <= b * szw
    ensures 0 <= b * i < sz && (i < szw - 1 ==> 0 <= b * (i + 1) < sz && b * (i + 1) - b * i == b)
    ensures i == szw - 1 ==> sz - b * i <= b
  {
    assert b * (i + 1) == b * i + b;
    MulMono(i + 1, szw, b);
    if i < szw - 1 {
      assert b * (i + 2) == b * (i + 1) + b;
      MulMono(i + 2, szw, b);
    }
  }

  lemma ReadOne(s: seq<nat>, x: nat, bytes: seq<nat>, from: nat, to: nat, i: nat, w: WordBits)
    requires IsDigits(s, Base(w)) && x < Base(w) && |s| == i && from == (w / 8) * i && from <= to <= |bytes|
    requires Val(s, Base(w)) == Val(bytes[..from], 256) && x == Val(bytes[from..to], 256)
    ensures IsDigits(s + [x], Base(w)) && Val(s + [x], Base(w)) == Val(bytes[..to], 256)
  {
    hide Val, Pow, Base;
    LimbPow(w, i);
    ValSnoc(s, x, Base(w));
    assert bytes[..to] == bytes[..from] + bytes[from..to];
    ValConcat(bytes[..from], bytes[from..to], 256);
  }

  /** The bytes of the magnitude; the sign is not stored. */
  method ToBits(z: Z, w: WordBits) returns (bytes: seq<nat>)
    requires Valid(z, w)
    ensures IsDigits(bytes, 256)
    ensures Val(bytes, 256) == if Value(z, w) < 0 then -Value(z, w) else Value(z, w)
    ensures |bytes| % (w / 8) == 0 && (|bytes| > 0 ==> |bytes| >= w / 8 && Val(bytes, 256) >= Pow(256, |bytes| - w / 8))
  {
    hide Val, Pow, Base, Unpack;
    var a := Unpack(z, w);
    ArgSign(a, w);
    bytes := WriteLimbs(a.limbs, w);
    WholeLimbs(a.limbs, |bytes|, w);
  }

  // As few bytes as whole limbs allow.
  lemma WholeLimbs(p: seq<nat>, n: nat, w: WordBits)
    requires Normal(p, w) && n == (w / 8) * |p|
    ensures n % (w / 8) == 0 && (n > 0 ==> n >= w / 8 && Val(p, Base(w)) >= Pow(256, n - w / 8))
  {
    hide Val, Pow, Base;
    NormalSize(p, w);
    DivUnique(n, w / 8, |p|, 0);
    if |p| > 0 {
      LimbPow(w, |p| - 1);
      assert n - w / 8 == (w / 8) * (|p| - 1);
    }
  }

  /** Any bytes, read as a number. */
  method OfBits(bytes: seq<nat>, w: WordBits) returns (z: Z)
    requires IsDigits(bytes, 256)
    ensures Valid(z, w) && Value(z, w) == Val(bytes, 256)
  {
    hide Val, Pow, Base;
    var r := ReadLimbs(bytes, w);
    assert r[..r.Length] == r[..];
    z := Reduce(r, r.Length, false, w);
  }

  /** Sign, size in bytes as the four bytes on the wire hold it, and the bytes. */
  datatype Wire = Wire(negative: bool, size: nat, bytes: seq<nat>)

  /** What is written for a block: all its bytes, and their number cut to four bytes. */
  ghost predicate Written(wire: Wire, z: Z, w: WordBits)
    requires z.Block?
  {
    && |wire.bytes| == (w / 8) * |z.limbs| && wire.size == Wrap(|wire.bytes|, 32) && IsDigits(wire.bytes, 256)
    && Signed(wire.negative, Val(wire.bytes, 256)) == Value(z, w)
  }

  /** What is read: only as many bytes as the size says. The block may break the invariant. */
  ghost predicate ReadBack(wire: Wire, z: Z, w: WordBits)
    requires wire.size <= |wire.bytes|
  {
    && z.Block? && Normal(z.limbs, w)
    && Value(z, w) == Signed(wire.negative, Val(wire.bytes[..wire.size], 256))
    && (Valid(z, w) <==> Val(wire.bytes[..wire.size], 256) > MaxInt(w))
  }

  method Serialize(z: Z, w: WordBits) returns (res: Nat.Result<Wire>)
    requires Valid(z, w) && z.Block?
    ensures res.TooBig? <==> |z.limbs| >= Pow(2, 32)
    ensures res.Ok? ==> Written(res.value, z, w)
  {
    hide Val, Pow, Base, Wrap;
    if |z.limbs| >= Pow(2, 32) {
      return Nat.TooBig;
    }
    var bytes := WriteLimbs(z.limbs, w);
    MulNonNeg(w / 8, |z.limbs|);
    res := Nat.Ok(Wire(z.negative, Wrap((w / 8) * |z.limbs|, 32), bytes));
  }

  /** The block read back; it keeps no zero limbs, but is not turned into an int. */
  method Deserialize(wire: Wire, w: WordBits) returns (z: Z)
    requires wire.size <= |wire.bytes| && IsDigits(wire.bytes, 256)
    ensures ReadBack(wire, z, w)
  {
    hide Val, Pow, Base;
    var r := ReadLimbs(wire.bytes[..wire.size], w);
    ghost var s := r[..];
    var i: nat := r.Length;
    while i > 0 && r[i - 1] == 0
      invariant i <= r.Length && r[..] == s && forall k :: i <= k < r.Length ==> s[k] == 0
    {
      i := i - 1;
    }
    ValTrim(s, i, Base(w));
    assert r[..i] == s[..i];
    NativeSigns(w);
    ValEmpty(Base(w));
    z := Block(wire.negative, r[..i]);
  }

  lemma Eight()
    ensures Pow(2, 3) == 8
  {
  }

  // A size that does not survive the cut loses at least 2^32.
  lemma CutSize(n: nat)
    ensures Wrap(n, 32) <= n && (Wrap(n, 32) == n <==> n < Pow(2, 32))
    ensures n >= Pow(2, 32) ==> Wrap(n, 32) + 8 <= n
  {
    var b := Base(32);
    WrapCarry(n, 32);
    PowMono(2, 3, 32);
    Eight();
    hide *;
    CutBy(n, Carry(n, 32), b, Wrap(n, 32));
  }

  lemma CutBy(n: nat, c: int, b: nat, r: nat)
    requires n == c * b + r && r < b
    ensures r <= n && (n >= b ==> r + b <= n)
  {
    if c < 0 {
      MulMono(c, -1, b);
    } else if c > 0 {
      MulMono(1, c, b);
    }
  }

  /**
   The bytes the size names are worth what all are just when the cut lost nothing:
   the top limb is not zero, and a cut takes its bytes away.
   */
  lemma PrefixIsWhole(z: Z, w: WordBits, wire: Wire)
    requires z.Block? && Valid(z, w) && Written(wire, z, w)
    ensures wire.size <= |wire.bytes|
    ensures Val(wire.bytes[..wire.size], 256) == Val(wire.bytes, 256) <==> |wire.bytes| < Pow(2, 32)
  {
    hide Val, Pow, Base, Wrap;
    var n, b := |z.limbs|, w / 8;
    CutSize(|wire.bytes|);
    if |wire.bytes| < Pow(2, 32) {
      assert wire.bytes[..wire.size] == wire.bytes;
    } else {
      NormalSize(z.limbs, w);
      LimbPow(w, n - 1);
      assert b * n - b == b * (n - 1);
      ValBound(wire.bytes[..wire.size], 256);
      PowMono(256, wire.size, b * (n - 1));
    }
  }

  /**
   A block that is accepted is read back as the same number, on every platform, just
   when its bytes are fewer than 2^32. It is then valid there unless it would fit a
   native int.
   */
  lemma WireRoundTrip(z: Z, w: WordBits, wire: Wire, z': Z, w': WordBits)
    requires Valid(z, w) && z.Block? && Written(wire, z, w)
    requires wire.size <= |wire.bytes| && ReadBack(wire, z', w')
    ensures Value(z', w') == Value(z, w) <==> (w / 8) * |z.limbs| < Pow(2, 32)
    ensures (w / 8) * |z.limbs| < Pow(2, 32) ==>
              (Valid(z', w') <==> Value(z, w) < -MaxInt(w') || Value(z, w) > MaxInt(w')) && (w' <= w ==> Valid(z', w'))
  {
    PrefixIsWhole(z, w, wire);
    PowMono(2, 30, 62);
    hide Val, Pow, Base, Wrap;
  }

  // Limbs that are all one.
  function Ones(n: nat): (s: seq<nat>)
    ensures |s| == n && forall i :: 0 <= i < n ==> s[i] == 1
  {
    seq(n, i => 1)
  }

  lemma OnesValid(n: nat)
    requires n >= 2
    ensures Valid(Block(false, Ones(n)), 64) && Val(Ones(n), Base(64)) > 0
  {
    hide Val, Pow, Base, Ones;
    NormalSize(Ones(n), 64);
    PowMono(Base(64), 1, n - 1);
    PowOne(Base(64));
    MaxIntFits(64);
  }

  lemma EighthOfBase()
    ensures 2 <= Pow(2, 29) < Pow(2, 32) == 8 * Pow(2, 29) == Base(32)
  {
    hide Pow;
    PowOne(2);
    PowMono(2, 1, 29);
    PowStrict(2, 29, 32);
    PowAdd(2, 3, 29);
    Eight();
  }

  /** A 64-bit block of 2^29 limbs is accepted, its size is cut to 0, and zero is read back. */
  lemma WireLosesBlock(wire: Wire, z': Z, w': WordBits)
    ensures var z := Block(false, Ones(Pow(2, 29)));
            Valid(z, 64) && |z.limbs| < Pow(2, 32) && Value(z, 64) != 0 &&
            (Written(wire, z, 64) ==> wire.size == 0 && (ReadBack(wire, z', w') ==> Value(z', w') == 0))
  {
    hide Val, Pow, Base, Wrap, Ones;
    var n := Pow(2, 29);
    EighthOfBase();
    OnesValid(n);
    ValEmpty(256);
    WrapUnique(8 * n, 1, 0, 32);
  }

  /** A 32-bit block between the two native ranges is not a valid 64-bit number. */
  lemma WireBreaksInvariant()
    ensures var z := Block(false, [MaxInt(32) + 1]);
            Valid(z, 32) && FitsInt(Value(z, 32), 64)
  {
    MaxIntFits(32);
    MaxIntFits(64);
    ValOne(MaxInt(32) + 1, Base(32));
    PowStrict(2, 30, 62);
  }

  // The 32-bit words of a number, an even count of them; none for zero.
  function EvenWords(v: nat): (s: seq<nat>) {
    if v == 0 then [] else
      var u := Nat.Significant(v);
      if |u| % 2 == 0 then u else u + [0]
  }

  /** The 32-bit words of a number, an even count of them with no two zeros on top. */
  ghost predicate WordsOf(u: seq<nat>, v: nat) {
    && |u| % 2 == 0 && IsDigits(u, Nat.Base32()) && Val(u, Nat.Base32()) == v
    && (|u| > 0 ==> u[|u| - 1] != 0 || u[|u| - 2] != 0)
  }

  /** Every number has one such sequence of words. */
  lemma WordsUnique(u: seq<nat>, v: nat)
    ensures WordsOf(u, v) <==> u == EvenWords(v)
  {
    EvenWordsAre(v);
    if WordsOf(u, v) {
      hide EvenWords;
      WordsAreEven(u, v);
    }
  }

  lemma WordsAreEven(u: seq<nat>, v: nat)
    requires WordsOf(u, v)
    ensures u == EvenWords(v)
  {
    hide Val, EvenWords, Nat.Significant, Nat.Base32;
    if |u| == 0 {
      ValEmpty(Nat.Base32());
      NoWords(32);
    } else {
      if v == 0 {
        ValIsZero(u, Nat.Base32());
      } else if u[|u| - 1] != 0 {
        TopWord(u, v);
      } else {
        HalfTop(u, v);
      }
    }
  }

  lemma EvenWordsAre(v: nat)
    ensures WordsOf(EvenWords(v), v)
  {
    hide Val, Nat.Significant, Nat.Base32;
    if v == 0 {
      ValEmpty(Nat.Base32());
    } else {
      SignificantDigits(v);
      var u := Nat.Significant(v);
      ValSnoc(u, 0, Nat.Base32());
      if |u| == 1 {
        assert u == [u[0]];
        ValOne(u[0], Nat.Base32());
      }
    }
  }

  lemma {:induction false} SignificantDigits(v: nat)
    ensures var u := Nat.Significant(v);
            IsDigits(u, Nat.Base32()) && Val(u, Nat.Base32()) == v && (v > 0 ==> u[|u| - 1] != 0)
    decreases v
  {
    hide Val, Nat.Base32;
    var b := Nat.Base32();
    if v < b {
      ValOne(v, b);
    } else {
      Nat.QuotientDrops(v, b);
      SignificantDigits(v / b);
      DivMod(v, b);
      PositivePart(v, b);
      ValCons(v % b, Nat.Significant(v / b), b);
    }
  }

  lemma PositivePart(v: nat, b: nat)
    requires b > 1 && v >= b
    ensures v / b > 0
  {
    DivMod(v, b);
    if v / b <= 0 {
      MulMono(v / b, 0, b);
    }
  }

  /** The hash mixes the even words, and adds one for a negative number. */
  function HashOf(mix: (nat, nat) -> nat, v: int): nat {
    Wrap(Nat.Fold(mix, EvenWords(if v < 0 then -v else v)) + Flag(v < 0), 32)
  }

  /** The hash of a negative number is one more than that of its opposite. */
  lemma HashOpposite(mix: (nat, nat) -> nat, v: int)
    requires v > 0
    ensures HashOf(mix, -v) == Wrap(HashOf(mix, v) + 1, 32)
  {
    hide Wrap, Nat.Fold, EvenWords;
    WrapTwice(Nat.Fold(mix, EvenWords(v)), 1, 32);
  }

  lemma HashIs(mix: (nat, nat) -> nat, v: int, u: seq<nat>)
    requires WordsOf(u, AbsInt(v))
    ensures HashOf(mix, v) == Wrap(Nat.Fold(mix, u) + (if v < 0 then 1 else 0), 32)
  {
    hide Wrap, Nat.Fold, WordsOf, EvenWords;
    WordsUnique(u, AbsInt(v));
  }

  lemma WordIsWhole(x: nat)
    requires x < Base(32)
    ensures x % Nat.Base32() == x
  {
    WrapNone(x, Nat.Base32());
  }

  // The words mixed are the even words of the magnitude.
  lemma HashWords(p: seq<nat>, w: WordBits)
    requires Normal(p, w)
    ensures if w == 32 && |p| % 2 != 0 then Nat.Words(p, w) + [0] == EvenWords(Val(p, Base(w)))
            else Nat.Words(p, w) == EvenWords(Val(p, Base(w)))
  {
    hide Val, Pow, Base, EvenWords, Nat.Words;
    NormalSize(p, w);
    Nat.WordsValue(p, w);
    if |p| == 0 {
      NoWords(w);
    } else {
      var t, d := p[..|p| - 1], p[|p| - 1];
      assert p == t + [d];
      Nat.WordsSnoc(t, d, w);
      if w == 32 || d / Nat.Base32() != 0 {
        TopWord(Nat.Words(p, w), Val(p, Base(w)));
      } else {
        DivMod(d, Nat.Base32());
        HalfTop(Nat.Words(p, w), Val(p, Base(w)));
      }
    }
  }

  lemma NoWords(w: WordBits)
    ensures Nat.Words([], w) == [] && EvenWords(0) == []
  {
  }

  lemma TopWord(u: seq<nat>, v: nat)
    requires |u| > 0 && IsDigits(u, Nat.Base32()) && u[|u| - 1] != 0 && Val(u, Nat.Base32()) == v > 0
    ensures EvenWords(v) == if |u| % 2 == 0 then u else u + [0]
  {
    hide Val, Nat.Significant, Nat.Base32;
    Nat.SignificantIs(u);
  }

  lemma HalfTop(u: seq<nat>, v: nat)
    requires |u| >= 2 && |u| % 2 == 0 && u[|u| - 1] == 0 && u[|u| - 2] != 0 && v > 0
    requires IsDigits(u, Nat.Base32()) && Val(u, Nat.Base32()) == v
    ensures EvenWords(v) == u
  {
    hide Val, EvenWords, Nat.Significant, Nat.Base32;
    var u0 := u[..|u| - 1];
    assert u == u0 + [0];
    ValSnoc(u0, 0, Nat.Base32());
    TopWord(u0, v);
  }

  method Hash(z: Z, mix: (nat, nat) -> nat, w: WordBits) returns (h: nat)
    requires Valid(z, w) && forall x, y :: mix(x, y) < Base(32)
    ensures h == HashOf(mix, Value(z, w))
    ensures forall u :: WordsOf(u, AbsInt(Value(z, w))) ==>
                          h == Wrap(Nat.Fold(mix, u) + (if Value(z, w) < 0 then 1 else 0), 32)
  {
    hide Val, Pow, Base, Unpack, WordsOf, Nat.Fold, Nat.Words, Nat.Significant, Nat.Base32, Wrap;
    var a := Unpack(z, w);
    var p := a.limbs;
    ArgSign(a, w);
    assert p[..0] == [];
    Nat.HashStart(mix, w);
    h := 0;
    var i: nat := 0;
    while i < |p|
      invariant i <= |p| && h == Nat.Fold(mix, Nat.Words(p[..i], w)) && h < Base(32)
    {
      Nat.HashStep(mix, p, i, w);
      h := mix(h, p[i] % Nat.Base32());
      if w == 64 {
        h := mix(h, p[i] / Nat.Base32());
      } else {
        WordIsWhole(p[i]);
      }
      i := i + 1;
    }
    assert p[..i] == p;
    HashWords(p, w);
    if w == 32 && |p| % 2 != 0 {
      Nat.FoldSnoc(mix, Nat.Words(p, w), 0);
      h := mix(h, 0);
    }
    if a.negative {
      h := Wrap(h + 1, 32);
    }
    forall u | WordsOf(u, AbsInt(Value(z, w)))
      ensures h == Wrap(Nat.Fold(mix, u) + (if Value(z, w) < 0 then 1 else 0), 32)
    {
      HashIs(mix, Value(z, w), u);
    }
  }
}
