/**
 The stubs of the Nat module: inverted carries, the hash and the wire format, which
 are the same on 32-bit and 64-bit machines of either byte order.
 */
module Nat {
  import opened Arith
  import opened Bits
  import opened Digits
  import opened BngDigit
  import Bng
  import opened BngCompare

  lemma XorOne(c: nat)
    requires c <= 1
    ensures Xor(1, c) == 1 - c
  {
    assert Xor(0, 0) == 0;
  }

  /** Nat's carry into a subtraction is one when there is nothing to borrow. */
  method DecrNat(a: array<nat>, o: nat, n: nat, carryIn: nat, w: WordBits) returns (carryOut: nat)
    requires o + n <= a.Length && carryIn <= 1 && IsDigits(a[o..o + n], Base(w))
    modifies a
    ensures IsDigits(a[o..o + n], Base(w)) && carryOut <= 1 && Bng.OnlyRange(a, o, n)
    ensures Val(a[o..o + n], Base(w)) - (1 - carryOut) * Pow(Base(w), n)
            == old(Val(a[o..o + n], Base(w))) - (1 - carryIn)
  {
    hide Val, Pow, Base, Xor, IsDigits;
    XorOne(carryIn);
    var borrow := Bng.SubCarry(a, o, n, Xor(1, carryIn), w);
    XorOne(borrow);
    carryOut := Xor(1, borrow);
  }

  method SubNat(a: array<nat>, ao: nat, an: nat, b: array<nat>, bo: nat, bn: nat, carryIn: nat, w: WordBits)
    returns (carryOut: nat)
    requires ao + an <= a.Length && bo + bn <= b.Length && bn <= an && carryIn <= 1
    requires Bng.Readable(a, ao, an, b, bo, bn)
    requires IsDigits(a[ao..ao + an], Base(w)) && IsDigits(b[bo..bo + bn], Base(w))
    modifies a
    ensures IsDigits(a[ao..ao + an], Base(w)) && carryOut <= 1 && Bng.OnlyRange(a, ao, an)
    ensures Val(a[ao..ao + an], Base(w)) - (1 - carryOut) * Pow(Base(w), an)
            == old(Val(a[ao..ao + an], Base(w))) - (old(Val(b[bo..bo + bn], Base(w))) + (1 - carryIn))
  {
    hide Val, Pow, Base, Xor, IsDigits;
    XorOne(carryIn);
    var borrow := Bng.Sub(a, ao, an, b, bo, bn, Xor(1, carryIn), w);
    XorOne(borrow);
    carryOut := Xor(1, borrow);
  }

  /** One more than the largest 32-bit word. */
  function Base32(): (b: nat)
    ensures b > 1
  {
    PowFour(32);
    Pow(2, 32)
  }

  // The 32-bit words of digits, low words first.
  function Words(s: seq<nat>, w: WordBits): (t: seq<nat>) {
    if w == 32 then s
    else if |s| == 0 then []
    else Words(s[..|s| - 1], w) + [s[|s| - 1] % Base32(), s[|s| - 1] / Base32()]
  }

  lemma BaseIs32(w: WordBits)
    ensures Base(w) == if w == 32 then Base32() else Base32() * Base32()
  {
    HalfSquared(w);
  }

  lemma {:induction false} WordsValue(s: seq<nat>, w: WordBits)
    requires IsDigits(s, Base(w))
    ensures IsDigits(Words(s, w), Base32()) && Val(Words(s, w), Base32()) == Val(s, Base(w))
    ensures |Words(s, w)| == if w == 32 then |s| else 2 * |s|
  {
    BaseIs32(w);
    if w == 64 && |s| > 0 {
      var t, d := s[..|s| - 1], s[|s| - 1];
      hide Base32, Val;
      WordsValue(t, w);
      assert s == t + [d];
      ValSnoc(t, d, Base(w));
      TwoWords(Words(t, w), d, Base32(), |t|);
    }
  }

  // Two words of one digit.
  lemma TwoWords(u: seq<nat>, d: nat, b: nat, n: nat)
    requires b > 1 && d < b * b && |u| == 2 * n && IsDigits(u, b)
    ensures IsDigits(u + [d % b, d / b], b)
    ensures Val(u + [d % b, d / b], b) == Val(u, b) + d * Pow(b * b, n)
  {
    DivMod(d, b);
    SmallQuotient(d, b);
    hide Val;
    var v := u + [d % b];
    assert u + [d % b, d / b] == v + [d / b];
    ValSnoc(u, d % b, b);
    ValSnoc(v, d / b, b);
    PowSquare(b, n);
    JoinWords(d / b, d % b, d, b, Pow(b, 2 * n));
  }

  lemma SmallQuotient(d: nat, b: nat)
    requires b > 0 && d < b * b
    ensures 0 <= d / b < b
  {
    DivMod(d, b);
    if d / b >= b {
      MulMono(b, d / b, b);
    }
    if d / b < 0 {
      MulMono(d / b, -1, b);
    }
  }

  lemma PowSquare(b: nat, n: nat)
    ensures Pow(b * b, n) == Pow(b, 2 * n)
  {
    assert Pow(b, 2) == b * b by {
      assert Pow(b, 1) == b;
    }
    PowMul(b, 2, n);
  }

  lemma JoinWords(h: int, l: int, d: int, b: int, p: int)
    requires d == h * b + l
    ensures l * p + h * (b * p) == d * p
  {
    assert (h * b + l) * p == h * b * p + l * p;
  }

  /** The 32-bit words of a number, low words first and no zero word on top but a lone one. */
  function Significant(v: nat): (s: seq<nat>)
    ensures |s| > 0
    decreases v
  {
    if v < Base32() then [v] else (QuotientDrops(v, Base32()); [v % Base32()] + Significant(v / Base32()))
  }

  lemma QuotientDrops(v: nat, b: nat)
    requires b > 1 && v >= b
    ensures 0 <= v / b < v
  {
    DivMod(v, b);
    MulMono(2, b, v / b);
  }

  lemma {:induction false} SignificantIs(s: seq<nat>)
    requires |s| > 0 && IsDigits(s, Base32()) && (|s| > 1 ==> s[|s| - 1] != 0)
    ensures s == Significant(Val(s, Base32()))
    decreases |s|
  {
    hide Val, Base32;
    ValLow(s, Base32());
    if |s| == 1 {
      assert s == [s[0]];
      ValOne(s[0], Base32());
    } else {
      var t := s[1..];
      assert s == [s[0]] + t;
      ValCons(s[0], t, Base32());
      SignificantIs(t);
      AtLeastBase(t, s[0]);
    }
  }

  lemma AtLeastBase(t: seq<nat>, d: nat)
    requires |t| > 0 && IsDigits(t, Base32()) && t[|t| - 1] != 0
    ensures d + Base32() * Val(t, Base32()) >= Base32()
  {
    hide Base32, Val;
    if Val(t, Base32()) == 0 {
      ValIsZero(t, Base32());
    } else {
      MulMono(1, Val(t, Base32()), Base32());
    }
  }

  /** Mixing words into a hash, one after the other. */
  function Fold(mix: (nat, nat) -> nat, s: seq<nat>): nat {
    if |s| == 0 then 0 else mix(Fold(mix, s[..|s| - 1]), s[|s| - 1])
  }

  lemma FoldSnoc(mix: (nat, nat) -> nat, s: seq<nat>, d: nat)
    ensures Fold(mix, s + [d]) == mix(Fold(mix, s), d)
  {
    assert (s + [d])[..|s|] == s;
  }

  /**
   The hash is that of the significant 32-bit words of the number: it does not depend
   on the size of the digits or on leading zeros. mix stands for the runtime's.
   */
  method HashNat(a: array<nat>, mix: (nat, nat) -> nat, w: WordBits) returns (h: nat)
    requires a.Length > 0 && IsDigits(a[..], Base(w))
    ensures h == Fold(mix, Significant(Val(a[..], Base(w))))
  {
    hide Val, Base, Base32, Fold, Significant, Pow, Words;
    assert a[0..0 + a.Length] == a[..];
    var len: nat := NumDigits(a, 0, a.Length, w);
    ghost var s: seq<nat> := a[..len];
    h := 0;
    var i: nat := 0;
    HashStart(mix, w);
    assert s[..0] == [];
    while i < len
      invariant i <= len && h == Fold(mix, Words(s[..i], w))
      invariant i == len && w == 64 ==> s[len - 1] / Base32() != 0
    {
      var d := a[i];
      HashStep(mix, s, i, w);
      if w == 64 {
        h := mix(h, d % Base32());
        d := d / Base32();
        if d == 0 && i + 1 == len {
          LastHash(mix, s, w);
          break;
        }
        h := mix(h, d);
      } else {
        h := mix(h, d);
      }
      i := i + 1;
    }
    if i == len {
      AllHash(mix, s, w);
    }
  }

  // Mixing one digit is mixing its words.
  lemma HashStep(mix: (nat, nat) -> nat, s: seq<nat>, i: nat, w: WordBits)
    requires i < |s|
    ensures w == 32 ==> Fold(mix, Words(s[..i + 1], w)) == mix(Fold(mix, Words(s[..i], w)), s[i])
    ensures w == 64 ==>
      Fold(mix, Words(s[..i], w) + [s[i] % Base32()]) == mix(Fold(mix, Words(s[..i], w)), s[i] % Base32())
    ensures s[i] / Base32() >= 0
    ensures w == 64 ==>
      Fold(mix, Words(s[..i + 1], w)) == mix(Fold(mix, Words(s[..i], w) + [s[i] % Base32()]), s[i] / Base32())
  {
    hide Base32, Fold, Words;
    var u, d := Words(s[..i], w), s[i];
    assert s[..i + 1] == s[..i] + [d];
    WordsSnoc(s[..i], d, w);
    if w == 32 {
      FoldSnoc(mix, u, d);
    } else {
      FoldSnoc(mix, u, d % Base32());
      FoldSnoc(mix, u + [d % Base32()], d / Base32());
      assert (u + [d % Base32()]) + [d / Base32()] == u + [d % Base32(), d / Base32()];
    }
  }

  lemma LastHash(mix: (nat, nat) -> nat, s: seq<nat>, w: WordBits)
    requires w == 64 && |s| > 0 && IsDigits(s, Base(w)) && (|s| > 1 ==> s[|s| - 1] != 0)
    requires s[|s| - 1] / Base32() == 0
    ensures Fold(mix, Words(s[..|s| - 1], w) + [s[|s| - 1] % Base32()]) == Fold(mix, Significant(Val(s, Base(w))))
  {
    hide Base32, Base, Val, Fold, Words, Significant;
    var t, d := s[..|s| - 1], s[|s| - 1];
    assert s == t + [d];
    LastWord(t, d, s, w);
    SignificantHash(Words(t, w) + [d % Base32()], s, w);
  }

  lemma AllHash(mix: (nat, nat) -> nat, s: seq<nat>, w: WordBits)
    requires |s| > 0 && IsDigits(s, Base(w)) && (|s| > 1 ==> s[|s| - 1] != 0)
    requires w == 64 ==> s[|s| - 1] / Base32() != 0
    ensures Fold(mix, Words(s[..|s|], w)) == Fold(mix, Significant(Val(s, Base(w))))
  {
    hide Base32, Base, Val, Fold, Words, Significant;
    var t, d := s[..|s| - 1], s[|s| - 1];
    assert s == t + [d] && s[..|s|] == s;
    AllWords(t, d, s, w);
    SignificantHash(Words(s, w), s, w);
  }

  ghost predicate SignificantWords(u: seq<nat>, s: seq<nat>, w: WordBits) {
    && |u| > 0 && IsDigits(u, Base32()) && (|u| > 1 ==> u[|u| - 1] != 0)
    && Val(u, Base32()) == Val(s, Base(w))
  }

  lemma SignificantHash(u: seq<nat>, s: seq<nat>, w: WordBits)
    requires SignificantWords(u, s, w)
    ensures u == Significant(Val(s, Base(w)))
  {
    SignificantIs(u);
  }

  lemma HashStart(mix: (nat, nat) -> nat, w: WordBits)
    ensures Fold(mix, Words([], w)) == 0
  {
  }

  lemma WordsSnoc(s: seq<nat>, d: nat, w: WordBits)
    ensures Words(s + [d], w) == if w == 32 then Words(s, w) + [d] else Words(s, w) + [d % Base32(), d / Base32()]
  {
    assert (s + [d])[..|s|] == s;
  }

  // The last digit gives one word when its high half is zero.
  lemma LastWord(t: seq<nat>, d: nat, s: seq<nat>, w: WordBits)
    requires w == 64 && s == t + [d] && IsDigits(s, Base(w)) && d / Base32() == 0 && (|t| > 0 ==> d != 0)
    ensures SignificantWords(Words(t, w) + [d % Base32()], s, w)
  {
    hide Val, Base32, Base;
    var u := Words(t, w) + [d % Base32()];
    WordsSnoc(t, d, w);
    WordsValue(s, w);
    WordsValue(t, w);
    DivMod(d, Base32());
    assert Words(s, w) == u + [0];
    ValSnoc(u, 0, Base32());
  }

  // Otherwise its high half is the top word.
  lemma AllWords(t: seq<nat>, d: nat, s: seq<nat>, w: WordBits)
    requires s == t + [d] && IsDigits(s, Base(w)) && (|t| > 0 ==> d != 0) && (w == 64 ==> d / Base32() != 0)
    ensures SignificantWords(Words(s, w), s, w)
  {
    hide Val, Base32, Base;
    WordsSnoc(t, d, w);
    WordsValue(s, w);
  }

  datatype Platform = Platform(w: WordBits, bigEndian: bool)

  datatype Result<T> = Ok(value: T) | TooBig

  predicate Swapped(p: Platform) { p.w == 64 && p.bigEndian }

  /** The words of a number in memory, low words first. */
  ghost function LowFirst(mem: seq<nat>, p: Platform): (s: seq<nat>)
    requires p.w == 64 ==> |mem| % 2 == 0
    ensures |s| == |mem|
  {
    if Swapped(p) then seq(|mem|, i requires 0 <= i < |mem| => mem[if i % 2 == 0 then i + 1 else i - 1]) else mem
  }

  /** The digits the words in memory make on a platform. */
  ghost function DigitsIn(mem: seq<nat>, p: Platform): (s: seq<nat>)
    requires p.w == 64 ==> |mem| % 2 == 0
    decreases |mem|
  {
    if p.w == 32 then mem
    else if |mem| == 0 then []
    else
      var n := |mem| - 2;
      DigitsIn(mem[..n], p) + [if p.bigEndian then mem[n + 1] + mem[n] * Base32() else mem[n] + mem[n + 1] * Base32()]
  }

  // The low and the high word of the last digit in memory.
  function LastLow(mem: seq<nat>, p: Platform): nat
    requires |mem| >= 2
  {
    if p.bigEndian then mem[|mem| - 1] else mem[|mem| - 2]
  }

  function LastHigh(mem: seq<nat>, p: Platform): nat
    requires |mem| >= 2
  {
    if p.bigEndian then mem[|mem| - 2] else mem[|mem| - 1]
  }

  lemma LastWords(mem: seq<nat>, p: Platform)
    requires p.w == 64 && |mem| % 2 == 0 && |mem| >= 2
    ensures LowFirst(mem, p) == LowFirst(mem[..|mem| - 2], p) + [LastLow(mem, p)] + [LastHigh(mem, p)]
  {
    var n := |mem| - 2;
    var f, g := LowFirst(mem, p), LowFirst(mem[..n], p);
    forall k | 0 <= k < n ensures f[k] == g[k] {
    }
    assert f[n] == LastLow(mem, p) && f[n + 1] == LastHigh(mem, p);
    assert f == f[..n] + [f[n]] + [f[n + 1]];
    assert f[..n] == g;
  }

  lemma LastDigit(mem: seq<nat>, p: Platform)
    requires p.w == 64 && |mem| % 2 == 0 && |mem| >= 2
    ensures DigitsIn(mem, p) == DigitsIn(mem[..|mem| - 2], p) + [LastLow(mem, p) + LastHigh(mem, p) * Base32()]
  {
    hide Base32;
  }

  /** Both readings of the memory are the same number. */
  lemma {:induction false} DigitsValue(mem: seq<nat>, p: Platform)
    requires p.w == 64 ==> |mem| % 2 == 0
    ensures Val(DigitsIn(mem, p), Base(p.w)) == Val(LowFirst(mem, p), Base32())
    ensures p.w == 64 ==> |DigitsIn(mem, p)| == |mem| / 2
    decreases |mem|
  {
    BaseIs32(p.w);
    hide Val, Base32, Base, LowFirst;
    if p.w == 32 {
      SameWords(mem, p);
    } else if |mem| == 0 {
      ValEmpty(Base(p.w));
      ValEmpty(Base32());
    } else {
      var m := mem[..|mem| - 2];
      DigitsValue(m, p);
      LastWords(mem, p);
      LastDigit(mem, p);
      JoinedValue(LowFirst(m, p), DigitsIn(m, p), LastLow(mem, p), LastHigh(mem, p), Base32());
    }
  }

  lemma JoinedValue(u: seq<nat>, v: seq<nat>, l: nat, h: nat, b: nat)
    requires |u| == 2 * |v| && Val(u, b) == Val(v, b * b)
    ensures l + h * b >= 0 && Val(u + [l] + [h], b) == Val(v + [l + h * b], b * b)
  {
    hide Val;
    MulNonNeg(h, b);
    ValSnoc(u, l, b);
    ValSnoc(u + [l], h, b);
    ValSnoc(v, l + h * b, b * b);
    PowSquare(b, |v|);
    JoinWords(h, l, l + h * b, b, Pow(b, 2 * |v|));
  }

  lemma SameWords(mem: seq<nat>, p: Platform)
    requires p.w == 32
    ensures LowFirst(mem, p) == mem
  {
  }

  /** The count of 32-bit words, then the words, low words first. */
  method SerializeNat(mem: array<nat>, p: Platform) returns (res: Result<seq<nat>>)
    requires p.w == 64 ==> mem.Length % 2 == 0
    ensures res.TooBig? <==> p.w == 64 && mem.Length >= Base32()
    ensures res.Ok? ==> res.value == [mem.Length] + LowFirst(mem[..], p)
  {
    var len: nat := mem.Length;
    if p.w == 64 && len >= Base32() {
      return TooBig;
    }
    var stream := [len];
    if Swapped(p) {
      var i: nat, at: nat := len, 0;
      while i > 0
        invariant at + i == len && at % 2 == 0
        invariant stream == [len] + LowFirst(mem[..], p)[..at]
      {
        ghost var f := LowFirst(mem[..], p);
        stream := stream + [mem[at + 1]];
        stream := stream + [mem[at]];
        assert f[..at + 2] == f[..at] + [f[at]] + [f[at + 1]];
        i := i - 2;
        at := at + 2;
      }
    } else {
      stream := stream + mem[..];
    }
    return Ok(stream);
  }

  /** The words read, with a zero word to make whole digits of an odd count. */
  ghost function Padded(words: seq<nat>, p: Platform): (s: seq<nat>)
    ensures p.w == 64 ==> |s| % 2 == 0
  {
    if p.w == 64 && |words| % 2 == 1 then words + [0] else words
  }

  /** Fills the number in dst; returns its size in bytes. */
  method DeserializeNat(stream: seq<nat>, dst: array<nat>, p: Platform) returns (bytes: nat)
    requires |stream| > 0 && |stream| == 1 + stream[0] && dst.Length >= stream[0] + stream[0] % 2
    modifies dst
    ensures bytes == 4 * |Padded(stream[1..], p)| && |Padded(stream[1..], p)| <= dst.Length
    ensures LowFirst(dst[..bytes / 4], p) == Padded(stream[1..], p) && dst[bytes / 4..] == old(dst[bytes / 4..])
  {
    var len: nat;
    if Swapped(p) {
      len := ReadSwapped(stream[1..], dst);
      SwappedIs(dst[..len], Padded(stream[1..], p), p);
    } else {
      len := stream[0];
      forall k | 0 <= k < len { dst[k] := stream[1 + k]; }
      if p.w == 64 && len % 2 == 1 {
        dst[len] := 0;
        len := len + 1;
      }
      assert dst[..len] == Padded(stream[1..], p);
    }
    bytes := 4 * len;
  }

  // The place of a word in a digit with its halves swapped.
  function Other(k: nat): nat { if k % 2 == 0 then k + 1 else k - 1 }

  lemma SwappedIs(mem: seq<nat>, words: seq<nat>, p: Platform)
    requires Swapped(p) && |mem| == |words| && |mem| % 2 == 0
    requires forall k :: 0 <= k < |words| ==> mem[Other(k)] == words[k]
    ensures LowFirst(mem, p) == words
  {
  }

  /** Low word first off the wire, high word first in memory. */
  method ReadSwapped(words: seq<nat>, dst: array<nat>) returns (len: nat)
    requires |words| + |words| % 2 <= dst.Length
    modifies dst
    ensures len == |words| + |words| % 2
    ensures forall k :: 0 <= k < len ==> dst[Other(k)] == if k < |words| then words[k] else 0
    ensures dst[len..] == old(dst[len..])
  {
    len := |words|;
    var i: nat, at: nat := len, 0;
    while i > 1
      invariant at + i == |words| && at % 2 == 0
      invariant forall k :: 0 <= k < at ==> dst[Other(k)] == words[k]
      invariant forall k :: |words| + |words| % 2 <= k < dst.Length ==> dst[k] == old(dst[k])
    {
      dst[at + 1] := words[at];
      dst[at] := words[at + 1];
      i := i - 2;
      at := at + 2;
    }
    if i > 0 {
      dst[at + 1] := words[at];
      dst[at] := 0;
      len := len + 1;
    }
  }

  /** What one platform writes, any platform reads as the same number. */
  lemma CodecRoundTrip(mem: seq<nat>, p: Platform, mem': seq<nat>, p': Platform)
    requires p.w == 64 ==> |mem| % 2 == 0
    requires p'.w == 64 ==> |mem'| % 2 == 0
    requires LowFirst(mem', p') == Padded(LowFirst(mem, p), p')
    ensures Val(DigitsIn(mem', p'), Base(p'.w)) == Val(DigitsIn(mem, p), Base(p.w))
  {
    hide Base32, Base, Val, LowFirst, DigitsIn;
    DigitsValue(mem, p);
    DigitsValue(mem', p');
    PaddedValue(LowFirst(mem, p), p');
  }

  lemma PaddedValue(s: seq<nat>, p: Platform)
    ensures Val(Padded(s, p), Base32()) == Val(s, Base32())
  {
    hide Base32, Val;
    ValSnoc(s, 0, Base32());
  }
}
