/** Z.of_substring_base: the text of a substring, through native ints or limbs. */
module ZParse {
  import opened Wrappers
  import opened Arith
  import opened BngDigit
  import opened Digits
  import opened ZRep
  import opened ZText

  /** What is left of the substring; nothing once the prefix has run past its end. */
  function Rest(v: string, d: nat, e: nat): string
    requires e <= |v|
  {
    if d < e then v[d..e] else ""
  }

  lemma DropRest(v: string, d: nat, e: nat, c: char)
    requires e <= |v| && c != '\0'
    ensures DropChar(Rest(v, d, e), c) == Rest(v, if At(v, d) == c then d + 1 else d, e)
    ensures At(v, d) == c ==> d < |v|
  {
  }

  /** The optional mark of the base at d, which may lie past the end. */
  method ReadBase(v: string, start: nat, e: nat) returns (base: nat, d: nat)
    requires start <= |v| && e <= |v|
    ensures start <= d <= |v|
    ensures base in {2, 8, 10, 16} && Rest(v, d, e) == BaseMark(Rest(v, start, e)).1
    ensures d < e ==> base == BaseMark(Rest(v, start, e)).0
  {
    d := start;
    base := 10;
    if At(v, d) == '0' {
      d := d + 1;
      if At(v, d) == 'o' || At(v, d) == 'O' {
        base := 8;
        d := d + 1;
      } else if At(v, d) == 'x' || At(v, d) == 'X' {
        base := 16;
        d := d + 1;
      } else if At(v, d) == 'b' || At(v, d) == 'B' {
        base := 2;
        d := d + 1;
      }
    }
  }

  method SkipLeadingZeros(v: string, start: nat, e: nat) returns (d: nat)
    requires start <= |v| && e <= |v|
    ensures start <= d <= |v| && Rest(v, d, e) == SkipZeros(Rest(v, start, e))
  {
    hide SkipZeros;
    d := start;
    while At(v, d) == '0'
      invariant start <= d <= |v| && SkipZeros(Rest(v, d, e)) == SkipZeros(Rest(v, start, e))
      decreases |v| - d
    {
      SkipRest(v, d, e);
      d := d + 1;
    }
    SkipRest(v, d, e);
  }

  lemma SkipRest(v: string, d: nat, e: nat)
    requires e <= |v|
    ensures At(v, d) == '0' ==> SkipZeros(Rest(v, d + 1, e)) == SkipZeros(Rest(v, d, e))
    ensures At(v, d) != '0' ==> SkipZeros(Rest(v, d, e)) == Rest(v, d, e)
  {
    if d < e {
      SkipFirst(Rest(v, d, e));
      assert Rest(v, d, e)[1..] == Rest(v, d + 1, e);
    }
  }

  /** How many digits always fit a native int. */
  function NativeDigits(base: nat, w: WordBits): nat {
    if base == 10 then (if w == 64 then 18 else 9)
    else if base == 16 then (if w == 64 then 15 else 7)
    else if base == 8 then (if w == 64 then 20 else 10)
    else if base == 2 then (if w == 64 then 62 else 30)
    else 0
  }

  lemma PowersOfTen()
    ensures Pow(10, 9) == 1_000_000_000 && Pow(10, 18) == 1_000_000_000_000_000_000
  {
    assert Pow(10, 3) == 1000 by {
      assert Pow(10, 1) == 10 && Pow(10, 2) == 100;
    }
    PowMul(10, 3, 3);
    assert Pow(1000, 3) == 1_000_000_000 by {
      assert Pow(1000, 1) == 1000 && Pow(1000, 2) == 1_000_000;
    }
    PowAdd(10, 9, 9);
  }

  lemma PowersOfTwo()
    ensures Pow(2, 30) == 0x4000_0000 && Pow(2, 62) == 0x4000_0000_0000_0000
  {
    assert Pow(2, 5) == 32 by {
      assert Pow(2, 1) == 2 && Pow(2, 2) == 4 && Pow(2, 3) == 8 && Pow(2, 4) == 16;
    }
    PowAdd(2, 5, 5);
    PowAdd(2, 10, 10);
    PowAdd(2, 20, 10);
    PowAdd(2, 30, 30);
    PowAdd(2, 60, 2);
    assert Pow(2, 2) == 4 by {
      assert Pow(2, 1) == 2;
    }
  }

  /** The limits are right: that many digits stay below the largest native int. */
  lemma NativeLimit(base: nat, sz: nat, w: WordBits)
    requires base in {2, 8, 10, 16} && sz <= NativeDigits(base, w)
    ensures Pow(base, sz) <= MaxInt(w) + 1
  {
    hide Pow;
    PowMono(base, sz, NativeDigits(base, w));
    PowersOfTen();
    PowersOfTwo();
    BasePowers(base);
    if base != 10 {
      var k := if base == 16 then 4 else if base == 8 then 3 else 1;
      PowMul(2, k, NativeDigits(base, w));
      PowMono(2, k * NativeDigits(base, w), w - 2);
    }
  }

  lemma BasePowers(base: nat)
    ensures base == 16 ==> Pow(2, 4) == 16
    ensures base == 8 ==> Pow(2, 3) == 8
    ensures base == 2 ==> Pow(2, 1) == 2
  {
    assert Pow(2, 1) == 2 && Pow(2, 2) == 4 && Pow(2, 3) == 8;
  }

  /** The common case: the number fits a native int, which never overflows on the way. */
  method ParseNative(t: string, base: nat, sign: bool, w: WordBits) returns (res: Result<Z>)
    requires base in {2, 8, 10, 16} && |t| <= NativeDigits(base, w)
    ensures res == match ParseDigits(t, base, sign)
                   case Number(n) => Ok(Small(n))
                   case Invalid => InvalidArgument
    ensures res.Ok? ==> Valid(res.value, w)
  {
    hide Pow, NumberOf, DigitValue;
    var ret: nat := 0;
    var i: nat := 0;
    assert t[..0] == "";
    NothingRead(base);
    while i < |t|
      invariant i <= |t| && AllDigits(t[..i], base)
      invariant ret == NumberOf(DigitValues(t[..i]), base) <= MaxInt(w)
    {
      var digit := DigitValue(t[i]);
      if digit >= base {
        return InvalidArgument;
      }
      ReadDigit(t, i, base, w);
      ret := ret * base + digit;
      i := i + 1;
    }
    assert t[..i] == t;
    if sign {
      return Ok(Small(-(ret as int)));
    } else {
      return Ok(Small(ret));
    }
  }

  lemma NothingRead(base: nat)
    ensures NumberOf(DigitValues(""), base) == 0
  {
  }

  lemma ReadDigit(t: string, i: nat, base: nat, w: WordBits)
    requires i < |t| <= NativeDigits(base, w) && base in {2, 8, 10, 16}
    requires AllDigits(t[..i], base) && DigitValue(t[i]) < base
    ensures AllDigits(t[..i + 1], base)
    ensures NumberOf(DigitValues(t[..i + 1]), base) == NumberOf(DigitValues(t[..i]), base) * base + DigitValue(t[i])
    ensures 0 <= NumberOf(DigitValues(t[..i]), base) * base + DigitValue(t[i]) <= MaxInt(w)
  {
    hide Pow, NumberOf, DigitValue, MaxInt, NativeDigits;
    var s, d := DigitValues(t[..i]), DigitValue(t[i]);
    assert DigitValues(t[..i + 1]) == s + [d];
    assert t[..i + 1] == t[..i] + [t[i]];
    NumberSnoc(s, d, base);
    NumberBound(s + [d], base);
    NativeLimit(base, i + 1, w);
  }

  /** mpn_set_str: limbs of the number digits stand for. */
  method MpnSetStr(r: array<nat>, digits: seq<nat>, base: nat, w: WordBits) returns (size: nat)
    requires |digits| > 0 && digits[0] != 0 && base >= 2 && forall i :: 0 <= i < |digits| ==> digits[i] < base
    requires NumberOf(digits, base) < Pow(Base(w), r.Length)
    modifies r
    ensures size <= r.Length && IsDigits(r[..size], Base(w)) && Val(r[..size], Base(w)) == NumberOf(digits, base)
  {
    hide Base, Val, Pow, NumberOf;
    var rest := Store(r, r.Length, NumberOf(digits, base), w);
    StoreRest(r[..r.Length], rest, NumberOf(digits, base), w);
    size := r.Length;
  }

  /** The limbs allocated are enough: a limb for every 2 * sizeof(limb) digits, and one. */
  lemma LimbsSuffice(digits: seq<nat>, base: nat, n: nat, w: WordBits)
    requires 2 <= base <= 16 && (forall i :: 0 <= i < |digits| ==> digits[i] < base) && n == 1 + |digits| / (w / 4)
    ensures NumberOf(digits, base) < Pow(Base(w), n)
  {
    hide Pow, NumberOf;
    var sz, q := |digits|, w / 4;
    NumberBound(digits, base);
    PowBaseMono(base, 16, sz);
    BasePowers(16);
    PowMul(2, 4, sz);
    DivMod(sz, q);
    assert sz < (sz / q + 1) * q by {
      assert (sz / q + 1) * q == (sz / q) * q + q;
    }
    assert w * n == 4 * ((sz / q + 1) * q);
    PowMono(2, 4 * sz, w * n);
    PowMul(2, w, n);
  }

  lemma {:induction false} PowBaseMono(a: nat, b: nat, n: nat)
    requires a <= b
    ensures Pow(a, n) <= Pow(b, n)
  {
    if n > 0 {
      PowBaseMono(a, b, n - 1);
      MulMono(a, b, Pow(a, n - 1));
      MulMono(Pow(a, n - 1), Pow(b, n - 1), b);
    }
  }

  /** The long way: digit values, then limbs. */
  method ParseLimbs(t: string, base: nat, sign: bool, w: WordBits) returns (res: Result<Z>)
    requires 2 <= base <= 16 && |t| > 0 && t[0] != '0'
    ensures res.InvalidArgument? <==> ParseDigits(t, base, sign).Invalid?
    ensures res.Ok? ==> Valid(res.value, w) && ParseDigits(t, base, sign) == Number(Value(res.value, w))
  {
    hide Pow, NumberOf, DigitValue, Base, Val, Valid, Value;
    var dd := new nat[|t|];
    var i: nat := 0;
    while i < |t|
      invariant i <= |t| && AllDigits(t[..i], base)
      invariant forall k :: 0 <= k < i ==> dd[k] == DigitValue(t[k])
    {
      dd[i] := DigitValue(t[i]);
      if dd[i] >= base {
        return InvalidArgument;
      }
      assert t[..i + 1] == t[..i] + [t[i]];
      i := i + 1;
    }
    assert t[..i] == t && dd[..] == DigitValues(t);
    OnlyZeroIsZero(t[0]);
    var r := new nat[1 + |t| / (w / 4)];
    LimbsSuffice(dd[..], base, r.Length, w);
    var sz2 := MpnSetStr(r, dd[..], base, w);
    var z := Reduce(r, sz2, sign, w);
    res := Ok(z);
  }

  lemma OnlyZeroIsZero(c: char)
    requires c != '0'
    ensures DigitValue(c) != 0
  {
  }

  /** Digits that start with no zero, whichever way they are read. */
  method ParseRest(t: string, base: nat, sign: bool, w: WordBits) returns (res: Result<Z>)
    requires 2 <= base <= 16 && |t| > 0 && t[0] != '0'
    ensures res.InvalidArgument? <==> ParseDigits(t, base, sign).Invalid?
    ensures res.Ok? ==> Valid(res.value, w) && ParseDigits(t, base, sign) == Number(Value(res.value, w))
  {
    hide NumberOf, DigitValue, Base, Val, ParseDigits;
    if |t| <= NativeDigits(base, w) {
      res := ParseNative(t, base, sign, w);
    } else {
      res := ParseLimbs(t, base, sign, w);
    }
  }

  lemma EmptyIsZero(base: nat, negative: bool)
    ensures ParseDigits("", base, negative) == Number(0)
  {
    assert DigitValues("") == [];
  }

  // The optional signs.
  method ReadSign(v: string, start: nat, e: nat) returns (sign: bool, d: nat)
    requires start <= e <= |v|
    ensures start <= d <= |v| && Rest(v, d, e) == DropChar(DropChar(v[start..e], '-'), '+')
    ensures start < e ==> sign == (v[start] == '-')
  {
    hide DropChar;
    d := start;
    sign := At(v, d) == '-';
    assert v[start..e] == Rest(v, start, e);
    DropRest(v, d, e, '-');
    if At(v, d) == '-' {
      d := d + 1;
    }
    DropRest(v, d, e, '+');
    if At(v, d) == '+' {
      d := d + 1;
    }
  }

  /**
   A substring reads as its text does, whatever follows it: signs, marks and zeros past
   its end are skipped but do not count.
   */
  method OfSubstringBase(b: int, v: string, offset: int, length: int, w: WordBits) returns (res: Result<Z>)
    ensures offset < 0 || length < 0 || offset + length > |v| ==> res.InvalidArgument?
    ensures 0 <= offset && 0 <= length && offset + length <= |v| ==>
              (res.InvalidArgument? <==> ParseText(b, v[offset..offset + length]).Invalid?)
    ensures 0 <= offset && 0 <= length && offset + length <= |v| && res.Ok? ==>
              Valid(res.value, w) && ParseText(b, v[offset..offset + length]) == Number(Value(res.value, w))
  {
    hide ParseDigits, DropChar, SkipZeros, BaseMark, Valid, Value;
    if offset < 0 || length < 0 || |v| < offset + length {
      return InvalidArgument;
    }
    var e: nat := offset + length;
    ghost var text := v[offset..e];
    ghost var negative, t := |text| > 0 && text[0] == '-', DropChar(DropChar(text, '-'), '+');
    var sign, d := ReadSign(v, offset, e);
    var base: int := b;
    if base == 0 {
      base, d := ReadBase(v, d, e);
    }
    if base < 2 || base > 16 {
      return InvalidArgument;
    }
    d := SkipLeadingZeros(v, d, e);
    MarkBase(t);
    if e - d <= 0 {
      EmptyIsZero(if b == 0 then BaseMark(t).0 else b, negative);
      SmallIsValid(0, w);
      assert ParseText(b, text) == Number(0);
      res := Ok(Small(0));
    } else {
      assert ParseText(b, text) == ParseDigits(v[d..e], base, sign);
      res := ParseRest(v[d..e], base, sign, w);
    }
  }

  lemma MarkBase(s: string)
    ensures 2 <= BaseMark(s).0 <= 16
  {
  }
}
