/**
 Z.format: reads the format, writes digits, mark, sign and padding into one buffer, and
 never outside it.
 */
module ZFormat {
  import opened Wrappers
  import opened Arith
  import opened BngDigit
  import opened Digits
  import opened ZRep
  import opened ZText

  const NoFlags := Spec(false, false, false, '\0', 0, '\0')

  // A flag and what it sets.
  predicate IsFlag(c: char) { c == '#' || c == '0' || c == '-' || c == ' ' || c == '+' }

  function SetFlag(spec: Spec, c: char): Spec {
    if c == '#' then spec.(alt := true)
    else if c == '0' then spec.(zero := true)
    else if c == '-' then spec.(left := true)
    else spec.(plus := c)
  }

  predicate IsDecimal(c: char) { '0' <= c <= '9' }

  function SkipPercents(f: string): string { if |f| > 0 && f[0] == '%' then SkipPercents(f[1..]) else f }

  function ReadFlags(spec: Spec, f: string): (Spec, string)
    decreases |f|
  {
    if |f| > 0 && IsFlag(f[0]) then ReadFlags(SetFlag(spec, f[0]), f[1..]) else (spec, f)
  }

  function ReadWidth(width: nat, f: string): (nat, string)
    decreases |f|
  {
    if |f| > 0 && IsDecimal(f[0]) then ReadWidth(10 * width + (f[0] as int - '0' as int), f[1..]) else (width, f)
  }

  /** What a format says; what follows the conversion is ignored. */
  function FormatOf(f: string): Option<Spec> {
    var (spec, g) := ReadFlags(NoFlags, SkipPercents(f));
    var (width, h) := ReadWidth(0, g);
    if |h| > 0 && Conversion(h[0]) then Some(spec.(width := width, conv := h[0])) else None
  }

  method ParseFormat(f: string) returns (res: Option<Spec>)
    ensures res == FormatOf(f)
  {
    var i: nat := 0;
    while At(f, i) == '%'
      invariant i <= |f| && SkipPercents(f[i..]) == SkipPercents(f)
      decreases |f| - i
    {
      assert f[i..][1..] == f[i + 1..];
      i := i + 1;
    }
    assert SkipPercents(f) == f[i..];
    var spec := NoFlags;
    while IsFlag(At(f, i))
      invariant i <= |f| && ReadFlags(spec, f[i..]) == ReadFlags(NoFlags, SkipPercents(f))
      decreases |f| - i
    {
      assert f[i..][1..] == f[i + 1..];
      spec := SetFlag(spec, f[i]);
      i := i + 1;
    }
    ghost var g := f[i..];
    var width: nat := 0;
    while IsDecimal(At(f, i))
      invariant i <= |f| && ReadWidth(width, f[i..]) == ReadWidth(0, g)
      decreases |f| - i
    {
      assert f[i..][1..] == f[i + 1..];
      width := 10 * width + (f[i] as int - '0' as int);
      i := i + 1;
    }
    if Conversion(At(f, i)) {
      res := Some(spec.(width := width, conv := At(f, i)));
    } else {
      res := None;
    }
  }

  /** mpn_get_str: digits of a number that is not zero, maybe after a zero. */
  method MpnGetStr(buf: array<char>, dst: nat, base: nat, limbs: seq<nat>, extra: nat, w: WordBits) returns (size: nat)
    requires 2 <= base <= 16 && Normal(limbs, w) && |limbs| > 0 && extra <= 1
    requires dst + w * |limbs| + 1 <= buf.Length
    modifies buf
    ensures size == extra + |DigitsOf(Val(limbs, Base(w)), base)| && dst + size <= buf.Length
    ensures forall k :: dst <= k < dst + extra ==> buf[k] as int == 0
    ensures forall k :: dst + extra <= k < dst + size ==>
              buf[k] as int == DigitsOf(Val(limbs, Base(w)), base)[k - (dst + extra)]
  {
    hide Val, DigitsOf, Pow, Base;
    LimbDigits(limbs, base, w);
    var digits := DigitsOf(Val(limbs, Base(w)), base);
    size := extra + |digits|;
    forall i | 0 <= i < size {
      buf[dst + i] := (if i < extra then 0 else digits[i - extra]) as char;
    }
  }

  lemma LimbDigits(limbs: seq<nat>, base: nat, w: WordBits)
    requires 2 <= base <= 16 && Normal(limbs, w) && |limbs| > 0
    ensures |DigitsOf(Val(limbs, Base(w)), base)| <= w * |limbs|
    ensures Val(limbs, Base(w)) > 0 && DigitsOf(Val(limbs, Base(w)), base)[0] != 0
  {
    hide Val, DigitsOf, Pow;
    NormalSize(limbs, w);
    PowMul(2, w, |limbs|);
    MulMono(1, |limbs|, w);
    DigitCount(Val(limbs, Base(w)), base, w * |limbs|);
    NumberOfDigits(Val(limbs, Base(w)), base);
  }

  /** The digit characters, from the first that is not zero. */
  method WriteDigits(buf: array<char>, start: nat, spec: Spec, a: Arg, extra: nat, w: WordBits)
    returns (dst: nat, size: nat)
    requires ValidArg(a, w) && extra <= 1 && start + w * |a.limbs| + 2 <= buf.Length
    modifies buf
    ensures start <= dst <= start + extra && dst + size <= buf.Length
    ensures dst + size <= start + w * |a.limbs| + 1
    ensures buf[dst..dst + size] == DigitText(spec, ArgValue(a, w))
  {
    hide Val, DigitsOf, Pow, Base;
    var base := BaseOf(spec.conv);
    dst := start;
    ArgSign(a, w);
    ghost var digits := DigitsOf(Magnitude(a, w), base);
    SameMagnitude(a, w);
    if |a.limbs| == 0 {
      size := 1;
      buf[dst] := '0';
      ZeroDigits(base);
      assert buf[dst..dst + 1] == [buf[dst]];
      return;
    }
    LimbDigits(a.limbs, base, w);
    size := MpnGetStr(buf, dst, base, a.limbs, extra, w);
    while size > 0 && buf[dst] as int == 0
      invariant start <= dst <= start + extra && dst + size == start + extra + |digits|
      decreases size
    {
      dst := dst + 1;
      size := size - 1;
    }
    assert dst == start + extra;
    MapDigits(buf, dst, digits, size, spec.conv == 'x');
  }

  // Each digit becomes its character.
  method MapDigits(buf: array<char>, dst: nat, ghost digits: seq<nat>, size: nat, lower: bool)
    requires size == |digits| && dst + size <= buf.Length && forall k :: 0 <= k < size ==> digits[k] < 16
    requires forall k :: dst <= k < dst + size ==> buf[k] as int == digits[k - dst]
    modifies buf
    ensures buf[dst..dst + size] == Chars(digits, lower)
  {
    hide DigitChar;
    var i: nat := 0;
    while i < size
      invariant i <= size
      invariant forall k :: dst <= k < dst + i ==> buf[k] == DigitChar(lower, digits[k - dst])
      invariant forall k :: dst + i <= k < dst + size ==> buf[k] as int == digits[k - dst]
    {
      buf[dst + i] := DigitChar(lower, buf[dst + i] as int);
      i := i + 1;
    }
  }

  lemma SameMagnitude(a: Arg, w: WordBits)
    ensures AbsInt(ArgValue(a, w)) == Magnitude(a, w)
  {
  }

  method PutBefore(buf: array<char>, dst: nat, size: nat, c: char)
    requires 0 < dst && dst + size <= buf.Length
    modifies buf
    ensures buf[dst - 1..dst + size] == [c] + old(buf[dst..dst + size])
  {
    buf[dst - 1] := c;
  }

  /** Writes a text before what is there, from its last character. */
  method Prepend(buf: array<char>, dst: nat, size: nat, s: string) returns (dst': nat, size': nat)
    requires |s| <= dst && dst + size <= buf.Length
    modifies buf
    ensures dst' == dst - |s| && size' == size + |s|
    ensures buf[dst'..dst' + size'] == s + old(buf[dst..dst + size])
  {
    ghost var text := buf[dst..dst + size];
    dst', size' := dst, size;
    var i: nat := |s|;
    ghost var shown := text;
    assert s[i..] + text == text;
    while i > 0
      invariant i <= |s| && dst' == dst - (|s| - i) && size' == size + (|s| - i)
      invariant buf[dst'..dst' + size'] == shown && shown == s[i..] + text
    {
      PutBefore(buf, dst', size', s[i - 1]);
      OneBefore(s, i, text);
      shown := [s[i - 1]] + shown;
      dst' := dst' - 1;
      size' := size' + 1;
      i := i - 1;
    }
    assert s[0..] == s;
  }

  lemma OneBefore(s: string, i: nat, t: string)
    requires 0 < i <= |s|
    ensures [s[i - 1]] + (s[i..] + t) == s[i - 1..] + t
  {
    FirstOf(s, i - 1, t);
  }

  lemma FirstOf(s: string, i: nat, t: string)
    requires i < |s|
    ensures [s[i]] + (s[i + 1..] + t) == s[i..] + t
  {
  }

  /** Pads before what is there, up to a width. */
  method PadBefore(buf: array<char>, dst: nat, size: nat, width: int, pad: char) returns (dst': nat, size': nat)
    requires width - size <= dst && dst + size <= buf.Length
    modifies buf
    ensures size' == (if size < width then width else size) && dst' + size' == dst + size
    ensures buf[dst'..dst' + size'] == Repeat(pad, width - size) + old(buf[dst..dst + size])
  {
    ghost var text := buf[dst..dst + size];
    dst', size' := dst, size;
    while size' < width
      invariant size <= size' && (size' <= width || size' == size) && dst' + size' == dst + size
      invariant buf[dst..dst + size] == text && forall k :: dst' <= k < dst ==> buf[k] == pad
      decreases width - size'
    {
      dst' := dst' - 1;
      buf[dst'] := pad;
      size' := size' + 1;
    }
    PaddingAndText(buf[..], dst', dst, dst + size, pad, width - size);
  }

  // Places that hold the padding, up to those that hold the text.
  lemma PaddingAndText(f: string, i: nat, j: nat, k: nat, pad: char, n: int)
    requires i <= j <= k <= |f| && (j - i == n || (i == j && n <= 0)) && forall m :: i <= m < j ==> f[m] == pad
    ensures f[i..k] == Repeat(pad, n) + f[j..k]
  {
    assert |Repeat(pad, n)| == j - i;
    assert f[i..j] == Repeat(pad, n);
    assert f[i..k] == f[i..j] + f[j..k];
  }

  /** Pads after what is there. */
  method PadAfter(buf: array<char>, dst: nat, size: nat, width: nat, pad: char) returns (size': nat)
    requires dst + size <= buf.Length && dst + width <= buf.Length
    modifies buf
    ensures size' == if size < width then width else size
    ensures buf[dst..dst + size'] == old(buf[dst..dst + size]) + Repeat(pad, width - size)
  {
    ghost var text := buf[dst..dst + size];
    size' := size;
    while size' < width
      invariant size <= size' && (size' <= width || size' == size)
      invariant buf[dst..dst + size] == text && forall k :: dst + size <= k < dst + size' ==> buf[k] == pad
    {
      buf[dst + size'] := pad;
      size' := size' + 1;
    }
    TextAndPadding(buf[..], dst, dst + size, dst + size', pad, width - size);
  }

  lemma TextAndPadding(f: string, i: nat, j: nat, k: nat, pad: char, n: int)
    requires i <= j <= k <= |f| && (k - j == n || (j == k && n <= 0)) && forall m :: j <= m < k ==> f[m] == pad
    ensures f[i..k] == f[i..j] + Repeat(pad, n)
  {
    assert |Repeat(pad, n)| == k - j;
    assert f[j..k] == Repeat(pad, n);
    assert f[i..k] == f[i..j] + f[j..k];
  }

  // The same text, put together in the order it is written.
  lemma Assembled(spec: Spec, n: int, sign: string, prefix: string, text: string, fill: int)
    requires sign == SignText(spec, n) && prefix == PrefixOf(spec) && text == DigitText(spec, n)
    requires fill == spec.width - (|sign| + |prefix| + |text|)
    ensures ZeroPadded(spec) ==> Rendered(spec, n) == sign + (prefix + (Repeat('0', fill) + text))
    ensures !ZeroPadded(spec) && spec.left ==> Rendered(spec, n) == (sign + (prefix + text)) + Repeat(' ', fill)
    ensures !ZeroPadded(spec) && !spec.left ==> Rendered(spec, n) == Repeat(' ', fill) + (sign + (prefix + text))
  {
    hide DigitText, PrefixOf, SignText, Repeat;
    if ZeroPadded(spec) {
      JoinThree(sign, prefix, Repeat('0', fill), text);
    } else if spec.left {
      JoinThree(sign, prefix, text, Repeat(' ', fill));
    } else {
      JoinThree(Repeat(' ', fill), sign, prefix, text);
    }
  }

  lemma JoinThree(a: string, b: string, c: string, d: string)
    ensures a + b + c + d == a + (b + (c + d)) == (a + (b + c)) + d
  {
  }

  // Room in the buffer: before the text for a sign, a mark and padding, and after it.
  predicate Roomy(length: nat, start: nat, digits: nat, width: nat) {
    && 3 + width <= start <= 4 + width && start + digits < length && 5 + 2 * width <= length
  }

  method PadSpaces(buf: array<char>, start: nat, width: nat, left: bool, sign: string, prefix: string, digits: nat,
                   ghost text: string, ghost rendered: string)
    returns (dst: nat, size: nat)
    requires Roomy(buf.Length, start, digits, width) && |sign| <= 1 && |prefix| <= 2
    requires digits == |text| && buf[start..start + digits] == text
    requires left ==> rendered == (sign + (prefix + text)) + Repeat(' ', width - (|sign| + |prefix| + |text|))
    requires !left ==> rendered == Repeat(' ', width - (|sign| + |prefix| + |text|)) + (sign + (prefix + text))
    modifies buf
    ensures dst + size < buf.Length && buf[dst..dst + size] == rendered
  {
    hide Repeat;
    dst, size := Prepend(buf, start, digits, prefix);
    dst, size := Prepend(buf, dst, size, sign);
    if left {
      size := PadAfter(buf, dst, size, width, ' ');
    } else {
      dst, size := PadBefore(buf, dst, size, width, ' ');
    }
  }

  method PadZeros(buf: array<char>, start: nat, width: nat, sign: string, prefix: string, digits: nat,
                   ghost text: string, ghost rendered: string)
    returns (dst: nat, size: nat)
    requires Roomy(buf.Length, start, digits, width) && |sign| <= 1 && |prefix| <= 2
    requires digits == |text| && buf[start..start + digits] == text
    requires rendered == sign + (prefix + (Repeat('0', width - (|sign| + |prefix| + |text|)) + text))
    modifies buf
    ensures dst + size < buf.Length && buf[dst..dst + size] == rendered
  {
    hide Repeat;
    dst, size := PadBefore(buf, start, digits, width - (|prefix| + |sign|), '0');
    dst, size := Prepend(buf, dst, size, prefix);
    dst, size := Prepend(buf, dst, size, sign);
  }

  // The sign character, if there is one.
  function SignOf(spec: Spec, negative: bool): string {
    if negative then "-" else if spec.plus != '\0' then [spec.plus] else ""
  }

  lemma SignIs(spec: Spec, negative: bool, n: int)
    requires negative == (n < 0)
    ensures SignOf(spec, negative) == SignText(spec, n) && |SignText(spec, n)| <= 1 && |PrefixOf(spec)| <= 2
  {
  }

  /** Mark, sign and padding around the digits, inside the buffer. */
  method Decorate(buf: array<char>, start: nat, digits: nat, spec: Spec, negative: bool, ghost n: int)
      returns (dst: nat, size: nat)
    requires Roomy(buf.Length, start, digits, spec.width) && negative == (n < 0)
    requires buf[start..start + digits] == DigitText(spec, n)
    modifies buf
    ensures dst + size < buf.Length
    ensures buf[dst..dst + size] == Rendered(spec, n)
  {
    var prefix := PrefixOf(spec);
    var sign := SignOf(spec, negative);
    ghost var text, rendered := DigitText(spec, n), Rendered(spec, n);
    SignIs(spec, negative, n);
    assert |text| == digits;
    hide DigitText, PrefixOf, SignText, SignOf, Repeat, Rendered, Roomy;
    Assembled(spec, n, sign, prefix, text, spec.width - (|sign| + |prefix| + |text|));
    if ZeroPadded(spec) {
      dst, size := PadZeros(buf, start, spec.width, sign, prefix, digits, text, rendered);
    } else {
      dst, size := PadSpaces(buf, start, spec.width, spec.left, sign, prefix, digits, text, rendered);
    }
  }

  /**
   The text of a number in a format. Every write is inside the max_size characters of
   the buffer, and neither of the two checks for an internal error can fail.
   */
  method Format(f: string, z: Z, extra: nat, w: WordBits) returns (res: Option<string>)
    requires Valid(z, w) && extra <= 1
    ensures res == match FormatOf(f)
                   case None => None
                   case Some(spec) => Some(Rendered(spec, Value(z, w)))
  {
    hide Val, DigitsOf, Pow, Base, Rendered, DigitText, FormatOf, Unpack;
    var parsed := ParseFormat(f);
    if parsed.None? {
      return None;
    }
    var spec := parsed.value;
    var a := Unpack(z, w);
    var maxSize := 1 + 2 + w * |a.limbs| + 1 + 2 * spec.width + 1;
    var buf := new char[maxSize];
    var dst, size := WriteDigits(buf, 1 + 2 + spec.width, spec, a, extra, w);
    assert dst + size < maxSize;
    ArgSign(a, w);
    dst, size := Decorate(buf, dst, size, spec, a.negative, Value(z, w));
    assert dst + size < maxSize;
    res := Some(buf[dst..dst + size]);
  }

  lemma {:induction false} FlagsRead(spec: Spec, f: string)
    requires spec.plus in {'\0', '+', ' '}
    ensures ReadFlags(spec, f).0.plus in {'\0', '+', ' '}
    decreases |f|
  {
    if |f| > 0 && IsFlag(f[0]) {
      FlagsRead(SetFlag(spec, f[0]), f[1..]);
    }
  }

  /**
   Printing and reading back, for every format and every number. Without a base, and if
   the format says its base, the text reads as the number exactly when it shows no space;
   with the base given, exactly when it shows no space and no mark.
   */
  lemma PrintThenParse(f: string, n: int)
    requires FormatOf(f).Some?
    ensures var spec := FormatOf(f).value;
            (SaysBase(spec) ==> (ParseText(0, Rendered(spec, n)) == Number(n) <==> !ShowsSpaces(spec, n))) &&
            (ParseText(BaseOf(spec.conv), Rendered(spec, n)) == Number(n) <==>
             !ShowsSpaces(spec, n) && PrefixOf(spec) == "")
  {
    hide ParseText, Rendered, ShowsSpaces, ReadFlags, ReadWidth;
    FlagsRead(NoFlags, SkipPercents(f));
    ExplicitRoundTrip(FormatOf(f).value, n);
    if SaysBase(FormatOf(f).value) {
      RoundTrip(FormatOf(f).value, n);
    }
  }

  /** "%5d" writes 1 after four spaces, which is no number. */
  lemma SpacesDoNotReadBack()
    ensures FormatOf("%5d") == Some(Spec(false, false, false, '\0', 5, 'd'))
    ensures Rendered(FormatOf("%5d").value, 1) == "    1" && ParseText(0, "    1") == Invalid
  {
    assert "%5d"[1..] == "5d" && "5d"[1..] == "d";
    assert SkipPercents("5d") == "5d" && ReadWidth(0, "5d") == (5, "d");
    var spec := FormatOf("%5d").value;
    assert DigitText(spec, 1) == "1";
    assert Repeat(' ', 4) == "    ";
    SpaceIsInvalid(0, "    1");
  }

  /** "%03x" writes 177 as 0b1, which without a base is read as binary. */
  lemma HexReadsAsBinary()
    ensures FormatOf("%03x") == Some(Spec(false, true, false, '\0', 3, 'x'))
    ensures Rendered(FormatOf("%03x").value, 177) == "0b1"
    ensures ParseText(0, "0b1") == Number(1) && ParseText(16, "0b1") == Number(177)
  {
    assert "%03x"[1..] == "03x" && "03x"[1..] == "3x" && "3x"[1..] == "x";
    assert SkipPercents("03x") == "03x" && ReadFlags(NoFlags, "03x") == (NoFlags.(zero := true), "3x");
    assert ReadWidth(0, "3x") == (3, "x");
    hide *;
    HexText();
    MarkedText();
    HexDigits();
  }

  lemma HexText()
    ensures Rendered(Spec(false, true, false, '\0', 3, 'x'), 177) == "0b1"
  {
    var spec := Spec(false, true, false, '\0', 3, 'x');
    assert DigitsOf(177, 16) == [11, 1];
    assert DigitText(spec, 177) == "b1";
    assert Repeat('0', 1) == "0";
  }

  lemma MarkedText()
    ensures ParseText(0, "0b1") == Number(1)
  {
    assert "0b1"[1..] == "b1" && "b1"[1..] == "1";
    assert DigitValues("1") == [1] && NumberOf([1], 2) == 1;
  }

  lemma HexDigits()
    ensures ParseText(16, "0b1") == Number(177)
  {
    assert "0b1"[1..] == "b1";
    assert DigitValues("b1") == [11, 1] && [11, 1][..1] == [11];
    assert NumberOf([11, 1], 16) == 177;
  }

  /** A sign flag + and zero padding, whatever the width, never show a space. */
  lemma ZeroPaddingShowsNone(spec: Spec, n: int)
    requires ZeroPadded(spec) && spec.plus != ' '
    ensures !ShowsSpaces(spec, n)
  {
  }

  function FlagText(spec: Spec): string {
    (if spec.alt then "#" else "") + (if spec.zero then "0" else "") + (if spec.left then "-" else "") +
    (if spec.plus == '\0' then "" else [spec.plus])
  }

  function WidthText(width: nat): string { if width == 0 then "" else Chars(DigitsOf(width, 10), false) }

  lemma OneFlag(spec: Spec, c: char, rest: string)
    requires IsFlag(c)
    ensures ReadFlags(spec, [c] + rest) == ReadFlags(SetFlag(spec, c), rest)
  {
    assert ([c] + rest)[1..] == rest;
  }

  lemma FlagTextReads(spec: Spec, rest: string)
    requires spec.plus in {'\0', '+', ' '} && (|rest| > 0 ==> !IsFlag(rest[0]))
    ensures ReadFlags(NoFlags, FlagText(spec) + rest) == (spec.(width := 0, conv := '\0'), rest)
  {
    var p := if spec.plus == '\0' then "" else [spec.plus];
    var l := if spec.left then "-" else "";
    var z := if spec.zero then "0" else "";
    var a := if spec.alt then "#" else "";
    var s0 := NoFlags;
    var s1 := s0.(alt := spec.alt);
    var s2 := s1.(zero := spec.zero);
    var s3 := s2.(left := spec.left);
    hide ReadFlags;
    JoinFour(a, z, l, p, rest);
    NoFlag(s3.(plus := spec.plus), rest);
    OptionalFlag(s0, s1, a, z + (l + (p + rest)));
    OptionalFlag(s1, s2, z, l + (p + rest));
    OptionalFlag(s2, s3, l, p + rest);
    OptionalFlag(s3, s3.(plus := spec.plus), p, rest);
  }

  lemma JoinFour(a: string, b: string, c: string, d: string, e: string)
    ensures a + b + c + d + e == a + (b + (c + (d + e)))
  {
  }

  lemma NoFlag(spec: Spec, rest: string)
    requires |rest| > 0 ==> !IsFlag(rest[0])
    ensures ReadFlags(spec, rest) == (spec, rest)
  {
  }

  lemma OptionalFlag(s: Spec, t: Spec, c: string, rest: string)
    requires |c| <= 1 && if |c| == 0 then s == t else IsFlag(c[0]) && t == SetFlag(s, c[0])
    ensures ReadFlags(s, c + rest) == ReadFlags(t, rest)
  {
    if |c| == 1 {
      OneFlag(s, c[0], rest);
      assert c == [c[0]];
    } else {
      assert c + rest == rest;
    }
  }

  lemma {:induction false} WidthReads(d: seq<nat>, i: nat, rest: string)
    requires i <= |d| && (forall k :: 0 <= k < |d| ==> d[k] < 10) && (|rest| > 0 ==> !IsDecimal(rest[0]))
    ensures ReadWidth(NumberOf(d[..i], 10), Chars(d, false)[i..] + rest) == (NumberOf(d, 10), rest)
    decreases |d| - i
  {
    hide NumberOf, DigitChar, ReadWidth;
    var s := Chars(d, false);
    if i == |d| {
      assert d[..i] == d && s[i..] + rest == rest;
      WidthEnds(NumberOf(d, 10), rest);
    } else {
      WidthReads(d, i + 1, rest);
      assert d[..i + 1] == d[..i] + [d[i]];
      NumberSnoc(d[..i], d[i], 10);
      FirstOf(s, i, rest);
      DecimalChar(d[i]);
      OneDecimal(NumberOf(d[..i], 10), s[i], s[i + 1..] + rest);
    }
  }

  lemma WidthEnds(width: nat, rest: string)
    requires |rest| > 0 ==> !IsDecimal(rest[0])
    ensures ReadWidth(width, rest) == (width, rest)
  {
  }

  lemma OneDecimal(width: nat, c: char, rest: string)
    requires IsDecimal(c)
    ensures ReadWidth(width, [c] + rest) == ReadWidth(10 * width + (c as int - '0' as int), rest)
  {
    assert ([c] + rest)[1..] == rest;
  }

  lemma DecimalChar(d: nat)
    requires d < 10
    ensures IsDecimal(DigitChar(false, d)) && DigitChar(false, d) as int - '0' as int == d
    ensures d != 0 ==> !IsFlag(DigitChar(false, d))
  {
  }

  lemma WidthTextReads(width: nat, rest: string)
    requires |rest| > 0 && !IsDecimal(rest[0]) && !IsFlag(rest[0]) && rest[0] != '%'
    ensures ReadWidth(0, WidthText(width) + rest) == (width, rest)
    ensures !IsFlag((WidthText(width) + rest)[0]) && (WidthText(width) + rest)[0] != '%'
  {
    hide DigitsOf, NumberOf;
    if width == 0 {
      assert WidthText(width) + rest == rest;
    } else {
      var d := DigitsOf(width, 10);
      NumberOfDigits(width, 10);
      NumberOfNothing(10);
      WidthReads(d, 0, rest);
      assert d[..0] == [] && Chars(d, false)[0..] == Chars(d, false);
      DecimalChar(d[0]);
    }
  }

  /** Every combination of flags, width and conversion can be asked for. */
  lemma EverySpecHasText(spec: Spec)
    requires Conversion(spec.conv) && spec.plus in {'\0', '+', ' '}
    ensures FormatOf("%" + (FlagText(spec) + (WidthText(spec.width) + [spec.conv]))) == Some(spec)
  {
    hide FlagText, WidthText, ReadFlags, ReadWidth;
    var t := FlagText(spec) + (WidthText(spec.width) + [spec.conv]);
    assert ("%" + t)[1..] == t;
    WidthTextReads(spec.width, [spec.conv]);
    FlagTextReads(spec, WidthText(spec.width) + [spec.conv]);
    NoPercent(spec, WidthText(spec.width) + [spec.conv]);
  }

  lemma NoPercent(spec: Spec, rest: string)
    requires |rest| > 0 && rest[0] != '%' && spec.plus in {'\0', '+', ' '}
    ensures SkipPercents(FlagText(spec) + rest) == FlagText(spec) + rest
  {
  }

  /** The sign flag that counts is the last. */
  function LastSign(flags: string, d: char): (c: char)
    ensures (forall i :: 0 <= i < |flags| ==> flags[i] !in "+ ") ==> c == d
    ensures forall i :: 0 <= i < |flags| && flags[i] in "+ " && (forall j :: i < j < |flags| ==> flags[j] !in "+ ") ==>
                          c == flags[i]
  {
    if |flags| == 0 then d else
      var n := |flags| - 1;
      if flags[n] in "+ " then flags[n] else LastSign(flags[..n], d)
  }

  function FlagsOf(flags: string): Spec {
    Spec('#' in flags, '0' in flags, '-' in flags, LastSign(flags, '\0'), 0, '\0')
  }

  lemma FlagSet(flags: string, c: char)
    requires c in "#0-+ "
    ensures IsFlag(c) && SetFlag(FlagsOf(flags), c) == FlagsOf(flags + [c])
  {
    assert (flags + [c])[..|flags|] == flags;
  }

  // Flags are each set by their character, wherever it is.
  lemma {:induction false} FlagsMean(flags: string, rest: string)
    requires forall i :: 0 <= i < |flags| ==> flags[i] in "#0-+ "
    ensures ReadFlags(NoFlags, flags + rest) == ReadFlags(FlagsOf(flags), rest)
  {
    hide ReadFlags, FlagsOf, SetFlag;
    if |flags| == 0 {
      assert flags == "" && flags + rest == rest;
      NoneSet();
    } else {
      var t, c := flags[..|flags| - 1], flags[|flags| - 1];
      FlagsMean(t, [c] + rest);
      assert flags == t + [c] && flags + rest == t + ([c] + rest);
      FlagSet(t, c);
      OneFlag(FlagsOf(t), c, rest);
    }
  }

  lemma NoneSet()
    ensures FlagsOf("") == NoFlags
  {
  }

  lemma {:induction false} PercentsSkipped(k: nat, rest: string)
    requires |rest| > 0 ==> rest[0] != '%'
    ensures SkipPercents(Repeat('%', k) + rest) == rest
  {
    var f := Repeat('%', k) + rest;
    if k == 0 {
      assert f == rest;
    } else {
      PercentsSkipped(k - 1, rest);
      assert f[0] == '%' && f[1..] == Repeat('%', k - 1) + rest;
    }
  }

  // Where the flags, the width and the conversion of a format end.
  predicate Parts(flags: string, width: seq<nat>, rest: string) {
    && (forall i :: 0 <= i < |flags| ==> flags[i] in "#0-+ ")
    && (forall i :: 0 <= i < |width| ==> width[i] < 10)
    && (|width| > 0 ==> width[0] != 0)
    && (|rest| > 0 ==> rest[0] !in "0123456789" && (|width| == 0 ==> rest[0] !in "#0-+ ") &&
                       (|flags| == 0 && |width| == 0 ==> rest[0] != '%'))
  }

  /**
   What any format says: signs of percent, flags in any order, a width in decimal, and a
   conversion character; what follows does not matter.
   */
  lemma FormatReads(percents: nat, flags: string, width: seq<nat>, rest: string)
    requires Parts(flags, width, rest)
    ensures FormatOf(Repeat('%', percents) + (flags + (Chars(width, false) + rest))) ==
            if |rest| > 0 && rest[0] in "iduboxX" then
              Some(Spec('#' in flags, '0' in flags, '-' in flags, LastSign(flags, '\0'), NumberOf(width, 10), rest[0]))
            else None
  {
    hide ReadFlags, ReadWidth, NumberOf, SkipPercents;
    var g := Chars(width, false) + rest;
    var f := flags + g;
    FirstOfWidth(flags, width, rest);
    PercentsSkipped(percents, f);
    FlagsMean(flags, g);
    NoFlag(FlagsOf(flags), g);
    NumberOfNothing(10);
    WidthReads(width, 0, rest);
    assert width[..0] == [] && Chars(width, false)[0..] == Chars(width, false);
  }

  lemma FirstOfWidth(flags: string, width: seq<nat>, rest: string)
    requires Parts(flags, width, rest)
    ensures var g := Chars(width, false) + rest;
            |g| > 0 ==> !IsFlag(g[0]) && (|flags| == 0 ==> g[0] != '%')
    ensures |rest| > 0 ==> !IsDecimal(rest[0])
  {
    if |width| > 0 {
      DecimalChar(width[0]);
    }
  }
}
