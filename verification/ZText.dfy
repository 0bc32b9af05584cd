/**
 Numbers as text: what Z.format writes and what Z.of_substring_base reads, as
 functions on strings, and the round trip between them.
 */
module ZText {
  import opened Arith
  import ZRep

  datatype Parsed = Number(n: int) | Invalid

  // The character at an index of a null terminated string.
  function At(s: string, i: nat): char { if i < |s| then s[i] else '\0' }

  // The digits of m, most significant first.
  function DigitsOf(m: nat, base: nat): (s: seq<nat>)
    requires base >= 2
    ensures |s| > 0 && forall i :: 0 <= i < |s| ==> s[i] < base
    decreases m
  {
    if m < base then [m] else (Shrinks(m, base); DigitsOf(m / base, base) + [m % base])
  }

  lemma Shrinks(m: nat, base: nat)
    requires base >= 2 && m >= base
    ensures 0 < m / base < m
  {
    DivMod(m, base);
    if m / base <= 0 {
      MulMono(m / base, 0, base);
    }
    MulMono(2, base, m / base);
  }

  // The number digits stand for.
  function NumberOf(s: seq<nat>, base: nat): nat {
    if |s| == 0 then 0 else NumberOf(s[..|s| - 1], base) * base + s[|s| - 1]
  }

  lemma NumberSnoc(s: seq<nat>, d: nat, base: nat)
    ensures NumberOf(s + [d], base) == NumberOf(s, base) * base + d
  {
    assert (s + [d])[..|s|] == s;
  }

  lemma {:induction false} NumberOfDigits(m: nat, base: nat)
    requires base >= 2
    ensures NumberOf(DigitsOf(m, base), base) == m
    ensures m > 0 ==> DigitsOf(m, base)[0] != 0
    decreases m
  {
    if m < base {
      assert [m][..0] == [];
    } else {
      Shrinks(m, base);
      NumberOfDigits(m / base, base);
      NumberSnoc(DigitsOf(m / base, base), m % base, base);
      DivMod(m, base);
    }
  }

  /** Numbers below 2^k have at most k digits in any base. */
  lemma {:induction false} DigitCount(m: nat, base: nat, k: nat)
    requires base >= 2 && m < Pow(2, k) && k > 0
    ensures |DigitsOf(m, base)| <= k
    decreases k
  {
    if m >= base {
      Shrinks(m, base);
      DivMod(m, base);
      assert Pow(2, k) == 2 * Pow(2, k - 1);
      HalfBound(m, m / base, base, Pow(2, k - 1));
      DigitCount(m / base, base, k - 1);
    }
  }

  lemma HalfBound(m: nat, q: nat, base: nat, p: nat)
    requires base >= 2 && m < 2 * p && m >= q * base
    ensures q < p
  {
    MulMono(2, base, q);
  }

  /** Digits in a base number below its power. */
  lemma {:induction false} NumberBound(s: seq<nat>, base: nat)
    requires base >= 1 && forall i :: 0 <= i < |s| ==> s[i] < base
    ensures NumberOf(s, base) < Pow(base, |s|)
  {
    if |s| > 0 {
      NumberBound(s[..|s| - 1], base);
      DigitBound(NumberOf(s[..|s| - 1], base), s[|s| - 1], base, Pow(base, |s| - 1));
    }
  }

  lemma DigitBound(n: nat, d: nat, base: nat, p: nat)
    requires n < p && d < base
    ensures n * base + d < base * p
  {
    MulMono(n + 1, p, base);
  }

  // The table of digit characters, upper or lower case.
  function DigitChar(lower: bool, d: nat): char
    requires d < 16
  {
    if lower then "0123456789abcdef"[d] else "0123456789ABCDEF"[d]
  }

  /** The value of a digit character; sixteen for any other. */
  function DigitValue(c: char): nat {
    if '0' <= c <= '9' then c as int - '0' as int
    else if 'a' <= c <= 'f' then c as int - 'a' as int + 10
    else if 'A' <= c <= 'F' then c as int - 'A' as int + 10
    else 16
  }

  lemma DigitCharValue(lower: bool, d: nat)
    requires d < 16
    ensures DigitValue(DigitChar(lower, d)) == d
    ensures DigitChar(lower, d) == '0' <==> d == 0
    ensures DigitChar(lower, d) !in "-+ oOxX"
    ensures d < 10 ==> DigitChar(lower, d) !in "bB"
  {
  }

  function Chars(s: seq<nat>, lower: bool): (t: string)
    requires forall i :: 0 <= i < |s| ==> s[i] < 16
    ensures |t| == |s|
  {
    seq(|s|, i requires 0 <= i < |s| => DigitChar(lower, s[i]))
  }

  function Repeat(c: char, n: int): (s: string)
    ensures |s| == if n <= 0 then 0 else n
    ensures forall i :: 0 <= i < |s| ==> s[i] == c
  {
    seq(if n <= 0 then 0 else n, i => c)
  }

  /** A format: #, the padding, -, the sign flag, the width and the conversion. */
  datatype Spec = Spec(alt: bool, zero: bool, left: bool, plus: char, width: nat, conv: char)

  predicate Conversion(c: char) { c in "idubo" || c in "xX" }

  function BaseOf(conv: char): (b: nat)
    ensures 2 <= b <= 16
  {
    if conv == 'b' then 2 else if conv == 'o' then 8 else if conv in "xX" then 16 else 10
  }

  function PrefixOf(spec: Spec): (s: string)
    ensures |s| == 0 || |s| == 2
  {
    if !spec.alt then ""
    else if spec.conv == 'b' then "0b"
    else if spec.conv == 'o' then "0o"
    else if spec.conv == 'x' then "0x"
    else if spec.conv == 'X' then "0X"
    else ""
  }

  // The sign to print: that of a negative number, or the one the flag asks for.
  function SignText(spec: Spec, n: int): string {
    if n < 0 then "-" else if spec.plus == '\0' then "" else [spec.plus]
  }

  function DigitText(spec: Spec, n: int): (s: string) {
    var base := BaseOf(spec.conv);
    Chars(DigitsOf(AbsInt(n), base), spec.conv == 'x')
  }

  // Zeros go between the prefix and the digits, and not on the left side.
  predicate ZeroPadded(spec: Spec) { spec.zero && !spec.left }

  /** What a format makes of a number. */
  function Rendered(spec: Spec, n: int): string {
    var sign, prefix, digits := SignText(spec, n), PrefixOf(spec), DigitText(spec, n);
    var fill := spec.width - (|sign| + |prefix| + |digits|);
    if ZeroPadded(spec) then sign + prefix + Repeat('0', fill) + digits
    else if spec.left then sign + prefix + digits + Repeat(' ', fill)
    else Repeat(' ', fill) + sign + prefix + digits
  }

  // Text without its leading zeros.
  function SkipZeros(s: string): (t: string)
    ensures |t| > 0 ==> t[0] != '0'
  {
    if |s| > 0 && s[0] == '0' then SkipZeros(s[1..]) else s
  }

  function DropChar(s: string, c: char): string { if |s| > 0 && s[0] == c then s[1..] else s }

  function StartsWith(s: string, c: char, d: char): bool { |s| > 0 && (s[0] == c || s[0] == d) }

  /** The base, and the text after its mark: 0o, 0x and 0b, or ten. */
  function BaseMark(s: string): (nat, string) {
    if |s| > 0 && s[0] == '0' then
      var t := s[1..];
      if StartsWith(t, 'o', 'O') then (8, t[1..])
      else if StartsWith(t, 'x', 'X') then (16, t[1..])
      else if StartsWith(t, 'b', 'B') then (2, t[1..])
      else (10, t)
    else (10, s)
  }

  predicate AllDigits(s: string, base: nat) {
    forall i :: 0 <= i < |s| ==> DigitValue(s[i]) < base
  }

  function DigitValues(s: string): (t: seq<nat>)
    ensures |t| == |s|
  {
    seq(|s|, i requires 0 <= i < |s| => DigitValue(s[i]))
  }

  /** The digits after the mark; no digits at all are zero. */
  function ParseDigits(s: string, base: nat, negative: bool): Parsed {
    if AllDigits(s, base) then
      var m := NumberOf(DigitValues(s), base);
      Number(ZRep.Signed(negative, m))
    else Invalid
  }

  /** What a text means: signs, a mark when the base is zero, zeros and digits. */
  function ParseText(base: int, s: string): Parsed {
    var negative := |s| > 0 && s[0] == '-';
    var t := DropChar(DropChar(s, '-'), '+');
    var (b, u) := if base == 0 then BaseMark(t) else (base, t);
    if b < 2 || b > 16 then Invalid else ParseDigits(SkipZeros(u), b, negative)
  }

  lemma {:induction false} SkipRepeated(n: int, s: string)
    ensures SkipZeros(Repeat('0', n) + s) == SkipZeros(s)
    decreases n
  {
    var z := Repeat('0', n);
    if n <= 0 {
      assert z + s == s;
    } else {
      assert (z + s)[1..] == Repeat('0', n - 1) + s;
      SkipRepeated(n - 1, s);
    }
  }

  // Digits are read back as the number, whether there are zeros before them or not.
  lemma DigitsReadBack(lower: bool, m: nat, base: nat, n: int, negative: bool)
    requires 2 <= base <= 16
    ensures forall i :: 0 <= i < |DigitsOf(m, base)| ==> DigitsOf(m, base)[i] < 16
    ensures ParseDigits(SkipZeros(Repeat('0', n) + Chars(DigitsOf(m, base), lower)), base, negative)
            == Number(ZRep.Signed(negative, m))
  {
    hide DigitsOf, NumberOf, DigitChar, DigitValue;
    var d := DigitsOf(m, base);
    var s := Chars(d, lower);
    SkipRepeated(n, s);
    CharsReadBack(d, lower, base);
    NumberOfDigits(m, base);
    if m > 0 {
      assert SkipZeros(s) == s;
    } else {
      ZeroDigits(base);
      assert s == [s[0]];
      assert SkipZeros(s[1..]) == "";
      NumberOfNothing(base);
      assert DigitValues("") == [];
    }
  }

  lemma ZeroDigits(base: nat)
    requires base >= 2
    ensures DigitsOf(0, base) == [0]
  {
  }

  lemma NumberOfNothing(base: nat)
    ensures NumberOf([], base) == 0
  {
  }

  lemma CharsReadBack(d: seq<nat>, lower: bool, base: nat)
    requires base <= 16 && forall i :: 0 <= i < |d| ==> d[i] < base
    ensures AllDigits(Chars(d, lower), base) && DigitValues(Chars(d, lower)) == d
    ensures forall i :: 0 <= i < |d| ==> (Chars(d, lower)[i] == '0' <==> d[i] == 0)
  {
    hide DigitChar, DigitValue;
    forall i | 0 <= i < |d|
      ensures DigitValue(DigitChar(lower, d[i])) == d[i] && (DigitChar(lower, d[i]) == '0' <==> d[i] == 0)
    {
      DigitCharValue(lower, d[i]);
    }
  }

  /** Formats whose conversion says the base: %d and its like, or one with a mark. */
  predicate SaysBase(spec: Spec) {
    Conversion(spec.conv) && (BaseOf(spec.conv) == 10 || spec.alt)
  }

  // Whether padding with spaces, or a space for a sign, shows in the text.
  predicate ShowsSpaces(spec: Spec, n: int) {
    || (n >= 0 && spec.plus == ' ')
    || (!ZeroPadded(spec) && spec.width > |SignText(spec, n)| + |PrefixOf(spec)| + |DigitText(spec, n)|)
  }

  lemma DropKeepsSpace(s: string, c: char)
    requires ' ' in s && c != ' '
    ensures ' ' in DropChar(s, c)
  {
    if |s| > 0 && s[0] == c {
      assert s == [c] + s[1..];
    }
  }

  lemma {:induction false} SkipKeepsSpace(s: string)
    requires ' ' in s
    ensures ' ' in SkipZeros(s)
  {
    if |s| > 0 && s[0] == '0' {
      DropKeepsSpace(s, '0');
      SkipKeepsSpace(s[1..]);
      assert SkipZeros(s) == SkipZeros(s[1..]);
    }
  }

  lemma MarkKeepsSpace(s: string)
    requires ' ' in s
    ensures ' ' in BaseMark(s).1 && 2 <= BaseMark(s).0 <= 16
  {
    DropKeepsSpace(s, '0');
    if |s| > 0 && s[0] == '0' {
      var t := s[1..];
      if |t| > 0 && t[0] != ' ' {
        DropKeepsSpace(t, t[0]);
      }
    }
  }

  /** A space anywhere makes the text invalid, whatever base is asked for. */
  lemma SpaceIsInvalid(base: int, s: string)
    requires ' ' in s
    ensures ParseText(base, s) == Invalid
  {
    hide SkipZeros, BaseMark, DropChar;
    DropKeepsSpace(s, '-');
    DropKeepsSpace(DropChar(s, '-'), '+');
    var t := DropChar(DropChar(s, '-'), '+');
    MarkKeepsSpace(t);
    var (b, u) := if base == 0 then BaseMark(t) else (base, t);
    if 2 <= b <= 16 {
      SkipKeepsSpace(u);
      var v := SkipZeros(u);
      var i :| 0 <= i < |v| && v[i] == ' ';
      assert DigitValue(v[i]) == 16;
      assert !AllDigits(v, b);
    }
  }

  lemma DropSign(sign: string, rest: string)
    requires sign in {"", "-", "+"} && |rest| > 0 && rest[0] != '-' && rest[0] != '+'
    ensures DropChar(DropChar(sign + rest, '-'), '+') == rest && (sign == "-" <==> (sign + rest)[0] == '-')
  {
    var s := sign + rest;
    if sign == "" {
      assert s == rest;
    } else {
      assert s[1..] == rest;
    }
  }

  // The sign is taken off.
  lemma ParseSigned(base: nat, sign: string, rest: string)
    requires sign in {"", "-", "+"} && |rest| > 0 && rest[0] != '-' && rest[0] != '+'
    ensures base == 0 && 2 <= BaseMark(rest).0 <= 16 ==>
              ParseText(0, sign + rest) == ParseDigits(SkipZeros(BaseMark(rest).1), BaseMark(rest).0, sign == "-")
    ensures 2 <= base <= 16 ==> ParseText(base, sign + rest) == ParseDigits(SkipZeros(rest), base, sign == "-")
  {
    hide BaseMark, SkipZeros, ParseDigits, DropChar;
    DropSign(sign, rest);
  }

  lemma ReadMark(prefix: string, body: string)
    requires |prefix| == 2 && prefix[0] == '0'
    ensures prefix[1] == 'o' ==> BaseMark(prefix + body) == (8, body)
    ensures prefix[1] in {'x', 'X'} ==> BaseMark(prefix + body) == (16, body)
    ensures prefix[1] == 'b' ==> BaseMark(prefix + body) == (2, body)
  {
    var s := prefix + body;
    assert s[1..] == [prefix[1]] + body;
    assert s[1..][1..] == body;
  }

  lemma DecimalMark(body: string)
    requires |body| > 0 && AllDigits(body, 10)
    ensures BaseMark(body).0 == 10 && SkipZeros(BaseMark(body).1) == SkipZeros(body)
  {
    hide SkipZeros, DigitValue;
    SkipFirst(body);
    if |body| > 1 {
      assert body[1..][0] == body[1];
      DecimalDigit(body[1]);
    }
  }

  lemma DecimalDigit(c: char)
    requires DigitValue(c) < 10
    ensures c != 'o' && c != 'O' && c != 'x' && c != 'X' && c != 'b' && c != 'B'
  {
  }

  // The mark is taken off, or is the first zero of a decimal number.
  lemma ParseMark(spec: Spec, body: string)
    requires SaysBase(spec) && |body| > 0 && AllDigits(body, BaseOf(spec.conv))
    ensures BaseMark(PrefixOf(spec) + body).0 == BaseOf(spec.conv)
    ensures SkipZeros(BaseMark(PrefixOf(spec) + body).1) == SkipZeros(body)
  {
    hide SkipZeros, BaseMark, AllDigits;
    if BaseOf(spec.conv) == 10 {
      assert PrefixOf(spec) + body == body;
      DecimalMark(body);
    } else {
      ReadMark(PrefixOf(spec), body);
    }
  }

  lemma SkipFirst(s: string)
    requires |s| > 0
    ensures s[0] == '0' ==> SkipZeros(s) == SkipZeros(s[1..])
    ensures s[0] != '0' ==> SkipZeros(s) == s
  {
  }

  // What is rendered when no space is: sign, mark, zeros and digits.
  lemma NoSpaces(spec: Spec, n: int)
    requires !ShowsSpaces(spec, n)
    ensures exists k ::
              Rendered(spec, n) == SignText(spec, n) + (PrefixOf(spec) + (Repeat('0', k) + DigitText(spec, n)))
  {
    hide DigitText, PrefixOf;
    var sign, prefix, digits := SignText(spec, n), PrefixOf(spec), DigitText(spec, n);
    var fill := spec.width - (|sign| + |prefix| + |digits|);
    var k := if ZeroPadded(spec) then fill else 0;
    assert Repeat(' ', fill) == [] || ZeroPadded(spec);
    assert Rendered(spec, n) == sign + (prefix + (Repeat('0', k) + digits));
  }

  lemma SpacesShow(spec: Spec, n: int)
    requires ShowsSpaces(spec, n)
    ensures ' ' in Rendered(spec, n)
  {
    hide DigitText, PrefixOf;
    var sign, prefix, digits := SignText(spec, n), PrefixOf(spec), DigitText(spec, n);
    var fill := spec.width - (|sign| + |prefix| + |digits|);
    if n >= 0 && spec.plus == ' ' {
      assert sign[0] == ' ';
    } else {
      assert Repeat(' ', fill)[0] == ' ';
    }
  }

  /**
   Reading with base zero what a format wrote gives the number back: for every number
   and every format that says its base, of any width, exactly when no space is written.
   */
  lemma RoundTrip(spec: Spec, n: int)
    requires SaysBase(spec) && spec.plus in {'\0', '+', ' '}
    ensures ParseText(0, Rendered(spec, n)) == Number(n) <==> !ShowsSpaces(spec, n)
    ensures ShowsSpaces(spec, n) ==> ParseText(0, Rendered(spec, n)) == Invalid
  {
    hide Rendered, DigitsOf, ParseText, ParseDigits, BaseMark, SkipZeros;
    if ShowsSpaces(spec, n) {
      SpacesShow(spec, n);
      SpaceIsInvalid(0, Rendered(spec, n));
    } else {
      NoSpaces(spec, n);
      var k :| Rendered(spec, n) == SignText(spec, n) + (PrefixOf(spec) + (Repeat('0', k) + DigitText(spec, n)));
      var body := Repeat('0', k) + DigitText(spec, n);
      BodyDigits(spec, n, k);
      ParseSigned(0, SignText(spec, n), PrefixOf(spec) + body);
      ParseMark(spec, body);
      DigitsReadBack(spec.conv == 'x', AbsInt(n), BaseOf(spec.conv), k, n < 0);
    }
  }

  /**
   Reading with the base of the conversion gives the number back for every format, with
   the mark or without, exactly when neither a space nor a mark is written: a mark is
   read only when no base is given.
   */
  lemma ExplicitRoundTrip(spec: Spec, n: int)
    requires Conversion(spec.conv) && spec.plus in {'\0', '+', ' '}
    ensures ParseText(BaseOf(spec.conv), Rendered(spec, n)) == Number(n) <==>
            !ShowsSpaces(spec, n) && PrefixOf(spec) == ""
    ensures ShowsSpaces(spec, n) || PrefixOf(spec) != "" ==>
              ParseText(BaseOf(spec.conv), Rendered(spec, n)) == Invalid
  {
    hide Rendered, DigitsOf, ParseText, ParseDigits, SkipZeros;
    var base := BaseOf(spec.conv);
    if ShowsSpaces(spec, n) {
      SpacesShow(spec, n);
      SpaceIsInvalid(base, Rendered(spec, n));
    } else {
      NoSpaces(spec, n);
      var k :| Rendered(spec, n) == SignText(spec, n) + (PrefixOf(spec) + (Repeat('0', k) + DigitText(spec, n)));
      var body := Repeat('0', k) + DigitText(spec, n);
      BodyDigits(spec, n, k);
      ParseSigned(base, SignText(spec, n), PrefixOf(spec) + body);
      if PrefixOf(spec) == "" {
        assert PrefixOf(spec) + body == body;
        DigitsReadBack(spec.conv == 'x', AbsInt(n), base, k, n < 0);
      } else {
        MarkIsNoDigit(spec, body, n < 0);
      }
    }
  }

  // With its base given, the letter of a mark is no digit.
  lemma MarkIsNoDigit(spec: Spec, body: string, negative: bool)
    requires Conversion(spec.conv) && PrefixOf(spec) != ""
    ensures ParseDigits(SkipZeros(PrefixOf(spec) + body), BaseOf(spec.conv), negative) == Invalid
  {
    hide SkipZeros;
    var c, s := PrefixOf(spec)[1], PrefixOf(spec) + body;
    assert s[1..] == [c] + body;
    SkipFirst(s);
    SkipFirst(s[1..]);
    assert DigitValue(SkipZeros(s)[0]) >= BaseOf(spec.conv);
  }

  lemma BodyDigits(spec: Spec, n: int, k: int)
    requires Conversion(spec.conv)
    ensures |DigitText(spec, n)| > 0 && AllDigits(Repeat('0', k) + DigitText(spec, n), BaseOf(spec.conv))
    ensures (PrefixOf(spec) + (Repeat('0', k) + DigitText(spec, n)))[0] !in "-+"
  {
    hide DigitsOf, DigitChar;
    var d, body := DigitsOf(AbsInt(n), BaseOf(spec.conv)), Repeat('0', k) + DigitText(spec, n);
    CharsReadBack(d, spec.conv == 'x', BaseOf(spec.conv));
    forall i | 0 <= i < |body| ensures DigitValue(body[i]) < BaseOf(spec.conv) {
      if i < |Repeat('0', k)| {
        assert body[i] == '0';
      } else {
        assert body[i] == DigitText(spec, n)[i - |Repeat('0', k)|];
      }
    }
    assert DigitValue(body[0]) < 16;
  }

  // The characters of the digits below a base, in either case.
  predicate IsDigitOf(c: char, base: nat)
    requires base <= 16
  {
    c in "0123456789abcdef"[..base] || c in "0123456789ABCDEF"[..base]
  }

  /** A character is read as its place in the table, and every other is no digit. */
  lemma DigitsOfBase(c: char, base: nat)
    requires 2 <= base <= 16
    ensures DigitValue(c) < base <==> IsDigitOf(c, base)
    ensures IsDigitOf(c, base) ==>
              "0123456789abcdef"[DigitValue(c)] == c || "0123456789ABCDEF"[DigitValue(c)] == c
  {
    var l, u, d := "0123456789abcdef", "0123456789ABCDEF", DigitValue(c);
    if d < base {
      DigitInTable(c);
      assert l[..base][d] == l[d] && u[..base][d] == u[d];
    } else {
      forall i | 0 <= i < base ensures l[..base][i] != c && u[..base][i] != c {
        TableValue(i);
      }
    }
  }

  lemma DigitInTable(c: char)
    requires DigitValue(c) < 16
    ensures "0123456789abcdef"[DigitValue(c)] == c || "0123456789ABCDEF"[DigitValue(c)] == c
  {
  }

  lemma TableValue(i: nat)
    requires i < 16
    ensures DigitValue("0123456789abcdef"[i]) == i && DigitValue("0123456789ABCDEF"[i]) == i
  {
    DigitCharValue(true, i);
    DigitCharValue(false, i);
  }

  /** What digits mean in a base: any other character makes them invalid. */
  function Meaning(s: string, base: nat, negative: bool): Parsed
    requires base <= 16
  {
    if forall i :: 0 <= i < |s| ==> IsDigitOf(s[i], base) then
      Number(ZRep.Signed(negative, NumberOf(DigitValues(s), base)))
    else Invalid
  }

  // Zeros in front change nothing.
  lemma {:induction false} SkipMeans(s: string, base: nat, negative: bool)
    requires 2 <= base <= 16
    ensures ParseDigits(SkipZeros(s), base, negative) == Meaning(s, base, negative)
    decreases |s|
  {
    hide IsDigitOf, DigitValue, NumberOf;
    if |s| > 0 && s[0] == '0' {
      SkipMeans(s[1..], base, negative);
      SkipFirst(s);
      ZeroFirst(s, base, negative);
    } else {
      SkipNone(s);
      forall i | 0 <= i < |s| ensures DigitValue(s[i]) < base <==> IsDigitOf(s[i], base) {
        DigitsOfBase(s[i], base);
      }
    }
  }

  lemma SkipNone(s: string)
    requires |s| == 0 || s[0] != '0'
    ensures SkipZeros(s) == s
  {
  }

  lemma ZeroFirst(s: string, base: nat, negative: bool)
    requires 2 <= base <= 16 && |s| > 0 && s[0] == '0'
    ensures Meaning(s, base, negative) == Meaning(s[1..], base, negative)
  {
    hide IsDigitOf, DigitValue, NumberOf;
    var t := s[1..];
    ZeroIsDigit(base);
    if forall i :: 0 <= i < |t| ==> IsDigitOf(t[i], base) {
      forall i | 0 <= i < |s| ensures IsDigitOf(s[i], base) {
        assert i > 0 ==> s[i] == t[i - 1];
      }
      assert DigitValues(s) == [0] + DigitValues(t);
      ZeroNumber(DigitValues(t), base);
    } else {
      var i :| 0 <= i < |t| && !IsDigitOf(t[i], base);
      assert !IsDigitOf(s[i + 1], base);
    }
  }

  lemma ZeroIsDigit(base: nat)
    requires 2 <= base <= 16
    ensures IsDigitOf('0', base) && DigitValue('0') == 0
  {
    assert "0123456789abcdef"[..base][0] == '0';
  }

  lemma {:induction false} ZeroNumber(d: seq<nat>, base: nat)
    ensures NumberOf([0] + d, base) == NumberOf(d, base)
  {
    if |d| == 0 {
      assert [0] + d == [0] && [0][..0] == [];
    } else {
      var t := d[..|d| - 1];
      ZeroNumber(t, base);
      assert [0] + d == ([0] + t) + [d[|d| - 1]] && d == t + [d[|d| - 1]];
      NumberSnoc([0] + t, d[|d| - 1], base);
      NumberSnoc(t, d[|d| - 1], base);
    }
  }

  /** A sign, or a minus and a plus, as far as the text has them. */
  predicate SignTaken(sign: string, u: string) {
    && sign in {"", "-", "+", "-+"}
    && (|u| > 0 && u[0] == '-' ==> sign != "") && (|u| > 0 && u[0] == '+' ==> sign in {"+", "-+"})
  }

  lemma DropSigns(sign: string, u: string)
    requires SignTaken(sign, u)
    ensures DropChar(DropChar(sign + u, '-'), '+') == u
    ensures |sign + u| > 0 && (sign + u)[0] == '-' <==> sign in {"-", "-+"}
  {
    var s := sign + u;
    if sign == "" {
      assert s == u;
    } else {
      assert s[1..] == sign[1..] + u;
      if |sign| == 2 {
        assert s[1..][1..] == u;
      } else {
        assert s[1..] == u;
      }
    }
  }

  // Whether a text starts with a zero and the letter of a mark.
  predicate Marked(u: string, letters: string) { |u| >= 2 && u[0] == '0' && u[1] in letters }

  /**
   What every text means, for every base: the signs, then with base zero a mark in either
   case or else ten, and all the rest are digits. Every text is some sign and a rest.
   */
  lemma TextMeans(base: int, sign: string, u: string)
    requires SignTaken(sign, u)
    ensures base != 0 && (base < 2 || base > 16) ==> ParseText(base, sign + u) == Invalid
    ensures 2 <= base <= 16 ==> ParseText(base, sign + u) == Meaning(u, base, '-' in sign)
    ensures base == 0 ==> ParseText(0, sign + u) ==
                          if Marked(u, "oO") then Meaning(u[2..], 8, '-' in sign)
                          else if Marked(u, "xX") then Meaning(u[2..], 16, '-' in sign)
                          else if Marked(u, "bB") then Meaning(u[2..], 2, '-' in sign)
                          else Meaning(u, 10, '-' in sign)
  {
    hide SkipZeros, ParseDigits, Meaning, DropChar;
    DropSigns(sign, u);
    if 2 <= base <= 16 {
      SkipMeans(u, base, '-' in sign);
    } else if base == 0 {
      MarkMeans(u);
      SkipMeans(u, 10, '-' in sign);
      if |u| >= 2 {
        SkipMeans(u[2..], 8, '-' in sign);
        SkipMeans(u[2..], 16, '-' in sign);
        SkipMeans(u[2..], 2, '-' in sign);
      }
    }
  }

  lemma MarkMeans(u: string)
    ensures Marked(u, "oO") ==> BaseMark(u) == (8, u[2..])
    ensures Marked(u, "xX") ==> BaseMark(u) == (16, u[2..])
    ensures Marked(u, "bB") ==> BaseMark(u) == (2, u[2..])
    ensures !Marked(u, "oOxXbB") ==> BaseMark(u).0 == 10 && SkipZeros(BaseMark(u).1) == SkipZeros(u)
  {
    hide SkipZeros;
    if |u| >= 2 {
      assert u[1..][0] == u[1] && u[1..][1..] == u[2..];
    }
    if |u| > 0 {
      SkipFirst(u);
    }
  }

  /** Every text has its signs taken so. */
  lemma SignsTaken(s: string)
    ensures exists sign, u :: s == sign + u && SignTaken(sign, u)
  {
    var minus := |s| > 0 && s[0] == '-';
    var t := if minus then s[1..] else s;
    var plus := |t| > 0 && t[0] == '+';
    var u := if plus then t[1..] else t;
    var sign := if minus then (if plus then "-+" else "-") else if plus then "+" else "";
    assert s == sign + u && SignTaken(sign, u);
  }

  // A text by its parts: padding, sign, mark, zeros, digits and padding.
  predicate Layout(t: string, before: nat, sign: string, mark: string, zeros: nat, digits: string, after: nat) {
    t == Repeat(' ', before) + sign + mark + Repeat('0', zeros) + digits + Repeat(' ', after)
  }

  // Digit characters as a conversion writes them, with no zero before them.
  predicate DigitsFor(conv: char, digits: string, n: nat) {
    && (conv in "idubo" || conv in "xX")
    && var base := if conv in "idu" then 10 else if conv == 'b' then 2 else if conv == 'o' then 8 else 16;
       var table := (if conv == 'x' then "0123456789abcdef" else "0123456789ABCDEF")[..base];
       |digits| > 0 && (forall i :: 0 <= i < |digits| ==> digits[i] in table) &&
       (digits[0] == '0' ==> n == 0 && |digits| == 1) && NumberOf(DigitValues(digits), base) == n
  }

  // The sign and the mark a format asks for, and padding on its side up to the width.
  ghost predicate ShownAs(spec: Spec, n: int, before: nat, zeros: nat, digits: string, after: nat) {
    var sign := if n < 0 then "-" else if spec.plus == '+' then "+" else if spec.plus == ' ' then " " else "";
    var mark := if !spec.alt then "" else match spec.conv
                case 'b' => "0b" case 'o' => "0o" case 'x' => "0x" case 'X' => "0X" case _ => "";
    var bare := |sign| + |mark| + |digits|;
    Layout(Rendered(spec, n), before, sign, mark, zeros, digits, after) &&
    before + zeros + after == (if bare < spec.width then spec.width - bare else 0) &&
    (spec.left ==> before == 0 && zeros == 0) &&
    (!spec.left ==> after == 0 && if spec.zero then before == 0 else zeros == 0)
  }

  /**
   What a format shows, of every number: the digits in the case of the conversion, the
   mark and the sign asked for, and as much padding as the width asks for, on its side.
   */
  lemma Shown(spec: Spec, n: int)
    requires Conversion(spec.conv) && spec.plus in {'\0', '+', ' '}
    ensures exists before, zeros, digits, after ::
              ShownAs(spec, n, before, zeros, digits, after) && DigitsFor(spec.conv, digits, AbsInt(n))
  {
    hide DigitsFor, DigitText, Layout;
    var sign, mark, digits := SignText(spec, n), PrefixOf(spec), DigitText(spec, n);
    var bare := |sign| + |mark| + |digits|;
    var fill: nat := if bare < spec.width then spec.width - bare else 0;
    DigitsShown(spec, n);
    var before: nat := if !spec.left && !spec.zero then fill else 0;
    var zeros: nat := if !spec.left && spec.zero then fill else 0;
    var after: nat := if spec.left then fill else 0;
    LaidOut(spec, n, before, zeros, after);
    assert ShownAs(spec, n, before, zeros, digits, after);
  }

  lemma LaidOut(spec: Spec, n: int, before: nat, zeros: nat, after: nat)
    requires var bare := |SignText(spec, n)| + |PrefixOf(spec)| + |DigitText(spec, n)|;
             before + zeros + after == (if bare < spec.width then spec.width - bare else 0) &&
             (spec.left ==> before == 0 && zeros == 0) &&
             (!spec.left ==> after == 0 && if spec.zero then before == 0 else zeros == 0)
    ensures Layout(Rendered(spec, n), before, SignText(spec, n), PrefixOf(spec), zeros, DigitText(spec, n), after)
  {
    hide SignText, PrefixOf, DigitText;
    var sign, mark, digits := SignText(spec, n), PrefixOf(spec), DigitText(spec, n);
    var fill := spec.width - (|sign| + |mark| + |digits|);
    assert Repeat(' ', 0) == "" && Repeat('0', 0) == "";
    if fill <= 0 {
      assert Repeat(' ', fill) == "" && Repeat('0', fill) == "";
    }
    assert Rendered(spec, n) == Repeat(' ', before) + sign + mark + Repeat('0', zeros) + digits + Repeat(' ', after);
  }

  lemma DigitsShown(spec: Spec, n: int)
    requires Conversion(spec.conv)
    ensures DigitsFor(spec.conv, DigitText(spec, n), AbsInt(n))
  {
    hide DigitsOf, NumberOf, DigitValue, DigitChar;
    var m, base, lower := AbsInt(n), BaseOf(spec.conv), spec.conv == 'x';
    var d, digits := DigitsOf(m, base), DigitText(spec, n);
    CharsReadBack(d, lower, base);
    NumberOfDigits(m, base);
    if m == 0 {
      ZeroDigits(base);
    }
    var table := (if lower then "0123456789abcdef" else "0123456789ABCDEF")[..base];
    forall i | 0 <= i < |digits| ensures digits[i] in table {
      CharInTable(lower, d[i], base);
      assert digits[i] == DigitChar(lower, d[i]);
    }
  }

  lemma CharInTable(lower: bool, d: nat, base: nat)
    requires d < base <= 16
    ensures DigitChar(lower, d) in (if lower then "0123456789abcdef" else "0123456789ABCDEF")[..base]
  {
    var table := if lower then "0123456789abcdef" else "0123456789ABCDEF";
    assert table[..base][d] == table[d];
  }
}
