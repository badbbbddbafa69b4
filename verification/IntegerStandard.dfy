/**
  The number that C wants read from a text: the longest initial part of the expected form
  (C17, section 7.22.1.4), and where strtol's scan agrees with it (custom_libc/strtol.c).
 */
module IntegerStandards {
  import opened IntegerTexts

  // --- The expected form ---

  /** The bases C defines; for any other the behaviour is undefined. */
  predicate IsBase(base: int) {
    base == 0 || 2 <= base <= 36
  }

  predicate AllDigits(u: string, base: int) {
    forall k :: 0 <= k < |u| ==> 0 <= DigitValue(u[k]) < base
  }

  predicate HexPrefix(u: string) {
    |u| >= 2 && u[0] == '0' && (u[1] == 'x' || u[1] == 'X')
  }

  predicate IsHexConstant(u: string) {
    HexPrefix(u) && 2 < |u| && AllDigits(u[2..], 16)
  }

  /** An integer constant without suffix: hexadecimal, octal, or decimal (C17, section 6.4.4.1). */
  predicate IsConstant(u: string) {
    IsHexConstant(u) || (u != [] && AllDigits(u, if u[0] == '0' then 8 else 10))
  }

  /** A number without sign in the given base; in base 16 a prefix may be there. */
  predicate IsNumber(u: string, base: int) {
    if base == 0 then IsConstant(u)
    else (u != [] && AllDigits(u, base)) || (base == 16 && IsHexConstant(u))
  }

  /** The longest initial part of at most `n` characters that is a number with or without sign; 0 if there is none. */
  function Longest(t: string, base: int, n: nat): (m: nat)
    requires n <= |t|
    ensures m <= n && (m > 0 ==> IsNumber(AfterSign(t[..m]), base))
    ensures forall k :: m < k <= n ==> !IsNumber(AfterSign(t[..k]), base)
  {
    if n == 0 || IsNumber(AfterSign(t[..n]), base) then n else Longest(t, base, n - 1)
  }

  /** The subject sequence of C's conversion: spaces skipped, the longest number, its sign included. */
  function Subject(s: string, base: int): string {
    var t := SkipSpaces(s);
    t[..Longest(t, base, |t|)]
  }

  /** Where C has the end pointer: behind the subject sequence, or at the start if that is empty. */
  function NumberEnd(s: string, base: int): int {
    if Subject(s, base) == [] then 0 else |s| - |SkipSpaces(s)| + |Subject(s, base)|
  }

  /** The value of a number without sign. */
  function UnsignedValue(u: string, base: int): int
    requires IsBase(base)
  {
    if base in {0, 16} && HexPrefix(u) then ValueOf(u[2..], 16) else ValueOf(u, PlainBase(u, base))
  }

  /** The base of a number without a prefix for base 16. */
  function PlainBase(u: string, base: int): int {
    if base != 0 then base else if u != [] && u[0] == '0' then 8 else 10
  }

  /** The integer that the subject sequence stands for; 0 if that is empty. */
  function NumberValue(s: string, base: int): int
    requires IsBase(base)
  {
    var v := Subject(s, base);
    var m := UnsignedValue(AfterSign(v), base);
    if v != [] && v[0] == '-' then -m else m
  }

  /** What is left of the text behind the sign and the subject sequence. */
  function Rest(s: string, base: int): string {
    AfterSign(SkipSpaces(s))[|AfterSign(Subject(s, base))|..]
  }

  // --- Characters and bounds ---

  const LETTERS := "0123456789abcdefghijklmnopqrstuvwxyz"
  const CAPITALS := "0123456789ABCDEFGHIJKLMNOPQRSTUVWXYZ"

  /** Digits and the letters for 10 to 35 in either case are what they are taken for, and nothing else is a digit. */
  lemma DigitsAre(c: char, d: nat)
    requires d < 36
    ensures DigitValue(c) == d <==> c == LETTERS[d] || c == CAPITALS[d]
  {
    SymbolAt(d);
  }

  lemma SymbolAt(d: nat)
    requires d < 36
    ensures LETTERS[d] == if d < 10 then '0' + d as char else 'a' + (d - 10) as char
    ensures CAPITALS[d] == if d < 10 then '0' + d as char else 'A' + (d - 10) as char
  {
  }

  /** White space as C17 has it in section 7.4.1.10: a blank, and the five controls from tab to carriage return. */
  lemma SpacesAre(c: char)
    ensures IsSpace(c) <==> c == ' ' || '\t' <= c <= '\r'
  {
  }

  /** Of all the longs the one nearest to a value is taken. */
  lemma NearestLong(v: int, x: int)
    requires -0x8000_0000_0000_0000 <= x <= 0x7FFF_FFFF_FFFF_FFFF
    ensures -0x8000_0000_0000_0000 <= Clamped(v) <= 0x7FFF_FFFF_FFFF_FFFF
    ensures v <= Clamped(v) <= x || x <= Clamped(v) <= v
            || (x < v && Clamped(v) == v) || (v < x && Clamped(v) == v)
  {
  }

  // --- The longest number ---

  /** The length of the longest number at the start of an unsigned text. */
  function NumberLength(u: string, base: int): (n: nat)
    ensures n <= |u|
  {
    if base in {0, 16} && HexPrefix(u) && DigitRun(u[2..], 16) != [] then 2 + |DigitRun(u[2..], 16)|
    else |DigitRun(u, PlainBase(u, base))|
  }

  lemma RunIsLongest(u: string, base: int, n: nat)
    requires n <= |u|
    ensures AllDigits(u[..n], base) <==> n <= |DigitRun(u, base)|
  {
    hide DigitRun, DigitValue;
    var r := DigitRun(u, base);
    if n <= |r| {
      assert forall k :: 0 <= k < n ==> u[..n][k] == r[k];
    } else {
      assert u[..n][|r|] == u[|r|];
    }
  }

  lemma LetterXIsNoDigit(c: char)
    requires c == 'x' || c == 'X'
    ensures DigitValue(c) == 33
  {
  }

  /** Whatever initial part is a number is not longer, and that long a part is one. */
  lemma NumberLengthIs(u: string, base: int, n: nat)
    requires IsBase(base) && n <= |u|
    ensures IsNumber(u[..n], base) ==> 0 < n <= NumberLength(u, base)
    ensures n == NumberLength(u, base) > 0 ==> IsNumber(u[..n], base)
  {
    hide DigitRun, DigitValue, AllDigits;
    PlainNumber(u, base, n);
    if base in {0, 16} && HexPrefix(u) {
      HexNumber(u, n);
      XEndsRun(u, PlainBase(u, base));
    }
    if n > 0 {
      assert u[..n][0] == u[0];
    }
  }

  lemma PlainNumber(u: string, base: int, n: nat)
    requires n <= |u|
    ensures AllDigits(u[..n], PlainBase(u, base)) <==> n <= |DigitRun(u, PlainBase(u, base))|
  {
    RunIsLongest(u, PlainBase(u, base), n);
  }

  lemma HexNumber(u: string, n: nat)
    requires HexPrefix(u) && n <= |u|
    ensures IsHexConstant(u[..n]) <==> 2 < n <= 2 + |DigitRun(u[2..], 16)|
  {
    hide DigitRun, AllDigits;
    if 2 < n {
      assert u[..n][2..] == u[2..][..n - 2];
      RunIsLongest(u[2..], 16, n - 2);
    }
  }

  /** Behind the 0 the x stops the digits, in any base that has no digit x. */
  lemma XEndsRun(u: string, base: int)
    requires HexPrefix(u) && 2 <= base <= 33
    ensures DigitRun(u, base) == u[..1]
  {
    LetterXIsNoDigit(u[1]);
    assert DigitRun(u[1..], base) == [];
  }

  /** The longest number, its sign taken apart. */
  lemma LongestIs(t: string, base: int)
    requires IsBase(base)
    ensures var u, l := AfterSign(t), NumberLength(AfterSign(t), base);
            Longest(t, base, |t|) == if l == 0 then 0 else |t| - |u| + l
  {
    hide NumberLength, IsNumber;
    var u, m := AfterSign(t), Longest(t, base, |t|);
    var l, sign := NumberLength(u, base), |t| - |u|;
    if m > 0 {
      SignOfPart(t, m);
      NumberLengthIs(u, base, m - sign);
    }
    if l > 0 {
      SignOfPart(t, sign + l);
      NumberLengthIs(u, base, l);
    }
  }

  lemma SignOfPart(t: string, k: nat)
    requires 0 < k <= |t|
    ensures |t| - |AfterSign(t)| <= k && AfterSign(t[..k]) == AfterSign(t)[..k - (|t| - |AfterSign(t)|)]
  {
    assert t[..k][0] == t[0];
    if HasSign(t) {
      assert t[..k][1..] == t[1..][..k - 1];
    }
  }

  /** The number in front of a text, apart from its sign. */
  lemma SubjectIs(s: string, base: int)
    requires IsBase(base)
    ensures var u := AfterSign(SkipSpaces(s));
            var l := NumberLength(u, base);
            && AfterSign(Subject(s, base)) == u[..l] && Rest(s, base) == u[l..]
            && (Subject(s, base) == [] <==> l == 0)
            && NumberEnd(s, base) == if l == 0 then 0 else |s| - |u| + l
  {
    hide NumberLength, IsNumber, SkipSpaces, Longest;
    var t := SkipSpaces(s);
    LongestIs(t, base);
    if Longest(t, base, |t|) > 0 {
      SignOfPart(t, Longest(t, base, |t|));
    }
  }

  // --- Where the scan agrees ---

  /** A 0x with nothing behind it that base 0 could take: the number is the 0. */
  predicate BareHexPrefix(s: string, base: int) {
    var u := AfterSign(SkipSpaces(s));
    base == 0 && HexPrefix(u) && DigitRun(u[2..], 16) == []
  }

  /** A hexadecimal number behind a prefix, in base 16: the scan takes the prefix for base 0 only. */
  predicate PrefixedInBase16(s: string, base: int) {
    var u := AfterSign(SkipSpaces(s));
    base == 16 && HexPrefix(u) && DigitRun(u[2..], 16) != []
  }

  /** The digits the scan finds are those of the longest number, except behind these two prefixes. */
  lemma ScannedNumber(s: string, base: int)
    requires IsBase(base)
    ensures var u := AfterSign(SkipSpaces(s));
            var l := NumberLength(u, base);
            && (BareHexPrefix(s, base) ==> l == 1 && NumberDigits(s, base) == [] && AfterNumber(s, base) == u[2..])
            && (PrefixedInBase16(s, base) ==>
                  && l == 2 + |DigitRun(u[2..], 16)| > 2 && NumberDigits(s, base) == u[..1]
                  && AfterNumber(s, base) == u[1..])
            && (!BareHexPrefix(s, base) && !PrefixedInBase16(s, base) ==>
                  && AfterNumber(s, base) == u[l..]
                  && (base == 0 && HexPrefix(u) ==> NumberDigits(s, base) == DigitRun(u[2..], 16))
                  && (!(base == 0 && HexPrefix(u)) ==> NumberDigits(s, base) == u[..l]))
  {
    hide DigitRun, SkipSpaces, DigitValue;
    var u := AfterSign(SkipSpaces(s));
    if HexPrefix(u) {
      XEndsRun(u, 8);
      XEndsRun(u, 16);
    }
  }

  /** The end pointer is where C wants it if and only if nothing follows the digits, a bare prefix apart. */
  lemma EndAgrees(s: string, base: int)
    requires IsBase(base)
    ensures ScanEnd(s, base) == NumberEnd(s, base) <==> AfterNumber(s, base) == [] && !BareHexPrefix(s, base)
    ensures ScanEnd(s, base) == NumberEnd(s, base) <==> Rest(s, base) == [] && !PrefixedInBase16(s, base)
  {
    hide DigitRun, SkipSpaces, Subject, NumberEnd, Rest, AfterNumber;
    SubjectIs(s, base);
    ScannedNumber(s, base);
    SkippedLength(s);
  }

  /** Value and sign of the subject sequence. */
  lemma NumberValueIs(s: string, base: int)
    requires IsBase(base)
    ensures var u := AfterSign(SkipSpaces(s));
            var m := UnsignedValue(u[..NumberLength(u, base)], base);
            NumberValue(s, base) == if IsNegative(s) then -m else m
  {
    hide SkipSpaces, NumberLength, Longest, AfterSign, HasSign;
    var u := AfterSign(SkipSpaces(s));
    SubjectIs(s, base);
    if Subject(s, base) == [] {
      assert u[..0] == [] && UnsignedValue([], base) == 0;
    }
  }

  /** The scanned digits, where neither prefix is in the way, have the value of the longest number. */
  lemma ScannedValue(s: string, base: int)
    requires IsBase(base)
    ensures var u := AfterSign(SkipSpaces(s));
            Magnitude(s, base)
            == if PrefixedInBase16(s, base) then 0 else UnsignedValue(u[..NumberLength(u, base)], base)
  {
    hide DigitRun, SkipSpaces, ValueOf, DigitValue, PrefixedInBase16, BareHexPrefix, NumberLength;
    var u := AfterSign(SkipSpaces(s));
    ScannedNumber(s, base);
    ScannedBase(s, base);
    if PrefixedInBase16(s, base) {
      ZeroIsZero(16);
    } else if BareHexPrefix(s, base) {
      ZeroIsZero(8);
      ZeroIsZero(16);
    }
  }

  /** The base the scan reads the digits in, and how the number's value is made of its part of the text. */
  lemma ScannedBase(s: string, base: int)
    requires IsBase(base)
    ensures var u := AfterSign(SkipSpaces(s));
            var l := NumberLength(u, base);
            && 0 < NumberBase(s, base)
            && (PrefixedInBase16(s, base) ==> NumberBase(s, base) == 16 && u[..1] == "0")
            && (BareHexPrefix(s, base) ==>
                  NumberBase(s, base) == 16 && UnsignedValue(u[..l], base) == ValueOf("0", 8))
            && (!PrefixedInBase16(s, base) && !BareHexPrefix(s, base) ==>
                  UnsignedValue(u[..l], base)
                  == ValueOf(if base == 0 && HexPrefix(u) then DigitRun(u[2..], 16) else u[..l], NumberBase(s, base)))
  {
    hide DigitRun, SkipSpaces, ValueOf, DigitValue;
    var u := AfterSign(SkipSpaces(s));
    var l := NumberLength(u, base);
    if HexPrefix(u) {
      XEndsRun(u, 8);
      XEndsRun(u, 16);
      assert u[..1] == "0";
    }
    if base == 0 && HexPrefix(u) && !BareHexPrefix(s, base) {
      assert u[..l][2..] == DigitRun(u[2..], 16);
    } else if l == 0 {
      assert u[..l] == [];
      ZeroIsZero(8);
      ZeroIsZero(10);
    }
  }

  lemma ZeroIsZero(base: nat)
    ensures ValueOf("0", base) == 0 && ValueOf([], base) == 0
  {
    assert "0"[..0] == [];
  }

  /** The value is C's if and only if the text is not, in base 16, a number other than 0 behind a prefix. */
  lemma ValueAgrees(s: string, base: int)
    requires IsBase(base)
    ensures TrueValue(s, base) == NumberValue(s, base) <==>
              !(PrefixedInBase16(s, base) && NumberValue(s, base) != 0)
    ensures PrefixedInBase16(s, base) ==> TrueValue(s, base) == 0
  {
    hide SkipSpaces, Magnitude, NumberValue, NumberLength, UnsignedValue, IsNegative, PrefixedInBase16;
    NumberValueIs(s, base);
    ScannedValue(s, base);
  }

  // --- Texts on which the scan goes wrong ---

  /** A bare prefix in base 0: C has the end behind the 0, the scan at the start. */
  lemma BarePrefixMisplaced()
    ensures AfterNumber("0x", 0) == [] && ScanEnd("0x", 0) == 0 && NumberEnd("0x", 0) == 1
  {
    hide Longest, DigitRun, NumberLength, NumberEnd, Subject;
    var s := "0x";
    assert SkipSpaces(s) == s && s[2..] == [];
    NoDigits(16);
    SubjectIs(s, 0);
    ScannedNumber(s, 0);
  }

  lemma NoDigits(base: int)
    ensures DigitRun([], base) == []
  {
  }

  /** A character behind the digits is taken along. */
  lemma NextCharacterTaken()
    ensures ScanEnd("1x", 10) == 2 && NumberEnd("1x", 10) == 1
  {
    hide Longest, DigitRun, NumberEnd, Subject;
    var s := "1x";
    assert SkipSpaces(s) == s && !HexPrefix(s);
    OneDigitRun();
    SubjectIs(s, 10);
    ScannedNumber(s, 10);
  }

  lemma OneDigitRun()
    ensures DigitRun("1x", 10) == "1"
  {
    LetterXIsNoDigit('x');
    assert "1x"[1..] == "x" && DigitRun("x", 10) == [];
  }

  /** The prefix is not taken in base 16: C reads 31 and stops at 4, the scan reads 0 and stops at 2. */
  lemma PrefixNotTaken()
    ensures TrueValue("0x1f", 16) == 0 && NumberValue("0x1f", 16) == 31
    ensures ScanEnd("0x1f", 16) == 2 && NumberEnd("0x1f", 16) == 4
  {
    hide Longest, DigitRun, ValueOf, NumberLength;
    var s := "0x1f";
    assert SkipSpaces(s) == s && s[2..] == "1f" && s[..1] == "0" && s[..4] == s;
    HexDigitsOf1f();
    SubjectIs(s, 16);
    ScannedNumber(s, 16);
    NumberValueIs(s, 16);
    ZeroIsZero(16);
  }

  lemma HexDigitsOf1f()
    ensures DigitRun("1f", 16) == "1f" && ValueOf("1f", 16) == 31
  {
    assert "1f"[1..] == "f" && "1f"[..1] == "1" && "f"[1..] == [] && "1"[..0] == [];
    assert DigitRun("f", 16) == "f";
    assert ValueOf("1", 16) == 1;
  }
}
