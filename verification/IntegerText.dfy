/**
  Text of integers: what the printf family writes for one integer conversion, as a function
  of value, flags, width and precision (custom_libc/printf.c), and the number a text stands
  for when strtol reads it (custom_libc/strtol.c).
 */
module IntegerTexts {

  /** PRINTF_INTEGER_BUFFER_SIZE: digits, zeros, prefix and sign share this many characters. */
  const BUFFER_SIZE: nat := 32

  datatype Flags = Flags(zeroPad: bool, left: bool, plus: bool, space: bool, hash: bool, uppercase: bool,
                         precision: bool, pointer: bool)

  function Reverse(s: string): (r: string)
    ensures |r| == |s| && forall k :: 0 <= k < |s| ==> r[k] == s[|s| - 1 - k]
  {
    if s == [] then [] else Reverse(s[1..]) + [s[0]]
  }

  lemma {:induction false} ReverseBoth(a: string, b: string)
    ensures Reverse(a + b) == Reverse(b) + Reverse(a)
  {
    if a == [] {
      assert a + b == b;
    } else {
      assert (a + b)[0] == a[0] && (a + b)[1..] == a[1..] + b;
      ReverseBoth(a[1..], b);
    }
  }

  function Repeat(c: char, n: int): (s: string)
    ensures |s| == (if n < 0 then 0 else n) && forall k :: 0 <= k < |s| ==> s[k] == c
  {
    if n <= 0 then [] else Repeat(c, n - 1) + [c]
  }

  // --- Digits ---

  function DigitChar(d: nat, uppercase: bool): char
    requires d < 16
  {
    if d < 10 then '0' + d as char
    else (if uppercase then 'A' else 'a') + (d - 10) as char
  }

  /** The character's value as a digit, or -1; upper and lower case alike. */
  function DigitValue(c: char): (d: int)
    ensures -1 <= d < 36
  {
    if '0' <= c <= '9' then c as int - '0' as int
    else if 'a' <= c <= 'z' then c as int - 'a' as int + 10
    else if 'A' <= c <= 'Z' then c as int - 'A' as int + 10
    else -1
  }

  lemma DigitCharValue(d: nat, uppercase: bool)
    requires d < 16
    ensures DigitValue(DigitChar(d, uppercase)) == d
  {
  }

  lemma DivMod(v: nat, b: nat)
    requires 0 < b
    ensures (v / b) * b + v % b == v && v % b < b
  {
  }

  lemma QuotientSmaller(q: nat, b: nat, v: nat)
    requires 2 <= b && q * b <= v && 0 < v
    ensures q < v
  {
    if q >= v {
      TwiceAtMost(q, b);
    }
  }

  lemma TwiceAtMost(q: nat, b: nat)
    requires 2 <= b
    ensures q * 2 <= q * b
  {
    assert q * (b - 2) >= 0;
  }

  function Quotient(value: nat, base: nat): (q: nat)
    requires 2 <= base
    ensures value > 0 ==> q < value
  {
    DivMod(value, base);
    if value > 0 then
      QuotientSmaller(value / base, base, value);
      value / base
    else 0
  }

  function Remainder(value: nat, base: nat): (d: nat)
    requires 2 <= base
    ensures d < base
  {
    value % base
  }

  lemma QuotientRemainder(value: nat, base: nat)
    requires 2 <= base
    ensures Quotient(value, base) * base + Remainder(value, base) == value
  {
    DivMod(value, base);
  }

  lemma NoDigits(base: nat)
    ensures ValueOf(Reverse([]), base) == 0
  {
  }

  /** Digits of a positive value, the lowest first. */
  function Digits(value: nat, base: nat, uppercase: bool): (s: string)
    requires 2 <= base <= 16
    decreases value
  {
    if value == 0 then []
    else [DigitChar(Remainder(value, base), uppercase)] + Digits(Quotient(value, base), base, uppercase)
  }

  /** The value of digits, the highest first. */
  function ValueOf(s: string, base: nat): int
    decreases |s|
  {
    if s == [] then 0 else ValueOf(s[..|s| - 1], base) * base + DigitValue(s[|s| - 1])
  }

  /** Reading the digits of a value gives the value. */
  lemma {:induction false} DigitsRead(value: nat, base: nat, uppercase: bool)
    requires 2 <= base <= 16
    ensures ValueOf(Reverse(Digits(value, base, uppercase)), base) == value
    decreases value
  {
    hide Quotient, Remainder, ValueOf, DigitChar, DigitValue;
    if value == 0 {
      NoDigits(base);
    } else {
      var q, d := Quotient(value, base), Remainder(value, base);
      QuotientRemainder(value, base);
      DigitsRead(q, base, uppercase);
      DigitCharValue(d, uppercase);
      LastDigitRead(Digits(q, base, uppercase), DigitChar(d, uppercase), base);
    }
  }

  lemma LastDigitRead(rest: string, c: char, base: nat)
    ensures ValueOf(Reverse([c] + rest), base) == ValueOf(Reverse(rest), base) * base + DigitValue(c)
  {
    assert ([c] + rest)[1..] == rest;
    assert Reverse([c] + rest)[..|rest|] == Reverse(rest);
  }

  lemma {:induction false} DigitsAreDigits(value: nat, base: nat, uppercase: bool)
    requires 2 <= base <= 16
    ensures forall k :: 0 <= k < |Digits(value, base, uppercase)| ==>
              0 <= DigitValue(Digits(value, base, uppercase)[k]) < base
    decreases value
  {
    if value > 0 {
      DigitsAreDigits(Quotient(value, base), base, uppercase);
      DigitCharValue(Remainder(value, base), uppercase);
    }
  }

  function Power10(n: nat): nat {
    if n == 0 then 1 else 10 * Power10(n - 1)
  }

  lemma {:induction false} DecimalLength(value: nat, n: nat)
    requires value < Power10(n)
    ensures |Digits(value, 10, false)| <= n
    decreases n
  {
    if value > 0 {
      DecimalLength(value / 10, n - 1);
    }
  }

  lemma Power10Is19()
    ensures Power10(19) == 10000000000000000000
  {
    assert Power10(4) == 10000;
    assert Power10(8) == 100000000;
    assert Power10(12) == 1000000000000;
    assert Power10(16) == 10000000000000000;
  }

  // --- What print_integer puts together, last character first ---

  /** The digits, or nothing for a zero with a precision given; at most as many as the buffer holds. */
  function Converted(value: nat, base: nat, f: Flags): (buf: string)
    requires 2 <= base <= 16
    ensures |buf| <= BUFFER_SIZE
  {
    if value == 0 then (if f.precision then [] else ['0'])
    else
      var s := Digits(value, base, f.uppercase);
      if |s| <= BUFFER_SIZE then s else s[..BUFFER_SIZE]
  }

  /** Zero loses the alternative form. */
  function HashKept(value: nat, base: nat, f: Flags): Flags {
    if value == 0 && (!f.precision || base == 16) then f.(hash := false) else f
  }

  /** Zeros up to `n` characters, as far as the buffer goes. */
  function ZeroPadded(buf: string, n: int): (r: string)
    requires |buf| <= BUFFER_SIZE
    ensures |buf| <= |r| <= BUFFER_SIZE && r == buf + Repeat('0', |r| - |buf|)
    ensures |r| == if n <= |buf| then |buf| else if n <= BUFFER_SIZE then n else BUFFER_SIZE
    decreases BUFFER_SIZE - |buf|
  {
    if |buf| < n && |buf| < BUFFER_SIZE then
      var r := ZeroPadded(buf + ['0'], n);
      RepeatFront('0', |r| - |buf|);
      assert buf + (['0'] + Repeat('0', |r| - |buf| - 1)) == buf + ['0'] + Repeat('0', |r| - |buf| - 1);
      r
    else
      assert buf + Repeat('0', 0) == buf;
      buf
  }

  lemma {:induction false} RepeatFront(c: char, n: nat)
    requires n > 0
    ensures Repeat(c, n) == [c] + Repeat(c, n - 1)
  {
  }

  /** One column is kept for a sign in front of padding zeros. */
  function FieldWidth(width: nat, negative: bool, f: Flags): nat {
    if !f.left && width > 0 && f.zeroPad && (negative || f.plus || f.space) then width - 1 else width
  }

  function Padded(buf: string, negative: bool, precision: nat, width: nat, f: Flags): (r: string)
    requires |buf| <= BUFFER_SIZE
    ensures |buf| <= |r| <= BUFFER_SIZE && r == buf + Repeat('0', |r| - |buf|)
    ensures |r| == BUFFER_SIZE && |buf| < BUFFER_SIZE <==>
            && |buf| < BUFFER_SIZE
            && (precision >= BUFFER_SIZE || (f.zeroPad && !f.left && FieldWidth(width, negative, f) >= BUFFER_SIZE))
  {
    var a := if !f.left && f.zeroPad then ZeroPadded(buf, FieldWidth(width, negative, f)) else buf;
    NoRepeats(buf, '0');
    PaddedTwice(buf, a, precision);
    ZeroPadded(a, precision)
  }

  /** Zeros behind zeros. */
  lemma PaddedTwice(buf: string, a: string, n: int)
    requires |buf| <= |a| <= BUFFER_SIZE && a == buf + Repeat('0', |a| - |buf|)
    ensures var r := ZeroPadded(a, n); r == buf + Repeat('0', |r| - |buf|)
  {
    hide ZeroPadded, Repeat;
    var r := ZeroPadded(a, n);
    PaddedBy(buf, a, r, |a| - |buf|, |r| - |a|);
  }

  lemma PaddedBy(buf: string, a: string, r: string, x: nat, y: nat)
    requires a == buf + Repeat('0', x) && r == a + Repeat('0', y)
    ensures r == buf + Repeat('0', x + y)
  {
    hide Repeat;
    RepeatBoth('0', x, y);
    Joined(r, a, buf, Repeat('0', x), Repeat('0', y));
  }

  lemma Joined(r: string, a: string, buf: string, s: string, t: string)
    requires r == a + t && a == buf + s
    ensures r == buf + (s + t)
  {
  }

  lemma NoRepeats(s: string, c: char)
    ensures s + Repeat(c, 0) == s
  {
  }

  lemma RepeatBoth(c: char, a: nat, b: nat)
    ensures Repeat(c, a) + Repeat(c, b) == Repeat(c, a + b)
  {
  }

  /** Octal text that got a zero already needs no other. */
  function HashAfterPadding(base: nat, f: Flags, grew: bool): Flags {
    if base == 8 && grew then f.(hash := false) else f
  }

  /** Padding zeros are taken back to make room for a base prefix. */
  function TakenBack(buf: string, unpadded: nat, base: nat, precision: nat, width: nat, f: Flags): (r: string)
    ensures |r| <= |buf|
  {
    if !f.precision && buf != [] && (|buf| == precision || |buf| == width) then
      var a := if unpadded < |buf| then buf[..|buf| - 1] else buf;
      if a != [] && (base == 16 || base == 2) && unpadded < |a| then a[..|a| - 1] else a
    else buf
  }

  function Put(buf: string, c: char): (r: string)
    requires |buf| <= BUFFER_SIZE
    ensures |r| <= BUFFER_SIZE
  {
    if |buf| < BUFFER_SIZE then buf + [c] else buf
  }

  function BasePrefixed(buf: string, unpadded: nat, base: nat, precision: nat, width: nat, f: Flags): (r: string)
    requires |buf| <= BUFFER_SIZE
    ensures |r| <= BUFFER_SIZE
  {
    if f.hash || f.pointer then
      var a := TakenBack(buf, unpadded, base, precision, width, f);
      var b := if base == 16 then Put(a, if f.uppercase then 'X' else 'x') else if base == 2 then Put(a, 'b') else a;
      Put(b, '0')
    else buf
  }

  function Signed(buf: string, negative: bool, f: Flags): (r: string)
    requires |buf| <= BUFFER_SIZE
    ensures |r| <= BUFFER_SIZE
  {
    if negative then Put(buf, '-') else if f.plus then Put(buf, '+') else if f.space then Put(buf, ' ') else buf
  }

  /** The number's characters, last first. */
  function Finished(buf: string, negative: bool, base: nat, precision: nat, width: nat, f: Flags): (r: string)
    requires |buf| <= BUFFER_SIZE
    ensures |r| <= BUFFER_SIZE
  {
    var a := Padded(buf, negative, precision, width, f);
    Signed(BasePrefixed(a, |buf|, base, precision, FieldWidth(width, negative, f),
                        HashAfterPadding(base, f, |buf| < |a|)), negative, f)
  }

  /** The field: the number, with spaces before or behind it. */
  function Field(buf: string, width: nat, f: Flags): string {
    (if !f.left && !f.zeroPad then Repeat(' ', width - |buf|) else [])
    + Reverse(buf)
    + (if f.left then Repeat(' ', width - |buf|) else [])
  }

  /** Everything one integer conversion prints. */
  function Printed(value: nat, negative: bool, base: nat, precision: nat, width: nat, f: Flags): string
    requires 2 <= base <= 16
  {
    var g := HashKept(value, base, f);
    Field(Finished(Converted(value, base, f), negative, base, precision, width, g), FieldWidth(width, negative, f), f)
  }

  // --- What strtol reads ---

  const ULONG_MAX: nat := 0xFFFF_FFFF_FFFF_FFFF
  const LONG_MAX: nat := 0x7FFF_FFFF_FFFF_FFFF
  const LONG_MIN: int := -0x8000_0000_0000_0000

  predicate IsSpace(c: char) {
    c == ' ' || c == 0xC as char || c == '\n' || c == '\r' || c == '\t' || c == 0xB as char
  }

  function SkipSpaces(s: string): string {
    if s != [] && IsSpace(s[0]) then SkipSpaces(s[1..]) else s
  }

  /** The digits in front. */
  function DigitRun(s: string, base: int): (r: string)
    ensures |r| <= |s| && r == s[..|r|]
    ensures forall k :: 0 <= k < |r| ==> 0 <= DigitValue(r[k]) < base
    ensures |r| < |s| ==> !(0 <= DigitValue(s[|r|]) < base)
  {
    if s != [] && 0 <= DigitValue(s[0]) < base then [s[0]] + DigitRun(s[1..], base) else []
  }

  predicate HasSign(s: string) {
    s != [] && (s[0] == '+' || s[0] == '-')
  }

  function AfterSign(s: string): string {
    if HasSign(s) then s[1..] else s
  }

  /** With base 0 the text's own prefix decides. */
  function BaseOf(s: string, base: int): int {
    if base != 0 then base
    else if |s| >= 2 && s[0] == '0' && (s[1] == 'x' || s[1] == 'X') then 16
    else if s != [] && s[0] == '0' then 8
    else 10
  }

  function AfterPrefix(s: string, base: int): string {
    if base == 0 && |s| >= 2 && s[0] == '0' && (s[1] == 'x' || s[1] == 'X') then s[2..] else s
  }

  /** The number's digits as `strto` finds them, and their base. */
  function NumberDigits(s: string, base: int): string {
    var t := AfterSign(SkipSpaces(s));
    DigitRun(AfterPrefix(t, base), BaseOf(t, base))
  }

  function NumberBase(s: string, base: int): int {
    BaseOf(AfterSign(SkipSpaces(s)), base)
  }

  /** What is behind the digits. */
  function AfterNumber(s: string, base: int): string {
    AfterPrefix(AfterSign(SkipSpaces(s)), base)[|NumberDigits(s, base)|..]
  }

  /**
    Where `strto` puts the end pointer: behind the digits and behind the character that
    stopped them; at the start if it consumed nothing at all.
   */
  function ScanEnd(s: string, base: int): nat {
    var body, after := AfterPrefix(AfterSign(SkipSpaces(s)), base), AfterNumber(s, base);
    SkippedLength(s);
    if body == [] then 0 else |s| - |after| + if after == [] then 0 else 1
  }

  lemma {:induction false} SkippedLength(s: string)
    ensures |SkipSpaces(s)| <= |s| && SkipSpaces(s) == s[|s| - |SkipSpaces(s)|..]
  {
    if s != [] && IsSpace(s[0]) {
      SkippedLength(s[1..]);
    }
  }

  /** The true value of the digits. */
  function Magnitude(s: string, base: int): nat
  {
    NumberValueNat(NumberDigits(s, base), NumberBase(s, base));
    if NumberBase(s, base) <= 0 then 0 else ValueOf(NumberDigits(s, base), NumberBase(s, base))
  }

  lemma {:induction false} NumberValueNat(s: string, base: int)
    requires forall k :: 0 <= k < |s| ==> 0 <= DigitValue(s[k]) < base
    ensures 0 < base ==> 0 <= ValueOf(s, base)
    decreases |s|
  {
    if s != [] {
      NumberValueNat(s[..|s| - 1], base);
    }
  }

  predicate IsNegative(s: string) {
    var t := SkipSpaces(s);
    t != [] && t[0] == '-'
  }

  /** The integer the text stands for. */
  function TrueValue(s: string, base: int): int {
    var m: int := Magnitude(s, base);
    if IsNegative(s) then -m else m
  }

  /** What `strtol` makes of it. */
  function Clamped(v: int): int {
    if v < LONG_MIN then LONG_MIN else if v > LONG_MAX then LONG_MAX else v
  }
}
