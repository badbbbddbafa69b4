/**
  Reading integers: the scanning loop of strtol and strtoul (custom_libc/strtol.c). A C
  string is the characters before its end mark.
 */
module IntegerParsers {
  import opened IntegerTexts
  import opened IntegerStandards
  import opened IntegerRoundTrips
  import opened IntegerPrinters

  datatype Errno = NoError | EINVAL | ERANGE

  /** The character at `i`; at the end, the end mark. */
  function At(s: string, i: nat): char {
    if i < |s| then s[i] else '\0'
  }

  function ToLower(c: char): char {
    if 'A' <= c <= 'Z' then c - 'A' + 'a' else c
  }

  /** `strto`'s result: with overflow the magnitude means nothing. */
  datatype StrToResult = StrToResult(overflow: bool, sign: bool, magnitude: nat)

  /** A text is a C string if no end mark is inside. */
  predicate IsCString(s: string) {
    forall k :: 0 <= k < |s| ==> s[k] != '\0'
  }

  /** An accumulator overflows exactly when the next digit takes it past the largest number. */
  lemma Overflows(m: nat, d: nat, base: nat)
    requires 0 < base && d <= ULONG_MAX
    ensures m > (ULONG_MAX - d) / base <==> m * base + d > ULONG_MAX
  {
    var r := ULONG_MAX - d;
    DivMod(r, base);
    PastQuotient(r / base, r % base, base, m);
  }

  lemma PastQuotient(q: nat, r: nat, base: nat, m: nat)
    requires r < base
    ensures m > q <==> m * base > q * base + r
  {
    if m > q {
      assert (m - (q + 1)) * base >= 0;
    } else {
      assert (q - m) * base >= 0;
    }
  }

  /** Once over the limit, more digits do not bring it back. */
  lemma {:induction false} StaysOver(a: string, b: string, base: nat)
    requires 0 < base && ValueOf(a, base) > ULONG_MAX
    requires forall k :: 0 <= k < |b| ==> 0 <= DigitValue(b[k])
    ensures ValueOf(a + b, base) > ULONG_MAX
    decreases |b|
  {
    if b == [] {
      assert a + b == a;
    } else {
      var c := b[..|b| - 1];
      assert (a + b)[..|a + b| - 1] == a + c;
      StaysOver(a, c, base);
      GrowsBy(ValueOf(a + c, base), base, DigitValue(b[|b| - 1]));
    }
  }

  lemma GrowsBy(v: nat, base: nat, d: nat)
    requires 0 < base
    ensures v * base + d >= v
  {
    assert v * (base - 1) >= 0;
  }

  lemma OneDigitMore(s: string, c: char, base: nat)
    ensures ValueOf(s + [c], base) == ValueOf(s, base) * base + DigitValue(c)
  {
    assert (s + [c])[..|s|] == s;
  }

  /**
    Scan digits from `start` on. The overflow flag says exactly whether the digits' true
    value is past 2^64 - 1.
   */
  method ScanDigits(s: string, start: nat, base: int) returns (overflow: bool, magnitude: nat, current: nat)
    requires start <= |s| && IsCString(s)
    ensures var digits := DigitRun(s[start..], base);
            && (digits == [] ==> !overflow && magnitude == 0)
            && (digits != [] ==> 0 < base && (overflow <==> ValueOf(digits, base) > ULONG_MAX)
                                 && (!overflow ==> magnitude == ValueOf(digits, base)))
            && current == start + |digits| + (if start + |digits| < |s| then 1 else 0)
  {
    hide ValueOf, DigitRun;
    ghost var digits := DigitRun(s[start..], base);
    overflow, magnitude, current := false, 0, start;
    NoDigitsYet(base);
    ghost var n := 0;
    while At(s, current) != '\0'
      invariant current == start + n && n <= |digits| && current <= |s|
      invariant n > 0 ==> 0 < base
      invariant 0 < base ==> if overflow then ValueOf(digits[..n], base) > ULONG_MAX
                             else magnitude == ValueOf(digits[..n], base) <= ULONG_MAX
      invariant n == 0 ==> !overflow && magnitude == 0
      decreases |s| - current
    {
      ghost var done := digits[..n];
      var c := s[current];
      var d := DigitValue(ToLower(c));
      current := current + 1;
      LowerSame(c);
      if d < 0 || d >= base {
        RunEnds(s, start, base, current - 1);
        break;
      }
      NextInRun(s, start, base, current - 1);
      assert digits[..n + 1] == done + [c];
      n := n + 1;
      overflow, magnitude := AddDigit(overflow, magnitude, base, c, done);
    }
    assert n == |digits| && digits[..n] == digits;
  }

  /** One digit `c` more behind the digits `done`. */
  method AddDigit(overflow: bool, magnitude: nat, base: nat, c: char, ghost done: string)
    returns (over: bool, m: nat)
    requires 0 < base && 0 <= DigitValue(c)
    requires if overflow then ValueOf(done, base) > ULONG_MAX else magnitude == ValueOf(done, base) <= ULONG_MAX
    ensures if over then ValueOf(done + [c], base) > ULONG_MAX else m == ValueOf(done + [c], base) <= ULONG_MAX
  {
    hide ValueOf;
    var d := DigitValue(ToLower(c));
    over, m := overflow, magnitude;
    LowerSame(c);
    OneDigitMore(done, c, base);
    if overflow {
      StaysOver(done, [c], base);
    } else {
      Overflows(magnitude, d, base);
      if magnitude > (ULONG_MAX - d) / base {
        over := true;
      } else {
        m := magnitude * base + d;
      }
    }
  }

  lemma RunEnds(s: string, start: nat, base: int, i: nat)
    requires start <= i < |s| && i <= start + |DigitRun(s[start..], base)| && !(0 <= DigitValue(s[i]) < base)
    ensures i == start + |DigitRun(s[start..], base)|
  {
    assert s[start..][i - start] == s[i];
  }

  lemma NoDigitsYet(base: int)
    ensures 0 < base ==> ValueOf([], base) == 0
  {
  }

  lemma LowerSame(c: char)
    ensures DigitValue(ToLower(c)) == DigitValue(c)
  {
  }

  lemma NextInRun(s: string, start: nat, base: int, i: nat)
    requires start <= i < |s| && i <= start + |DigitRun(s[start..], base)| && 0 <= DigitValue(s[i]) < base
    ensures i < start + |DigitRun(s[start..], base)| && DigitRun(s[start..], base)[i - start] == s[i]
  {
    assert s[start..][i - start] == s[i];
  }

  method ScanSign(s: string, at: nat) returns (sign: bool, current: nat)
    requires at <= |s|
    ensures sign <==> at < |s| && s[at] == '-'
    ensures current <= |s| && s[current..] == AfterSign(s[at..])
  {
    sign, current := false, at;
    if At(s, at) == '+' {
      current := at + 1;
    } else if At(s, at) == '-' {
      sign := true;
      current := at + 1;
    }
  }

  /** Without a base the text's own prefix decides. */
  method ScanPrefix(s: string, at: nat, base0: int) returns (base: int, current: nat)
    requires at <= |s|
    ensures current <= |s| && s[current..] == AfterPrefix(s[at..], base0) && base == BaseOf(s[at..], base0)
  {
    base, current := base0, at;
    if base == 0 {
      if At(s, at) == '0' && ToLower(At(s, at + 1)) == 'x' {
        base := 16;
        current := at + 2;
      } else if At(s, at) == '0' {
        base := 8;
      } else {
        base := 10;
      }
    }
  }

  /**
    `strto`, for bases up to 36. `end` is behind the digits, and behind the character that
    stopped them, also where there are no digits: it is where C wants it if and only if
    nothing follows the digits, and they do not stand behind a prefix that C would not take.
   */
  method Strto(s: string, base0: int) returns (r: StrToResult, end: nat)
    requires IsCString(s)
    ensures r.sign == IsNegative(s)
    ensures r.overflow <==> Magnitude(s, base0) > ULONG_MAX
    ensures !r.overflow ==> r.magnitude == Magnitude(s, base0)
    ensures end == ScanEnd(s, base0) <= |s|
    ensures IsBase(base0) ==> (end == NumberEnd(s, base0) <==> AfterNumber(s, base0) == [] && !BareHexPrefix(s, base0))
  {
    hide SkipSpaces, DigitRun, ValueOf, NumberEnd, AfterNumber, ScanEnd, BareHexPrefix, Magnitude, IsNegative;
    var current, sign, base := 0, false, 0;
    assert s[0..] == s;
    while IsSpace(At(s, current))
      invariant 0 <= current <= |s| && SkipSpaces(s[current..]) == SkipSpaces(s)
      decreases |s| - current
    {
      OneSpaceLess(s, current);
      current := current + 1;
    }
    NoSpace(s, current);
    SignOf(s, s[current..]);
    sign, current := ScanSign(s, current);
    base, current := ScanPrefix(s, current, base0);
    var checkpoint := current;
    var overflow, magnitude;
    overflow, magnitude, current := ScanDigits(s, current, base);
    r := StrToResult(overflow, sign, magnitude);
    end := if current == checkpoint then 0 else current;
    Scanned(s, base0, checkpoint, base, r, current);
    if IsBase(base0) {
      EndAgrees(s, base0);
    }
  }

  /** What scanning the digits from behind the prefix on amounts to. */
  lemma Scanned(s: string, base0: int, start: nat, base: int, r: StrToResult, current: nat)
    requires start <= |s| && current <= |s|
    requires s[start..] == AfterPrefix(AfterSign(SkipSpaces(s)), base0) && base == NumberBase(s, base0)
    requires var digits := DigitRun(s[start..], base);
            && (digits == [] ==> !r.overflow && r.magnitude == 0)
            && (digits != [] ==> 0 < base && (r.overflow <==> ValueOf(digits, base) > ULONG_MAX)
                                 && (!r.overflow ==> r.magnitude == ValueOf(digits, base)))
            && current == start + |digits| + (if start + |digits| < |s| then 1 else 0)
    ensures r.overflow <==> Magnitude(s, base0) > ULONG_MAX
    ensures !r.overflow ==> r.magnitude == Magnitude(s, base0)
    ensures var end := if current == start then 0 else current;
            end == ScanEnd(s, base0) <= |s|
  {
    hide SkipSpaces, DigitRun, ValueOf;
    NoDigitsYet(base);
    assert NumberDigits(s, base0) == DigitRun(s[start..], base);
    assert AfterNumber(s, base0) == s[start..][|NumberDigits(s, base0)|..];
  }

  lemma SignOf(s: string, t: string)
    requires t == SkipSpaces(s)
    ensures IsNegative(s) <==> t != [] && t[0] == '-'
  {
  }

  lemma OneSpaceLess(s: string, i: nat)
    requires i <= |s| && IsSpace(At(s, i))
    ensures i < |s| && SkipSpaces(s[i..]) == SkipSpaces(s[i + 1..])
  {
    assert s[i..][1..] == s[i + 1..];
  }

  lemma NoSpace(s: string, i: nat)
    requires i <= |s| && !IsSpace(At(s, i))
    ensures SkipSpaces(s[i..]) == s[i..]
  {
  }

  /** The text's true value, clamped to a long with ERANGE. */
  method Strtol(s: string, base: int) returns (r: int, errno: Errno)
    requires IsCString(s)
    ensures base > 36 ==> r == 0 && errno == EINVAL
    ensures base <= 36 ==> r == Clamped(TrueValue(s, base))
    ensures base <= 36 ==> errno == if r == TrueValue(s, base) then NoError else ERANGE
    ensures base <= 36 && TrueValue(s, base) > 0x7FFF_FFFF_FFFF_FFFF ==> r == 0x7FFF_FFFF_FFFF_FFFF && errno == ERANGE
    ensures base <= 36 && TrueValue(s, base) < -0x8000_0000_0000_0000 ==> r == -0x8000_0000_0000_0000 && errno == ERANGE
    ensures IsBase(base) ==>
              (r == Clamped(NumberValue(s, base)) <==> !(PrefixedInBase16(s, base) && NumberValue(s, base) != 0))
  {
    hide SkipSpaces, DigitRun, ValueOf, Magnitude, IsNegative, NumberValue, PrefixedInBase16, ScanEnd, AfterNumber;
    if IsBase(base) {
      ValueAgrees(s, base);
    }
    if base > 36 {
      return 0, EINVAL;
    }
    var res, end := Strto(s, base);
    if res.sign {
      if res.magnitude > LONG_MAX + 1 || res.overflow {
        return LONG_MIN, ERANGE;
      }
      var m: int := res.magnitude;
      return -m, NoError;
    } else {
      if res.magnitude > LONG_MAX || res.overflow {
        return LONG_MAX, ERANGE;
      }
      return res.magnitude, NoError;
    }
  }

  /** A negative text's value wraps round. */
  method Strtoul(s: string, base: int) returns (r: nat, errno: Errno)
    requires IsCString(s)
    ensures base > 36 ==> r == 0 && errno == EINVAL
    ensures base <= 36 ==> (errno == ERANGE <==> Magnitude(s, base) > ULONG_MAX) && errno != EINVAL
    ensures base <= 36 && errno == ERANGE ==> r == ULONG_MAX
    ensures base <= 36 && errno == NoError ==> r == TrueValue(s, base) % 0x1_0000_0000_0000_0000
    ensures IsBase(base) && errno == NoError && !PrefixedInBase16(s, base) ==>
              r == NumberValue(s, base) % 0x1_0000_0000_0000_0000
  {
    hide SkipSpaces, DigitRun, ValueOf, Magnitude, IsNegative, NumberValue, PrefixedInBase16, ScanEnd, AfterNumber;
    if IsBase(base) {
      ValueAgrees(s, base);
    }
    if base > 36 {
      return 0, EINVAL;
    }
    var res, end := Strto(s, base);
    if res.overflow {
      return ULONG_MAX, ERANGE;
    }
    if res.sign {
      r := if res.magnitude == 0 then 0 else 0x1_0000_0000_0000_0000 - res.magnitude;
    } else {
      r := res.magnitude;
    }
    errno := NoError;
  }

  /** The text is free of end marks, so the buffer holds it as a C string. */
  lemma PrintedIsCString(x: int, precision: nat, width: nat, f: Flags)
    requires IsLong(x) && Decimal(f)
    ensures IsCString(Printed(Abs(x), x < 0, 10, precision, width, f))
  {
    hide Printed, Converted, ValueOf, DigitValue;
    var k, z, m := FieldShape(x, precision, width, f);
    DigitsWithZeros(x, z, f);
    var n := Repeat('0', z) + Reverse(Converted(Abs(x), 10, f));
    forall i | 0 <= i < |n|
      ensures n[i] != '\0'
    {
      EndIsNoDigit(n[i]);
    }
  }

  lemma EndIsNoDigit(c: char)
    ensures 0 <= DigitValue(c) ==> c != '\0'
  {
  }

  /** Where the C string in the buffer ends. */
  method StringLength(buffer: array<char>, ghost text: string) returns (n: nat)
    requires |text| < buffer.Length && buffer[..|text|] == text && buffer[|text|] == '\0' && IsCString(text)
    ensures n == |text|
  {
    n := 0;
    while buffer[n] != '\0'
      invariant 0 <= n <= |text|
      decreases |text| - n
    {
      n := n + 1;
    }
    assert forall k :: 0 <= k < |text| ==> buffer[k] == text[k];
  }

  /** Print a long into a buffer that is large enough, end it, and read it back. */
  method PrintAndParse(x: int, precision: nat, width: nat, f: Flags, buffer: array<char>) returns (r: int, errno: Errno)
    requires IsLong(x) && Decimal(f)
    requires |Printed(Abs(x), x < 0, 10, precision, width, f)| < buffer.Length <= INT_MAX
    modifies buffer
    ensures r == x <==> !(x < 0 && (precision >= 32 || (f.zeroPad && !f.left && width >= 33)))
    ensures r == x ==> errno == NoError
  {
    hide Printed, TrueValue;
    ghost var text := Printed(Abs(x), x < 0, 10, precision, width, f);
    var output := new Gadget.ForBuffer(buffer);
    PrintInteger(output, if x < 0 then -x else x, x < 0, 10, precision, width, f);
    assert output.put == text by {
      assert [] + text == text;
    }
    output.AppendTermination();
    PrintedIsCString(x, precision, width, f);
    var n := StringLength(buffer, text);
    r, errno := Strtol(buffer[..n], 10);
    PrintedValue(x, precision, width, f);
    RoundTrip(x, precision, width, f);
  }
}
