/**
  The text that section 7.21.6.1 of C17 asks for when an integer is converted, put together
  from the value on, and the exact condition under which `print_integer` writes it
  (custom_libc/printf.c).
 */
module IntegerFormats {
  import opened IntegerTexts
  import opened IntegerRoundTrips
  import opened IntegerStandards

  /** A value written in a base, without leading zeros; zero is one digit. */
  function Numeral(value: nat, base: nat, uppercase: bool): (s: string)
    requires 2 <= base <= 16
    ensures s != []
    decreases value
  {
    DivMod(value, base);
    if value < base then [(if uppercase then CAPITALS else LETTERS)[value]]
    else
      QuotientSmaller(value / base, base, value);
      Numeral(value / base, base, uppercase) + [(if uppercase then CAPITALS else LETTERS)[value % base]]
  }

  /** Zero with precision zero has no digits. */
  function Figures(value: nat, base: nat, precision: nat, f: Flags): string
    requires 2 <= base <= 16
  {
    if value == 0 && f.precision && precision == 0 then "" else Numeral(value, base, f.uppercase)
  }

  /**
    What the alternative form puts in front. Base 2 is not one of C17's; the program writes its
    prefix for a zero too, if a precision is given.
   */
  function BasePrefix(value: nat, base: nat, f: Flags): string {
    if !(f.hash || f.pointer) then ""
    else if base == 16 && value != 0 then (if f.uppercase then "0X" else "0x")
    else if base == 2 && (value != 0 || f.precision) then "0b"
    else ""
  }

  /** Zeros that the precision asks for; the alternative form of an octal begins with one at least. */
  function PrecisionZeros(value: nat, base: nat, precision: nat, f: Flags): (z: nat)
    requires 2 <= base <= 16
  {
    var s := Figures(value, base, precision, f);
    if precision > |s| then precision - |s|
    else if base == 8 && f.hash && !(s != [] && s[0] == '0') then 1
    else 0
  }

  function LengthNoZeros(value: nat, negative: bool, base: nat, precision: nat, f: Flags): nat
    requires 2 <= base <= 16
  {
    |SignOf(negative, f)| + |BasePrefix(value, base, f)| + |Figures(value, base, precision, f)|
  }

  /** With `0` and no `-`, zeros behind sign and prefix fill the field. */
  function ZeroCount(value: nat, negative: bool, base: nat, precision: nat, width: nat, f: Flags): (z: nat)
    requires 2 <= base <= 16
  {
    var z := PrecisionZeros(value, base, precision, f);
    var n := LengthNoZeros(value, negative, base, precision, f);
    if f.zeroPad && !f.left && n + z < width then width - n else z
  }

  /** Prefix, zeros and digits. */
  function Unsigned(value: nat, negative: bool, base: nat, precision: nat, width: nat, f: Flags): string
    requires 2 <= base <= 16
  {
    BasePrefix(value, base, f)
    + (Repeat('0', ZeroCount(value, negative, base, precision, width, f)) + Figures(value, base, precision, f))
  }

  /** The number without the spaces around it. */
  function Number(value: nat, negative: bool, base: nat, precision: nat, width: nat, f: Flags): string
    requires 2 <= base <= 16
  {
    SignOf(negative, f) + Unsigned(value, negative, base, precision, width, f)
  }

  /** Spaces in front of the number, or with `-` behind it, up to the width. */
  function Spaced(n: string, width: nat, f: Flags): string {
    if f.left then n + Repeat(' ', width - |n|) else Repeat(' ', width - |n|) + n
  }

  /** The whole field. */
  function Standard(value: nat, negative: bool, base: nat, precision: nat, width: nat, f: Flags): string
    requires 2 <= base <= 16
  {
    Spaced(Number(value, negative, base, precision, width, f), width, f)
  }

  /** What the format parser sees to before it calls `print_integer`. */
  predicate Conversion(value: nat, base: nat, precision: nat, f: Flags) {
    && (base == 2 || base == 8 || base == 10 || base == 16)
    && (base == 10 ==> !f.hash)
    && (f.precision ==> !f.zeroPad)
    && (!f.precision ==> precision == 0)
    && (f.pointer ==> base == 16 && value != 0)
  }

  // --- Digits ---

  lemma SymbolIs(d: nat, uppercase: bool)
    requires d < 16
    ensures DigitChar(d, uppercase) == (if uppercase then CAPITALS else LETTERS)[d]
  {
  }

  lemma {:induction false} NumeralIs(value: nat, base: nat, uppercase: bool)
    requires 2 <= base <= 16 && value > 0
    ensures Reverse(Digits(value, base, uppercase)) == Numeral(value, base, uppercase)
    decreases value
  {
    hide DigitChar, Quotient, Remainder, Numeral;
    var q, d := Quotient(value, base), DigitChar(Remainder(value, base), uppercase);
    assert ([d] + Digits(q, base, uppercase))[1..] == Digits(q, base, uppercase);
    NumeralStep(value, base, uppercase);
    if value >= base {
      NumeralIs(q, base, uppercase);
    }
  }

  /** The last digit comes behind the digits of the quotient. */
  lemma NumeralStep(value: nat, base: nat, uppercase: bool)
    requires 2 <= base <= 16 && value > 0
    ensures var q, d := Quotient(value, base), DigitChar(Remainder(value, base), uppercase);
            if value < base then q == 0 && Numeral(value, base, uppercase) == [d]
            else q > 0 && Numeral(value, base, uppercase) == Numeral(q, base, uppercase) + [d]
  {
    hide DigitChar;
    SymbolIs(Remainder(value, base), uppercase);
    if value < base {
      SmallQuotient(value, base);
    } else {
      BigQuotient(value, base);
    }
  }

  lemma SmallQuotient(value: nat, base: nat)
    requires value < base
    ensures value / base == 0 && value % base == value
  {
  }

  lemma BigQuotient(value: nat, base: nat)
    requires 0 < base <= value
    ensures value / base > 0
  {
  }

  /** The digits are all there if they fit, and the text's first one is no zero unless the value is. */
  lemma ConvertedIs(value: nat, base: nat, precision: nat, f: Flags)
    requires 2 <= base <= 16 && |Figures(value, base, precision, f)| <= BUFFER_SIZE
    requires !f.precision ==> precision == 0
    ensures var buf, s := Converted(value, base, f), Figures(value, base, precision, f);
            if value == 0 && f.precision then buf == [] && s == (if precision == 0 then "" else "0")
            else Reverse(buf) == s && |buf| == |s| && buf != []
  {
    hide DigitChar, Quotient, Remainder;
    if value > 0 {
      NumeralIs(value, base, f.uppercase);
    } else {
      ZeroDigit();
    }
  }

  lemma ZeroDigit()
    ensures DigitChar(0, false) == '0' && Reverse(['0']) == ['0']
    ensures forall base, uppercase :: 2 <= base <= 16 ==> Numeral(0, base, uppercase) == "0"
  {
  }

  lemma {:induction false} NoLeadingZero(value: nat, base: nat, uppercase: bool)
    requires 2 <= base <= 16 && value > 0
    ensures Numeral(value, base, uppercase)[0] != '0'
    decreases value
  {
    if value >= base {
      BigQuotient(value, base);
      QuotientSmaller(value / base, base, value);
      NoLeadingZero(value / base, base, uppercase);
    }
  }

  // --- Zeros and prefix in the buffer ---

  /** Padding zeros given up again for a prefix. */
  function GivenUp(length: nat, z: nat, base: nat, precision: nat, w: nat, f: Flags): nat {
    if f.precision || length + z == 0 || !(length + z == precision || length + z == w) then 0
    else if (base == 16 || base == 2) && z >= 2 then 2
    else if z >= 1 then 1
    else 0
  }

  lemma RepeatCut(buf: string, z: nat, t: nat)
    requires t <= z
    ensures (buf + Repeat('0', z))[..|buf| + z - t] == buf + Repeat('0', z - t)
  {
  }

  lemma TakenBackCuts(p: string, n: nat, base: nat, precision: nat, w: nat, f: Flags)
    requires n <= |p|
    ensures var t := GivenUp(n, |p| - n, base, precision, w, f);
            t <= |p| - n && TakenBack(p, n, base, precision, w, f) == p[..|p| - t]
  {
    assert p[..|p|] == p;
    if |p| >= 2 {
      assert p[..|p| - 1][..|p| - 2] == p[..|p| - 2];
    }
  }

  lemma TakenBackIs(buf: string, z: nat, base: nat, precision: nat, w: nat, f: Flags)
    ensures var t := GivenUp(|buf|, z, base, precision, w, f);
            t <= z && TakenBack(buf + Repeat('0', z), |buf|, base, precision, w, f) == buf + Repeat('0', z - t)
  {
    hide TakenBack, GivenUp;
    TakenBackCuts(buf + Repeat('0', z), |buf|, base, precision, w, f);
    RepeatCut(buf, z, GivenUp(|buf|, z, base, precision, w, f));
  }

  /** The prefix as it goes into the buffer, last character first. */
  lemma PrefixPut(buf: string, z: nat, base: nat, precision: nat, w: nat, f: Flags)
    requires |buf| + z <= BUFFER_SIZE && (f.hash || f.pointer)
    ensures var zeros := z - GivenUp(|buf|, z, base, precision, w, f);
            var prefix := if base == 16 then (if f.uppercase then "X0" else "x0") else if base == 2 then "b0" else "0";
            zeros >= 0 &&
            (|buf| + zeros + |prefix| <= BUFFER_SIZE ==>
               BasePrefixed(buf + Repeat('0', z), |buf|, base, precision, w, f)
               == buf + Repeat('0', zeros) + prefix)
  {
    hide TakenBack, GivenUp, Repeat;
    TakenBackIs(buf, z, base, precision, w, f);
  }

  /** What `print_integer` has in its buffer before the sign. */
  function Body(value: nat, negative: bool, base: nat, precision: nat, width: nat, f: Flags): string
    requires 2 <= base <= 16
  {
    var buf, g := Converted(value, base, f), HashKept(value, base, f);
    var p := Padded(buf, negative, precision, width, g);
    BasePrefixed(p, |buf|, base, precision, FieldWidth(width, negative, g),
                 HashAfterPadding(base, g, |buf| < |p|))
  }

  lemma FirstFigure(value: nat, base: nat, precision: nat, f: Flags)
    requires 2 <= base <= 16
    ensures var s := Figures(value, base, precision, f);
            (s != [] && s[0] == '0' <==> value == 0 && !(f.precision && precision == 0)) && (s == [] ==> value == 0)
  {
    if value > 0 {
      NoLeadingZero(value, base, f.uppercase);
    } else {
      ZeroDigit();
    }
  }

  /** Whether a prefix or an octal's zero still has to be put. */
  predicate Alternative(value: nat, negative: bool, base: nat, precision: nat, width: nat, f: Flags)
    requires 2 <= base <= 16
  {
    var buf, g := Converted(value, base, f), HashKept(value, base, f);
    var h := HashAfterPadding(base, g, |buf| < |Padded(buf, negative, precision, width, g)|);
    h.hash || h.pointer
  }

  lemma NoAlternative(value: nat, negative: bool, base: nat, precision: nat, width: nat, f: Flags)
    requires Conversion(value, base, precision, f) && !Alternative(value, negative, base, precision, width, f)
    requires |Unsigned(value, negative, base, precision, width, f)| <= BUFFER_SIZE
    ensures BasePrefix(value, base, f) == ""
    ensures var buf := Converted(value, base, f);
            |Padded(buf, negative, precision, width, HashKept(value, base, f))|
            == |Figures(value, base, precision, f)| + ZeroCount(value, negative, base, precision, width, f)
  {
    hide Figures, Converted, Padded, Numeral, Repeat;
    FirstFigure(value, base, precision, f);
    ConvertedIs(value, base, precision, f);
    PaddedLength(Converted(value, base, f), negative, precision, width, HashKept(value, base, f));
  }

  lemma SomeAlternative(value: nat, negative: bool, base: nat, precision: nat, width: nat, f: Flags)
    requires Conversion(value, base, precision, f) && Alternative(value, negative, base, precision, width, f)
    requires |Unsigned(value, negative, base, precision, width, f)| <= BUFFER_SIZE
    ensures base != 10 && (base == 8 <==> BasePrefix(value, base, f) == "")
    ensures var buf, g := Converted(value, base, f), HashKept(value, base, f);
            var b, p := |buf|, Padded(buf, negative, precision, width, g);
            |Figures(value, base, precision, f)| + ZeroCount(value, negative, base, precision, width, f)
            == |p| - GivenUp(b, |p| - b, base, precision, FieldWidth(width, negative, g), g)
               + if base == 8 then 1 else 0
  {
    hide Figures, Converted, Padded, Numeral, Repeat;
    FirstFigure(value, base, precision, f);
    ConvertedIs(value, base, precision, f);
    PaddedLength(Converted(value, base, f), negative, precision, width, HashKept(value, base, f));
  }

  lemma ReversedParts(buf: string, z: nat, prefix: string)
    ensures Reverse(buf + Repeat('0', z) + prefix) == Reverse(prefix) + (Repeat('0', z) + Reverse(buf))
  {
    hide Reverse, Repeat;
    ReverseBoth(buf + Repeat('0', z), prefix);
    ReverseBoth(buf, Repeat('0', z));
    ReverseRepeat('0', z);
  }

  lemma ZerosAndFigures(value: nat, base: nat, precision: nat, f: Flags, z: nat)
    requires 2 <= base <= 16 && |Figures(value, base, precision, f)| <= BUFFER_SIZE
    requires !f.precision ==> precision == 0
    ensures var buf, s := Converted(value, base, f), Figures(value, base, precision, f);
            |buf| <= |s| && Repeat('0', z + |s| - |buf|) + Reverse(buf) == Repeat('0', z) + s
  {
    hide Figures, Converted;
    ConvertedIs(value, base, precision, f);
    assert Reverse([]) == [];
  }

  lemma PrefixReversed()
    ensures Reverse("x0") == "0x" && Reverse("X0") == "0X" && Reverse("b0") == "0b" && Reverse("0") == "0"
    ensures Reverse("") == ""
  {
    assert "x0"[1..] == "0" && "X0"[1..] == "0" && "b0"[1..] == "0";
  }

  /** The zero that makes an octal's alternative form counts with the padding zeros. */
  lemma ZeroInFront(z: nat, s: string)
    ensures "0" + (Repeat('0', z) + s) == Repeat('0', z + 1) + s
  {
    RepeatFront('0', z + 1);
  }

  lemma BodyPlain(value: nat, negative: bool, base: nat, precision: nat, width: nat, f: Flags)
    requires Conversion(value, base, precision, f) && !Alternative(value, negative, base, precision, width, f)
    requires |Unsigned(value, negative, base, precision, width, f)| <= BUFFER_SIZE
    ensures Reverse(Body(value, negative, base, precision, width, f))
            == Unsigned(value, negative, base, precision, width, f)
  {
    hide Figures, Converted, Padded, Numeral, Repeat, ZeroCount, Reverse, BasePrefix;
    NoAlternative(value, negative, base, precision, width, f);
    var buf := Converted(value, base, f);
    var p := Padded(buf, negative, precision, width, HashKept(value, base, f));
    ReversedParts(buf, |p| - |buf|, "");
    assert buf + Repeat('0', |p| - |buf|) + "" == p;
    PrefixReversed();
    ZerosAndFigures(value, base, precision, f, ZeroCount(value, negative, base, precision, width, f));
  }

  lemma BodyAlternative(value: nat, negative: bool, base: nat, precision: nat, width: nat, f: Flags)
    requires Conversion(value, base, precision, f) && Alternative(value, negative, base, precision, width, f)
    requires |Unsigned(value, negative, base, precision, width, f)| <= BUFFER_SIZE
    ensures Reverse(Body(value, negative, base, precision, width, f))
            == Unsigned(value, negative, base, precision, width, f)
  {
    hide Figures, Converted, Padded, Numeral, Repeat, ZeroCount, Reverse, BasePrefixed, GivenUp;
    SomeAlternative(value, negative, base, precision, width, f);
    var buf, g := Converted(value, base, f), HashKept(value, base, f);
    var p, w := Padded(buf, negative, precision, width, g), FieldWidth(width, negative, g);
    var zeros := |p| - |buf| - GivenUp(|buf|, |p| - |buf|, base, precision, w, g);
    var z := ZeroCount(value, negative, base, precision, width, f);
    PrefixPut(buf, |p| - |buf|, base, precision, w, g);
    PrefixReversed();
    ZerosAndFigures(value, base, precision, f, z);
    if base == 8 {
      ReversedParts(buf, zeros, "0");
      ZeroInFront(zeros, Reverse(buf));
    } else {
      ReversedParts(buf, zeros, if base == 16 then (if g.uppercase then "X0" else "x0") else "b0");
    }
  }

  /** What is in the buffer before the sign is the number without its sign, if that fits. */
  lemma BodyIs(value: nat, negative: bool, base: nat, precision: nat, width: nat, f: Flags)
    requires Conversion(value, base, precision, f)
    requires |Unsigned(value, negative, base, precision, width, f)| <= BUFFER_SIZE
    ensures Reverse(Body(value, negative, base, precision, width, f))
            == Unsigned(value, negative, base, precision, width, f)
  {
    hide Body, Unsigned;
    if Alternative(value, negative, base, precision, width, f) {
      BodyAlternative(value, negative, base, precision, width, f);
    } else {
      BodyPlain(value, negative, base, precision, width, f);
    }
  }

  // --- The field ---

  lemma SignPut(body: string, negative: bool, f: Flags)
    requires |body| <= BUFFER_SIZE
    ensures Reverse(Signed(body, negative, f))
            == (if |body| < BUFFER_SIZE then SignOf(negative, f) else "") + Reverse(body)
  {
    hide Reverse;
    ReverseBoth(body, SignOf(negative, f));
    ReverseShort(SignOf(negative, f));
    assert "" + Reverse(body) == Reverse(body);
  }

  lemma FieldText(buf: string, width: nat, f: Flags)
    ensures var n := Reverse(buf);
            Field(buf, width, f) == if f.zeroPad && !f.left then n else Spaced(n, width, f)
  {
  }

  lemma FinishedBody(value: nat, negative: bool, base: nat, precision: nat, width: nat, f: Flags)
    requires 2 <= base <= 16
    ensures |Body(value, negative, base, precision, width, f)| <= BUFFER_SIZE
    ensures Printed(value, negative, base, precision, width, f)
            == Field(Signed(Body(value, negative, base, precision, width, f), negative, HashKept(value, base, f)),
                     FieldWidth(width, negative, f), f)
  {
    hide Repeat, Converted, Padded, BasePrefixed, Signed, Field;
  }

  /** The whole text from what stands in the buffer before the sign. */
  lemma PrintedFrom(value: nat, negative: bool, base: nat, precision: nat, width: nat, f: Flags)
    requires 2 <= base <= 16
    ensures var u := Reverse(Body(value, negative, base, precision, width, f));
            var n := (if |u| < BUFFER_SIZE then SignOf(negative, f) else "") + u;
            && |n| <= BUFFER_SIZE
            && Printed(value, negative, base, precision, width, f)
               == if f.zeroPad && !f.left then n else Spaced(n, width, f)
  {
    hide Reverse, Repeat, Body, Field, Signed, Printed;
    FinishedBody(value, negative, base, precision, width, f);
    var body := Body(value, negative, base, precision, width, f);
    SignPut(body, negative, HashKept(value, base, f));
    FieldText(Signed(body, negative, HashKept(value, base, f)), FieldWidth(width, negative, f), f);
  }

  /** Filled up with zeros there is no room for spaces. */
  lemma ZerosFill(value: nat, negative: bool, base: nat, precision: nat, width: nat, f: Flags)
    requires 2 <= base <= 16
    ensures |Number(value, negative, base, precision, width, f)|
            == LengthNoZeros(value, negative, base, precision, f)
               + ZeroCount(value, negative, base, precision, width, f)
    ensures f.zeroPad && !f.left ==> |Number(value, negative, base, precision, width, f)| >= width
  {
    hide Figures, BasePrefix, PrecisionZeros, Repeat;
  }

  lemma SpacedFull(n: string, width: nat, f: Flags)
    ensures |n| >= width ==> Spaced(n, width, f) == n
  {
  }

  lemma FitsAsStandard(value: nat, negative: bool, base: nat, precision: nat, width: nat, f: Flags)
    requires Conversion(value, base, precision, f)
    requires |Number(value, negative, base, precision, width, f)| <= BUFFER_SIZE
    ensures Printed(value, negative, base, precision, width, f)
            == Standard(value, negative, base, precision, width, f)
  {
    hide Printed, Body, Unsigned, Repeat, Spaced, Reverse;
    BodyIs(value, negative, base, precision, width, f);
    PrintedFrom(value, negative, base, precision, width, f);
    ZerosFill(value, negative, base, precision, width, f);
    SpacedFull(Number(value, negative, base, precision, width, f), width, f);
    var u := Unsigned(value, negative, base, precision, width, f);
    assert "" + u == u;
  }

  lemma NoSpace(value: nat, base: nat, uppercase: bool)
    requires 2 <= base <= 16
    ensures forall k :: 0 <= k < |Numeral(value, base, uppercase)| ==> Numeral(value, base, uppercase)[k] != ' '
    decreases value
  {
    DivMod(value, base);
    if value >= base {
      QuotientSmaller(value / base, base, value);
      NoSpace(value / base, base, uppercase);
    }
  }

  lemma UnsignedNoSpace(value: nat, negative: bool, base: nat, precision: nat, width: nat, f: Flags)
    requires 2 <= base <= 16
    ensures var u := Unsigned(value, negative, base, precision, width, f);
            forall k :: 0 <= k < |u| ==> u[k] != ' '
  {
    hide ZeroCount, Repeat, Numeral;
    NoSpace(value, base, f.uppercase);
  }

  /** Text with a longer number in it has no space where the shorter one has a space already. */
  lemma LongerDiffers(n: string, m: string, sign: string, u: string, width: nat, f: Flags)
    requires n == sign + u && |sign| <= 1 && |m| < |n| && |n| > 2
    requires forall k :: 0 <= k < |u| ==> u[k] != ' '
    requires f.zeroPad && !f.left ==> |n| >= width
    ensures Spaced(n, width, f) == (if f.zeroPad && !f.left then m else Spaced(m, width, f))
            <==> sign == " " && m == u && !f.left && !f.zeroPad && width >= |n|
  {
    if f.left {
      var a, b := Spaced(n, width, f), Spaced(m, width, f);
      assert a[|n| - 1] != ' ';
      assert |m| <= |n| - 1 < |b| ==> b[|n| - 1] == ' ';
    } else if !f.zeroPad {
      LongerDiffersRight(n, m, sign, u, width);
    }
  }

  lemma LongerDiffersRight(n: string, m: string, sign: string, u: string, width: nat)
    requires n == sign + u && |sign| <= 1 && |m| < |n| && |n| > 2
    requires forall k :: 0 <= k < |u| ==> u[k] != ' '
    ensures Repeat(' ', width - |n|) + n == Repeat(' ', width - |m|) + m
            <==> sign == " " && m == u && width >= |n|
  {
    var a, b := Repeat(' ', width - |n|) + n, Repeat(' ', width - |m|) + m;
    if |a| == |b| {
      var k := |a| - |n|;
      assert a[k] == n[0] && a[k + 1] == n[1] && b[k] == ' ';
      assert n[1] != ' ';
      if |m| + 1 == |n| && sign == " " {
        assert a[k + 1..] == u && b[k + 1..] == m;
        if m == u {
          OneSpaceMore(k, u);
        }
      }
    }
  }

  lemma SignShort(negative: bool, f: Flags)
    ensures |SignOf(negative, f)| <= 1
    ensures SignOf(negative, f) == " " <==> !negative && !f.plus && f.space
  {
  }

  /** If the number does not fit, the text is the shorter of the two, but for a space in place of a plus sign. */
  lemma TooLongDiffers(value: nat, negative: bool, base: nat, precision: nat, width: nat, f: Flags)
    requires Conversion(value, base, precision, f)
    requires |Number(value, negative, base, precision, width, f)| > BUFFER_SIZE
    ensures Printed(value, negative, base, precision, width, f)
            == Standard(value, negative, base, precision, width, f)
            <==> && |Number(value, negative, base, precision, width, f)| == BUFFER_SIZE + 1
                 && SignOf(negative, f) == " " && !f.left && !f.zeroPad && width > BUFFER_SIZE
  {
    hide Printed, Body, Unsigned, Repeat, Reverse, Spaced, SignOf;
    SignShort(negative, f);
    var u, sign := Unsigned(value, negative, base, precision, width, f), SignOf(negative, f);
    var v := Reverse(Body(value, negative, base, precision, width, f));
    var m := (if |v| < BUFFER_SIZE then sign else "") + v;
    if |u| <= BUFFER_SIZE {
      BodyIs(value, negative, base, precision, width, f);
      assert |u| == BUFFER_SIZE && m == u;
    }
    PrintedFrom(value, negative, base, precision, width, f);
    ZerosFill(value, negative, base, precision, width, f);
    UnsignedNoSpace(value, negative, base, precision, width, f);
    LongerDiffers(Number(value, negative, base, precision, width, f), m, sign, u, width, f);
  }

  /**
    For every value, base, precision, width and mix of flags the format parser lets through:
    `print_integer` writes the text C17 asks for exactly if the number fits into its buffer of
    32 characters; one more is harmless only if it is a space in place of a plus sign among
    padding spaces.
   */
  lemma PrintedAsStandard(value: nat, negative: bool, base: nat, precision: nat, width: nat, f: Flags)
    requires Conversion(value, base, precision, f)
    ensures Printed(value, negative, base, precision, width, f)
            == Standard(value, negative, base, precision, width, f)
            <==> var n := |Number(value, negative, base, precision, width, f)|;
                 n <= 32 || (n == 33 && !negative && !f.plus && f.space && !f.left && !f.zeroPad && width >= 33)
  {
    hide Printed, Standard, Number, SignOf;
    SignShort(negative, f);
    if |Number(value, negative, base, precision, width, f)| <= BUFFER_SIZE {
      FitsAsStandard(value, negative, base, precision, width, f);
    } else {
      TooLongDiffers(value, negative, base, precision, width, f);
    }
  }
}
