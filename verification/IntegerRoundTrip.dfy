/**
  Printing an integer and reading the text back (custom_libc/printf.c, custom_libc/strtol.c).
 */
module IntegerRoundTrips {
  import opened IntegerTexts

  lemma {:induction false} SkipAll(k: int, t: string)
    ensures SkipSpaces(Repeat(' ', k) + t) == SkipSpaces(t)
    decreases k
  {
    if k <= 0 {
      assert Repeat(' ', k) + t == t;
    } else {
      RepeatFront(' ', k);
      assert (Repeat(' ', k) + t)[1..] == Repeat(' ', k - 1) + t;
      SkipAll(k - 1, t);
    }
  }

  lemma {:induction false} RunIs(n: string, m: int)
    requires forall k :: 0 <= k < |n| ==> 0 <= DigitValue(n[k]) < 10
    ensures DigitRun(n + Repeat(' ', m), 10) == n
    decreases |n|
  {
    var s := n + Repeat(' ', m);
    if n == [] {
      assert s == Repeat(' ', m);
    } else {
      assert s[1..] == n[1..] + Repeat(' ', m);
      RunIs(n[1..], m);
    }
  }

  lemma SkipNone(t: string)
    requires t != [] && !IsSpace(t[0])
    ensures SkipSpaces(t) == t
  {
  }

  lemma SkipToEnd(m: int)
    ensures SkipSpaces(Repeat(' ', m)) == []
  {
    SkipAll(m, []);
    assert Repeat(' ', m) + [] == Repeat(' ', m);
  }

  /** Digits are read as they are, whatever spaces are around them. */
  lemma UnsignedRead(n: string, k: int, m: int)
    requires forall i :: 0 <= i < |n| ==> 0 <= DigitValue(n[i]) < 10
    ensures var s := Repeat(' ', k) + (n + Repeat(' ', m)); NumberDigits(s, 10) == n && !IsNegative(s)
  {
    hide Repeat, SkipSpaces, DigitRun;
    var t := n + Repeat(' ', m);
    SkipAll(k, t);
    RunIs(n, m);
    if n == [] {
      assert t == Repeat(' ', m);
      SkipToEnd(m);
      NothingToRun();
    } else {
      assert t[0] == n[0];
      DigitNoSpace(n[0]);
      SkipNone(t);
    }
  }

  lemma NothingToRun()
    ensures DigitRun([], 10) == []
  {
  }

  lemma DigitNoSpace(c: char)
    requires 0 <= DigitValue(c) < 10
    ensures !IsSpace(c) && c != '-' && c != '+'
  {
  }

  /** A sign in front of the digits decides. */
  lemma SignedRead(c: char, n: string, k: int, m: int)
    requires c == '+' || c == '-'
    requires forall i :: 0 <= i < |n| ==> 0 <= DigitValue(n[i]) < 10
    ensures var s := Repeat(' ', k) + ([c] + (n + Repeat(' ', m)));
            NumberDigits(s, 10) == n && (IsNegative(s) <==> c == '-')
  {
    var t := [c] + (n + Repeat(' ', m));
    SkipAll(k, t);
    assert SkipSpaces(t) == t && t[1..] == n + Repeat(' ', m);
    RunIs(n, m);
  }

  lemma {:induction false} LeadingZeros(z: nat, d: string)
    ensures ValueOf(Repeat('0', z) + d, 10) == ValueOf(d, 10)
    decreases |d|, z
  {
    if d != [] {
      var s := Repeat('0', z) + d;
      assert s[..|s| - 1] == Repeat('0', z) + d[..|d| - 1];
      LeadingZeros(z, d[..|d| - 1]);
    } else if z > 0 {
      assert Repeat('0', z) + d == Repeat('0', z);
      assert Repeat('0', z)[..z - 1] == Repeat('0', z - 1) + [];
      LeadingZeros(z - 1, []);
    } else {
      assert Repeat('0', z) + d == d;
    }
  }

  lemma {:induction false} ReverseRepeat(c: char, n: nat)
    ensures Reverse(Repeat(c, n)) == Repeat(c, n)
  {
    assert forall k :: 0 <= k < n ==> Reverse(Repeat(c, n))[k] == Repeat(c, n)[k];
  }

  /** A long's absolute value. */
  function Abs(x: int): nat { if x < 0 then -x else x }

  predicate IsLong(x: int) { LONG_MIN <= x <= LONG_MAX }

  predicate Decimal(f: Flags) { !f.hash && !f.pointer && !f.uppercase }

  lemma DigitsOfZero()
    ensures Reverse(['0']) == ['0'] && ValueOf(['0'], 10) == 0 && DigitValue('0') == 0 && Digits(0, 10, false) == []
  {
    assert ['0'][..0] == [];
  }

  lemma ReverseHasSame(s: string)
    ensures (forall k :: 0 <= k < |s| ==> 0 <= DigitValue(s[k]) < 10) ==>
              forall k :: 0 <= k < |Reverse(s)| ==> 0 <= DigitValue(Reverse(s)[k]) < 10
  {
  }

  /** The decimal digits of a long, and what they stand for. */
  lemma DecimalDigits(x: int, f: Flags)
    requires IsLong(x) && Decimal(f)
    ensures var d := Converted(Abs(x), 10, f);
            && |d| <= 19 && ValueOf(Reverse(d), 10) == Abs(x)
            && forall k :: 0 <= k < |Reverse(d)| ==> 0 <= DigitValue(Reverse(d)[k]) < 10
  {
    hide Power10, Reverse, DigitValue, ValueOf, Digits;
    Power10Is19();
    DecimalLength(Abs(x), 19);
    DigitsRead(Abs(x), 10, false);
    DigitsAreDigits(Abs(x), 10, false);
    DigitsOfZero();
    NoDigits(10);
    ReverseHasSame(Converted(Abs(x), 10, f));
  }

  /** All of the buffer is taken by digits and zeros; the sign finds no room. */
  predicate SignDropped(negative: bool, precision: nat, width: nat, f: Flags) {
    precision >= BUFFER_SIZE || (f.zeroPad && !f.left && FieldWidth(width, negative, f) >= BUFFER_SIZE)
  }

  /** The sign character, if any. */
  function SignOf(negative: bool, f: Flags): string {
    if negative then "-" else if f.plus then "+" else if f.space then " " else ""
  }

  /** In decimal the buffer holds digits, zeros and, if there is room, the sign. */
  lemma FinishedIs(buf: string, negative: bool, precision: nat, width: nat, f: Flags)
    requires |buf| < BUFFER_SIZE && !f.hash && !f.pointer
    ensures Finished(buf, negative, 10, precision, width, f)
            == Padded(buf, negative, precision, width, f)
               + if SignDropped(negative, precision, width, f) then "" else SignOf(negative, f)
  {
    hide ZeroPadded, Repeat, FieldWidth;
    var p := Padded(buf, negative, precision, width, f);
    assert p + "" == p;
  }

  /** Zeros fill up to the precision, and with `0` and no `-` up to the width less a column for a sign. */
  function FillTo(negative: bool, precision: nat, width: nat, f: Flags): (n: nat) {
    var w := if negative || f.plus || f.space then width - 1 else width;
    if f.zeroPad && !f.left && w > precision then w else precision
  }

  lemma PaddedLength(buf: string, negative: bool, precision: nat, width: nat, f: Flags)
    requires |buf| <= BUFFER_SIZE
    ensures var n, p := FillTo(negative, precision, width, f), Padded(buf, negative, precision, width, f);
            |p| == if n <= |buf| then |buf| else if n <= BUFFER_SIZE then n else BUFFER_SIZE
  {
    hide Repeat;
  }

  /** How many are missing. */
  function Missing(length: nat, upto: int): nat {
    if length < upto then upto - length else 0
  }

  lemma FieldIs(buf: string, width: nat, negative: bool, f: Flags)
    ensures Field(buf, FieldWidth(width, negative, f), f)
            == Repeat(' ', if f.left || f.zeroPad then 0 else Missing(|buf|, width)) + Reverse(buf)
               + Repeat(' ', if f.left then Missing(|buf|, width) else 0)
  {
    hide Reverse;
  }

  /** As many zeros as precision and zero-padded width ask for and the buffer holds. */
  lemma ZerosIs(buf: string, negative: bool, precision: nat, width: nat, f: Flags)
    requires |buf| <= BUFFER_SIZE
    ensures var n := FillTo(negative, precision, width, f);
            |Padded(buf, negative, precision, width, f)| - |buf|
            == Missing(|buf|, if n <= BUFFER_SIZE then n else BUFFER_SIZE)
  {
    PaddedLength(buf, negative, precision, width, f);
  }

  /** The number in the buffer, front to back: sign, zeros, digits. */
  lemma NumberIs(buf: string, negative: bool, precision: nat, width: nat, f: Flags) returns (z: nat)
    requires |buf| < BUFFER_SIZE && !f.hash && !f.pointer
    ensures var sign := if SignDropped(negative, precision, width, f) then "" else SignOf(negative, f);
            var fill := FillTo(negative, precision, width, f);
            && z == Missing(|buf|, if fill <= BUFFER_SIZE then fill else BUFFER_SIZE)
            && Reverse(Finished(buf, negative, 10, precision, width, f))
               == sign + (Repeat('0', z) + Reverse(buf))
  {
    hide Repeat, Padded, Reverse, Finished, SignDropped, FillTo;
    var p := Padded(buf, negative, precision, width, f);
    var sign := if SignDropped(negative, precision, width, f) then "" else SignOf(negative, f);
    FinishedIs(buf, negative, precision, width, f);
    ZerosIs(buf, negative, precision, width, f);
    z := |p| - |buf|;
    ReverseBoth(buf, Repeat('0', z));
    ReverseRepeat('0', z);
    ReverseBoth(p, sign);
    ReverseShort(sign);
  }

  /**
    The field, front to back: spaces, sign, zeros, digits, spaces. The zeros fill up to the
    precision or, with `0`, the width; the spaces fill up to the width, behind the number with
    `-` and before it without.
   */
  lemma FieldShape(x: int, precision: nat, width: nat, f: Flags) returns (k: nat, z: nat, m: nat)
    requires IsLong(x) && Decimal(f)
    ensures var digits := Reverse(Converted(Abs(x), 10, f));
            var sign := if SignDropped(x < 0, precision, width, f) then "" else SignOf(x < 0, f);
            var fill := FillTo(x < 0, precision, width, f);
            var n := |sign| + z + |digits|;
            && z == Missing(|digits|, if fill <= 32 then fill else 32)
            && k == (if f.left || f.zeroPad then 0 else Missing(n, width))
            && m == (if f.left then Missing(n, width) else 0)
            && Printed(Abs(x), x < 0, 10, precision, width, f)
               == Repeat(' ', k) + (sign + ((Repeat('0', z) + digits) + Repeat(' ', m)))
  {
    hide Converted, Repeat, ValueOf, DigitValue, Reverse, Finished, Field, SignDropped, FillTo;
    DecimalDigits(x, f);
    var buf := Converted(Abs(x), 10, f);
    var done := Finished(buf, x < 0, 10, precision, width, f);
    var sign := if SignDropped(x < 0, precision, width, f) then "" else SignOf(x < 0, f);
    z := NumberIs(buf, x < 0, precision, width, f);
    k := if f.left || f.zeroPad then 0 else Missing(|done|, width);
    m := if f.left then Missing(|done|, width) else 0;
    FieldIs(done, width, x < 0, f);
    JoinedField(Repeat(' ', k), sign, Repeat('0', z) + Reverse(buf), Repeat(' ', m));
  }

  lemma JoinedField(a: string, b: string, c: string, d: string)
    ensures a + (b + c) + d == a + (b + (c + d))
  {
  }

  lemma ReverseShort(s: string)
    requires |s| <= 1
    ensures Reverse(s) == s
  {
  }

  lemma NoRepeat(c: char)
    ensures Repeat(c, 0) == []
  {
  }

  lemma DigitsWithZeros(x: int, z: nat, f: Flags)
    requires IsLong(x) && Decimal(f)
    ensures var n := Repeat('0', z) + Reverse(Converted(Abs(x), 10, f));
            && ValueOf(n, 10) == Abs(x)
            && forall i :: 0 <= i < |n| ==> 0 <= DigitValue(n[i]) < 10
  {
    DecimalDigits(x, f);
    LeadingZeros(z, Reverse(Converted(Abs(x), 10, f)));
  }

  /** What the printed text of a long stands for: the long, or, with the minus sign dropped, its absolute value. */
  lemma PrintedValue(x: int, precision: nat, width: nat, f: Flags)
    requires IsLong(x) && Decimal(f)
    ensures TrueValue(Printed(Abs(x), x < 0, 10, precision, width, f), 10)
            == if SignDropped(x < 0, precision, width, f) then Abs(x) else x
  {
    hide Printed, Converted, Repeat, SkipSpaces, DigitRun, ValueOf, IsNegative;
    var k, z, m := FieldShape(x, precision, width, f);
    var n := Repeat('0', z) + Reverse(Converted(Abs(x), 10, f));
    DigitsWithZeros(x, z, f);
    var tail := n + Repeat(' ', m);
    var s := Printed(Abs(x), x < 0, 10, precision, width, f);
    if SignDropped(x < 0, precision, width, f) {
      assert "" + tail == tail;
      UnsignedRead(n, k, m);
    } else if x < 0 {
      SignedRead('-', n, k, m);
    } else if f.plus {
      SignedRead('+', n, k, m);
    } else if f.space {
      OneSpaceMore(k, tail);
      UnsignedRead(n, k + 1, m);
    } else {
      assert "" + tail == tail;
      UnsignedRead(n, k, m);
    }
  }

  lemma OneSpaceMore(k: nat, tail: string)
    ensures Repeat(' ', k) + (" " + tail) == Repeat(' ', k + 1) + tail
  {
    assert Repeat(' ', k + 1) == Repeat(' ', k) + " ";
  }

  /**
    For every long and every mix of flags, width and precision: `strtol` gives back what
    `print_integer` printed, unless the long is negative and padding zeros fill the buffer.
   */
  lemma RoundTrip(x: int, precision: nat, width: nat, f: Flags)
    requires IsLong(x) && Decimal(f)
    ensures Clamped(TrueValue(Printed(Abs(x), x < 0, 10, precision, width, f), 10)) == x
            <==> !(x < 0 && (precision >= 32 || (f.zeroPad && !f.left && width >= 33)))
  {
    PrintedValue(x, precision, width, f);
  }
}
