/**
  The loops of integer printing: digits and padding into a small buffer, then the buffer
  backwards through the output gadget (custom_libc/printf.c).
 */
module IntegerPrinters {
  import opened IntegerTexts

  const INT_MAX: nat := 0x7FFF_FFFF

  /** Where output goes: into a buffer, or to a function. It counts also what no longer fits. */
  class Gadget {
    const toFunction: bool
    const buffer: array<char>
    const maxChars: nat
    var pos: nat
    /** What the function was called with, call by call. */
    var given: string
    /** Every character put so far. */
    ghost var put: string

    ghost predicate Valid()
      reads this, buffer
    {
      && pos == |put|
      && given == (if toFunction then Fitting() else [])
      && (!toFunction ==> maxChars <= buffer.Length && buffer[..|Fitting()|] == Fitting())
    }

    lemma Counted()
      requires Valid()
      ensures pos == |put|
    {
    }

    /** As much of the output as is not cut off. */
    ghost function Fitting(): (s: string)
      reads this
    {
      if |put| < maxChars then put else put[..maxChars]
    }

    constructor ForBuffer(buffer: array<char>)
      ensures Valid() && !toFunction && this.buffer == buffer && put == []
      ensures maxChars == if buffer.Length > INT_MAX then INT_MAX else buffer.Length
    {
      toFunction, given := false, [];
      this.buffer, pos, put := buffer, 0, [];
      maxChars := if buffer.Length > INT_MAX then INT_MAX else buffer.Length;
    }

    constructor ForFunction()
      ensures Valid() && toFunction && fresh(buffer) && put == [] && maxChars == INT_MAX
    {
      toFunction, given := true, [];
      buffer, pos, put := new char[0], 0, [];
      maxChars := INT_MAX;
    }

    method PutChar(c: char)
      requires Valid()
      modifies this, buffer
      ensures Valid() && put == old(put) + [c]
      ensures given == if toFunction && |old(put)| < maxChars then old(given) + [c] else old(given)
      ensures !toFunction && |old(put)| < maxChars ==> buffer[|old(put)|] == c
      ensures forall k :: 0 <= k < buffer.Length && (toFunction || k >= maxChars) ==> buffer[k] == old(buffer[k])
    {
      var writePos := pos;
      pos := pos + 1;
      put := put + [c];
      if writePos >= maxChars {
        return;
      }
      if toFunction {
        given := given + [c];
      } else {
        buffer[writePos] := c;
      }
    }

    /** The buffer ends up holding the text, or as much of it as leaves room for the end mark; a function gets none. */
    method AppendTermination()
      requires Valid()
      modifies buffer
      ensures !toFunction && maxChars > 0 ==>
                var n := if pos < maxChars then pos else maxChars - 1;
                buffer[..n] == put[..n] && buffer[n] == '\0'
      ensures forall k :: 0 <= k < buffer.Length && (toFunction || k >= maxChars) ==> buffer[k] == old(buffer[k])
    {
      if toFunction || maxChars == 0 {
        return;
      }
      var nullCharPos := if pos < maxChars then pos else maxChars - 1;
      assert buffer[..nullCharPos] == put[..nullCharPos] by {
        assert buffer[..nullCharPos] == buffer[..|Fitting()|][..nullCharPos];
      }
      buffer[nullCharPos] := '\0';
    }
  }

  lemma NoneRepeated()
    ensures forall n: int :: n <= 0 ==> Repeat(' ', n) == []
    ensures Reverse([]) == []
  {
  }

  lemma OneMore(n: nat)
    ensures Repeat(' ', n + 1) == Repeat(' ', n) + [' ']
  {
  }

  lemma ReverseOne(c: char, s: string)
    ensures Reverse([c] + s) == Reverse(s) + [c]
  {
    assert ([c] + s)[1..] == s;
  }

  method PutReversed(output: Gadget, buf: array<char>, length: nat)
    requires output.Valid() && output.buffer != buf && length <= buf.Length
    modifies output, output.buffer
    ensures output.Valid() && output.put == old(output.put) + Reverse(buf[..length])
    ensures buf[..] == old(buf[..])
  {
    hide Reverse;
    NoneRepeated();
    ghost var text, put0 := buf[..length], output.put;
    var len := length;
    while len > 0
      invariant 0 <= len <= length
      invariant output.Valid() && buf[..] == old(buf[..])
      invariant output.put == put0 + Reverse(text[len..])
    {
      len := len - 1;
      output.PutChar(buf[len]);
      assert text[len..] == [text[len]] + text[len + 1..];
      ReverseOne(text[len], text[len + 1..]);
    }
    assert text[0..] == text;
  }

  /** The spaces in front of a field. */
  method PadFront(output: Gadget, length: nat, width: nat)
    requires output.Valid()
    modifies output, output.buffer
    ensures output.Valid() && output.put == old(output.put) + Repeat(' ', width - length)
  {
    hide Repeat, Gadget.Valid;
    NoneRepeated();
    ghost var put0 := output.put;
    var i := length;
    while i < width
      invariant length <= i && (i <= width || i == length)
      invariant output.Valid() && output.put == put0 + Repeat(' ', i - length)
    {
      output.PutChar(' ');
      OneMore(i - length);
      i := i + 1;
    }
  }

  /** The spaces behind a field that began at `startPos`. */
  method PadBack(output: Gadget, startPos: nat, width: nat)
    requires output.Valid() && startPos <= output.pos
    modifies output, output.buffer
    ensures output.Valid() && output.put == old(output.put) + Repeat(' ', width - (old(output.pos) - startPos))
  {
    hide Repeat, Gadget.Valid;
    NoneRepeated();
    output.Counted();
    ghost var n, put0, length := 0, output.put, output.pos - startPos;
    while output.pos - startPos < width
      invariant output.Valid() && n >= 0 && output.pos - startPos == length + n
      invariant length + n <= width || n == 0
      invariant output.put == put0 + Repeat(' ', n)
      decreases width - (output.pos - startPos)
    {
      output.Counted();
      output.PutChar(' ');
      output.Counted();
      OneMore(n);
      n := n + 1;
    }
    assert Repeat(' ', n) == Repeat(' ', width - length);
  }

  /** Output a field: the buffer reversed, spaces before or behind it. */
  method OutRev(output: Gadget, buf: array<char>, length: nat, width: nat, f: Flags)
    requires output.Valid() && output.buffer != buf && length <= buf.Length
    modifies output, output.buffer
    ensures output.Valid() && output.put == old(output.put) + Field(buf[..length], width, f)
  {
    hide Reverse, Repeat, Gadget.Valid;
    NoneRepeated();
    ghost var text, put0 := buf[..length], output.put;
    output.Counted();
    var startPos := output.pos;
    ghost var lead := if !f.left && !f.zeroPad then Repeat(' ', width - length) else [];
    if !f.left && !f.zeroPad {
      PadFront(output, length, width);
    }
    assert output.put == put0 + lead && buf[..length] == text;
    PutReversed(output, buf, length);
    output.Counted();
    if f.left {
      PadBack(output, startPos, width);
    }
    assert output.put == put0 + (lead + Reverse(text) + (if f.left then Repeat(' ', width - length) else []));
  }

  /** Zeros into the buffer. */
  method PadZeros(buf: array<char>, length: nat, upto: nat) returns (len: nat)
    requires buf.Length == BUFFER_SIZE && length <= BUFFER_SIZE
    modifies buf
    ensures len <= BUFFER_SIZE && buf[..len] == ZeroPadded(old(buf[..length]), upto)
  {
    len := length;
    while len < upto && len < BUFFER_SIZE
      invariant length <= len <= BUFFER_SIZE
      invariant ZeroPadded(buf[..len], upto) == ZeroPadded(old(buf[..length]), upto)
    {
      buf[len] := '0';
      assert buf[..len + 1] == buf[..len] + ['0'];
      len := len + 1;
    }
  }

  method PutIn(buf: array<char>, length: nat, c: char) returns (len: nat)
    requires buf.Length == BUFFER_SIZE && length <= BUFFER_SIZE
    modifies buf
    ensures len <= BUFFER_SIZE && buf[..len] == Put(old(buf[..length]), c)
  {
    len := length;
    if len < BUFFER_SIZE {
      buf[len] := c;
      len := len + 1;
      assert buf[..len] == old(buf[..length]) + [c];
    }
  }

  /** Zeros up to the width, then up to the precision; a column is kept for the sign. */
  method PadAll(buf: array<char>, length: nat, negative: bool, precision: nat, width: nat, flags: Flags)
    returns (len: nat, w: nat)
    requires buf.Length == BUFFER_SIZE && length <= BUFFER_SIZE
    modifies buf
    ensures w == FieldWidth(width, negative, flags) && len <= BUFFER_SIZE
    ensures buf[..len] == Padded(old(buf[..length]), negative, precision, width, flags)
  {
    hide ZeroPadded, Padded;
    ghost var digits := buf[..length];
    len, w := length, width;
    if !flags.left {
      if w > 0 && flags.zeroPad && (negative || flags.plus || flags.space) {
        w := w - 1;
      }
      if flags.zeroPad {
        len := PadZeros(buf, len, w);
      }
    }
    len := PadZeros(buf, len, precision);
    PaddedIs(digits, negative, precision, width, flags);
  }

  method PrintIntegerFinalization(output: Gadget, buf: array<char>, length: nat, negative: bool, base: nat,
                                  precision: nat, width: nat, flags: Flags)
    requires output.Valid() && output.buffer != buf && buf.Length == BUFFER_SIZE && length <= BUFFER_SIZE
    modifies output, output.buffer, buf
    ensures output.Valid()
    ensures output.put == old(output.put)
              + Field(Finished(old(buf[..length]), negative, base, precision, width, flags),
                      FieldWidth(width, negative, flags), flags)
  {
    hide ZeroPadded, Padded, BasePrefixed, Signed, Field, Reverse, Repeat;
    var unpaddedLen, f := length, flags;
    var len, w := PadAll(buf, length, negative, precision, width, flags);
    if base == 8 && len > unpaddedLen {
      f := f.(hash := false);
    }
    len := PutPrefix(buf, len, unpaddedLen, base, precision, w, f);
    SignedAlike(buf[..len], negative, f, flags);
    len := PutSign(buf, len, negative, f);
    FieldAlike(buf[..len], w, f, flags);
    OutRev(output, buf, len, w, f);
  }

  lemma PaddedIs(buf: string, negative: bool, precision: nat, width: nat, f: Flags)
    requires |buf| <= BUFFER_SIZE
    ensures Padded(buf, negative, precision, width, f)
            == ZeroPadded(if !f.left && f.zeroPad then ZeroPadded(buf, FieldWidth(width, negative, f)) else buf,
                          precision)
  {
  }

  lemma SignedAlike(buf: string, negative: bool, f: Flags, g: Flags)
    requires |buf| <= BUFFER_SIZE && f.plus == g.plus && f.space == g.space
    ensures Signed(buf, negative, f) == Signed(buf, negative, g)
  {
  }

  lemma FieldAlike(buf: string, w: nat, f: Flags, g: Flags)
    requires f.left == g.left && f.zeroPad == g.zeroPad
    ensures Field(buf, w, f) == Field(buf, w, g)
  {
  }

  method PutSign(buf: array<char>, length: nat, negative: bool, f: Flags) returns (len: nat)
    requires buf.Length == BUFFER_SIZE && length <= BUFFER_SIZE
    modifies buf
    ensures len <= BUFFER_SIZE && buf[..len] == Signed(old(buf[..length]), negative, f)
  {
    len := length;
    if len < BUFFER_SIZE {
      if negative {
        len := PutIn(buf, len, '-');
      } else if f.plus {
        len := PutIn(buf, len, '+');
      } else if f.space {
        len := PutIn(buf, len, ' ');
      }
    }
  }

  /** The base prefix of the alternative form. */
  method PutPrefix(buf: array<char>, length: nat, unpaddedLen: nat, base: nat, precision: nat, width: nat, f: Flags)
    returns (len: nat)
    requires buf.Length == BUFFER_SIZE && length <= BUFFER_SIZE
    modifies buf
    ensures len <= BUFFER_SIZE
    ensures buf[..len] == BasePrefixed(old(buf[..length]), unpaddedLen, base, precision, width, f)
  {
    len := length;
    if f.hash || f.pointer {
      if !f.precision && len > 0 && (len == precision || len == width) {
        if unpaddedLen < len {
          len := len - 1;
        }
        if len > 0 && (base == 16 || base == 2) && unpaddedLen < len {
          len := len - 1;
        }
      }
      assert buf[..len] == TakenBack(old(buf[..length]), unpaddedLen, base, precision, width, f);
      if base == 16 && !f.uppercase && len < BUFFER_SIZE {
        len := PutIn(buf, len, 'x');
      } else if base == 16 && f.uppercase && len < BUFFER_SIZE {
        len := PutIn(buf, len, 'X');
      } else if base == 2 && len < BUFFER_SIZE {
        len := PutIn(buf, len, 'b');
      }
      if len < BUFFER_SIZE {
        len := PutIn(buf, len, '0');
      }
    }
  }

  method PrintInteger(output: Gadget, value: nat, negative: bool, base: nat, precision: nat, width: nat, flags: Flags)
    requires output.Valid() && 2 <= base <= 16
    modifies output, output.buffer
    ensures output.Valid()
    ensures output.put == old(output.put) + Printed(value, negative, base, precision, width, flags)
  {
    hide Finished, Field, Digits, DigitChar, Quotient, Remainder;
    var buf := new char[BUFFER_SIZE];
    var len, f, v := 0, flags, value;
    if v == 0 {
      if !f.precision {
        buf[len] := '0';
        len := 1;
        f := f.(hash := false);
      } else if base == 16 {
        f := f.(hash := false);
      }
    } else {
      len := PutDigits(buf, value, base, f);
    }
    assert buf[..len] == Converted(value, base, flags);
    assert f == HashKept(value, base, flags) && FieldWidth(width, negative, f) == FieldWidth(width, negative, flags);
    FieldAlike(Finished(buf[..len], negative, base, precision, width, f), FieldWidth(width, negative, f), f, flags);
    PrintIntegerFinalization(output, buf, len, negative, base, precision, width, f);
  }

  /** The digit loop. */
  method PutDigits(buf: array<char>, value: nat, base: nat, f: Flags) returns (len: nat)
    requires buf.Length == BUFFER_SIZE && 2 <= base <= 16 && value > 0
    modifies buf
    ensures len <= BUFFER_SIZE && buf[..len] == Converted(value, base, f)
  {
    hide DigitChar, Quotient, Remainder, Digits;
    ghost var all := Digits(value, base, f.uppercase);
    var v := value;
    len := 0;
    assert buf[..0] + all == all;
    while true
      invariant 0 <= len < BUFFER_SIZE && v > 0
      invariant buf[..len] + Digits(v, base, f.uppercase) == all
      decreases v
    {
      QuotientRemainder(v, base);
      OneDigitOut(buf[..len], v, base, f.uppercase);
      var digit := Remainder(v, base);
      buf[len] := DigitChar(digit, f.uppercase);
      assert buf[..len + 1] == buf[..len] + [DigitChar(digit, f.uppercase)];
      len := len + 1;
      v := Quotient(v, base);
      if !(v > 0 && len < BUFFER_SIZE) {
        break;
      }
    }
    DigitsOut(buf[..len], v, base, f);
  }

  /** The lowest digit goes from the value to the text. */
  lemma OneDigitOut(s: string, v: nat, base: nat, uppercase: bool)
    requires 2 <= base <= 16 && v > 0
    ensures s + Digits(v, base, uppercase)
            == s + [DigitChar(Remainder(v, base), uppercase)] + Digits(Quotient(v, base), base, uppercase)
  {
    hide DigitChar, Quotient, Remainder;
  }

  /** The loop stops when no digit is left or the buffer is full. */
  lemma DigitsOut(s: string, v: nat, base: nat, f: Flags)
    requires 2 <= base <= 16 && |s| <= BUFFER_SIZE && (v > 0 ==> |s| == BUFFER_SIZE)
    ensures var all := s + Digits(v, base, f.uppercase); s == if |all| <= BUFFER_SIZE then all else all[..BUFFER_SIZE]
  {
    hide DigitChar, Quotient, Remainder;
  }
}
