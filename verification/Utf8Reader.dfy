/**
  mbrtowc and mbsrtowcs, with the conversion state they update (custom_libc/wchar.c). The
  returns (size_t)-1 and (size_t)-2 are -1 and -2 here.
 */
module Utf8Readers {
  import opened Bytes
  import opened Utf8

  const SIZE_MAX: nat := 0xFFFF_FFFF_FFFF_FFFF

  /** The character stored, if any. */
  datatype Output = Nothing | Stored(codePoint: nat)

  /** What a call returns for what reading came to. */
  function Returned(d: Decoded): int {
    match d
    case Incomplete(_) => -2
    case Invalid(_) => -1
    case Char(c, used, _) => if c == 0 then 0 else used
  }

  function OutputOf(d: Decoded): Output {
    if d.Char? then Stored(d.codePoint) else Nothing
  }

  /** Between characters a code point's encoding is read as that code point; the null character gives 0. */
  lemma ReturnedForEncoded(s: State, c: nat, rest: seq<byte>)
    requires s.remaining == 0 && c <= LAST
    ensures var d := Decode(s, Encode(c) + rest);
            Returned(d) == (if c == 0 then 0 else |Encode(c)|) && OutputOf(d) == Stored(c)
  {
    hide Decode, Encode;
    DecodeEncoded(s, c, rest);
  }

  /** A part of an encoding gives -2, and the call with the rest gives the code point and the length of the rest. */
  lemma ReturnedForPart(s: State, c: nat, n: nat)
    requires s.remaining == 0 && c <= LAST && n < |Encode(c)|
    ensures var d := Decode(s, Encode(c)[..n]);
            && Returned(d) == -2 && OutputOf(d) == Nothing && d.Incomplete?
            && (0 < n ==> var e := Decode(d.state, Encode(c)[n..]);
                          Returned(e) == |Encode(c)| - n && OutputOf(e) == Stored(c))
  {
    hide Decode;
    var e := Encode(c);
    assert e[..n] + e[n..] == e && e + [] == e;
    DecodeEncoded(s, c, []);
    DecodeCut(s, e[..n], e[n..]);
  }

  /** Whatever is returned and stored between characters says what stood at the start of the input. */
  lemma ReturnedMeans(s: State, input: seq<byte>)
    requires s.remaining == 0
    ensures var d := Decode(s, input);
            var r, o := Returned(d), OutputOf(d);
            && -2 <= r <= 4 && r <= |input| && (r < 0 <==> o == Nothing)
            && (r > 0 ==> 0 < o.codePoint <= 0x10FFFF && input[..r] == Encode(o.codePoint))
            && (r == 0 ==> o.codePoint == 0 && input != [] && input[0] == 0)
  {
    hide Decode;
    var d := Decode(s, input);
    if d.Char? {
      AcceptedIsShortest(s, input);
      assert input[..d.used][0] == input[0];
    }
  }

  /** Malformed input stays so whatever follows; -2 is only for what the next byte decides or carries on. */
  lemma MalformedForGood(s: State, input: seq<byte>, rest: seq<byte>)
    ensures Returned(Decode(s, input)) == -1 ==> Returned(Decode(s, input + rest)) == -1
    ensures Returned(Decode(s, input)) == -2 ==> Returned(Decode(s, input + [65])) != -2
  {
    DecodeCut(s, input, rest);
    DecodeCut(s, input, [65]);
  }

  /** Bit `k` of a byte, counted from the highest. */
  function BitFromTop(b: byte, k: nat): nat {
    match k
    case 0 => b / 128 % 2
    case 1 => b / 64 % 2
    case 2 => b / 32 % 2
    case 3 => b / 16 % 2
    case 4 => b / 8 % 2
    case 5 => b / 4 % 2
    case 6 => b / 2 % 2
    case 7 => b % 2
    case _ => 0
  }

  /** The smallest byte with `k` leading ones. */
  function LeastWith(k: nat): nat
    requires k <= 8
  {
    match k
    case 0 => 0
    case 1 => 128
    case 2 => 192
    case 3 => 224
    case 4 => 240
    case 5 => 248
    case 6 => 252
    case 7 => 254
    case _ => 255
  }

  lemma OneMoreBit(b: byte, k: nat)
    requires k <= 8 && LeastWith(k) <= b && LeadingOnes(b) >= k
    ensures BitFromTop(b, k) == 1 <==> LeadingOnes(b) > k
    ensures LeadingOnes(b) > k ==> k < 8 && LeastWith(k + 1) <= b
  {
  }

  method CountLeadingOnes(b: byte) returns (count: nat)
    ensures count == LeadingOnes(b)
  {
    count := 0;
    while BitFromTop(b, count) == 1
      invariant count <= LeadingOnes(b) <= 8 && LeastWith(count) <= b
      decreases 8 - count
    {
      OneMoreBit(b, count);
      count := count + 1;
    }
    OneMoreBit(b, count);
  }

  /** A decoding result, seen from `n` bytes further back. */
  function Back(d: Decoded, n: nat): Decoded {
    if d.Char? then d.(used := d.used + n) else d
  }

  lemma OneByteRead(s: State, input: seq<byte>, i: nat)
    requires i < |input|
    ensures Decode(s, input[i..]) == match Take(s, input[i])
              case More(s') => Back(Decode(s', input[i + 1..]), 1)
              case Done(c, s') => Char(c, 1, s')
              case Bad(s') => Invalid(s')
  {
    assert input[i..][1..] == input[i + 1..];
  }

  class Conversion {
    var buffer: nat
    var expectedLength: nat
    var expectedRemainingBytes: nat

    function View(): State
      reads this
    {
      State(expectedRemainingBytes, expectedLength, buffer)
    }

    /** Inside a character the state has a multi-byte length. */
    predicate Valid()
      reads this
    {
      expectedRemainingBytes > 0 ==> 2 <= expectedLength <= 4
    }

    constructor ()
      ensures View() == FRESH && Valid()
    {
      buffer, expectedLength, expectedRemainingBytes := 0, 0, 0;
    }

    method Reset()
      modifies this
      ensures View() == FRESH
    {
      buffer, expectedLength, expectedRemainingBytes := 0, 0, 0;
    }

    /** The bytes after the first of a character, as far as there are any. */
    method HandleContinuationBytes(input: seq<byte>) returns (res: int, output: Output)
      requires expectedRemainingBytes > 0
      modifies this
      ensures var d := Decode(old(View()), input);
              View() == d.state && output == OutputOf(d)
              && res == (match d case Incomplete(_) => -2 case Invalid(_) => -1 case Char(_, used, _) => used)
      ensures expectedLength == old(expectedLength)
    {
      hide Decode, WrongRange;
      ghost var s := View();
      var i := 0;
      assert input[0..] == input;
      while i < |input| && expectedRemainingBytes > 0
        invariant 0 <= i <= |input| && expectedRemainingBytes > 0 && expectedLength == old(expectedLength)
        invariant Decode(s, input) == Back(Decode(View(), input[i..]), i)
      {
        OneByteRead(View(), input, i);
        var next := input[i];
        if !IsContinuation(next) {
          return -1, Nothing;
        }
        buffer := buffer * 64 + next % 64;
        expectedRemainingBytes := expectedRemainingBytes - 1;
        if expectedRemainingBytes == 0 {
          if WrongRange(expectedLength, buffer) {
            return -1, Nothing;
          }
          return i + 1, Stored(buffer);
        }
        i := i + 1;
      }
      NothingLeft(View(), input);
      res, output := -2, Nothing;
    }

    /** Without input: reset a complete state, or complain. */
    method MbrtowcReset() returns (res: int)
      modifies this
      ensures if old(View()).remaining == 0 then res == 0 && View() == FRESH else res == -1 && View() == old(View())
    {
      if expectedRemainingBytes == 0 {
        Reset();
        res := 0;
      } else {
        res := -1;
      }
    }

    /** Read on from where the state stands. */
    method Mbrtowc(input: seq<byte>) returns (res: int, output: Output)
      requires Valid()
      modifies this
      ensures Valid()
      ensures var d := Decode(old(View()), input); View() == d.state && output == OutputOf(d) && res == Returned(d)
    {
      hide Decode;
      ghost var s := View();
      if |input| == 0 {
        NothingLeft(s, input);
        return -2, Nothing;
      }
      if expectedRemainingBytes > 0 {
        NoEndInside(s, input);
        res, output := HandleContinuationBytes(input);
        return;
      }
      var next := input[0];
      assert input[0..] == input;
      OneByteRead(s, input, 0);
      if next >= 0x80 {
        var count := CountLeadingOnes(next);
        if count < 2 || count > 4 {
          Reset();
          return -1, Nothing;
        }
        expectedRemainingBytes := count - 1;
        expectedLength := count;
        buffer := LeadBits(next, count);
        NoEndInside(View(), input[1..]);
        res, output := HandleContinuationBytes(input[1..]);
        if res > 0 {
          res := res + 1;
        }
      } else {
        output := Stored(next);
        res := if next != 0 then 1 else 0;
      }
    }

    /**
      A whole string, `src` up to and with its end mark. Without `hasDest` the length is
      ignored and nothing is stored; `rest` is where the source pointer is left, if it
      is moved, and `ended` that it is nulled.
     */
    method Mbsrtowcs(hasDest: bool, src: seq<byte>, length: nat) returns (res: int, dest: seq<nat>, rest: int,
                     ended: bool)
      requires Valid() && src != [] && src[|src| - 1] == 0 && |src| <= SIZE_MAX && length <= SIZE_MAX
      modifies this
      ensures Valid()
      ensures var r := Scan(old(View()), src, if hasDest then length else SIZE_MAX);
              && dest == (if hasDest then r.out else [])
              && (r.ending == Malformed ==> res == -1 && View() == FRESH && rest == r.used)
              && (r.ending == EndMark ==> res == |r.out| - 1 && ended == hasDest)
              && (r.ending == LengthReached ==> res == (if hasDest then length else SIZE_MAX) == |r.out|
                                                && (hasDest ==> rest == r.used))
    {
      hide Decode, Scan;
      var len := if hasDest then length else SIZE_MAX;
      ghost var s, out := View(), [];
      dest, rest, ended := [], 0, false;
      var curr, i := 0, 0;
      assert src[0..] == src;
      while i < len
        invariant 0 <= i <= len && |out| == i && dest == if hasDest then out else []
        invariant 0 <= curr < |src| && Valid()
        invariant Scan(s, src, len) == After(out, curr, Scan(View(), src[curr..], len - i))
        decreases len - i
      {
        ghost var d := Decode(View(), src[curr..]);
        EndMarkStops(View(), src[curr..]);
        EndMarkLast(View(), src[curr..]);
        ScanOne(View(), src, curr, len - i, out);
        var code, output := Mbrtowc(src[curr..]);
        if code == -1 {
          Reset();
          return -1, dest, curr, false;
        }
        assert code != -2;
        curr := curr + code;
        if hasDest {
          dest := dest + [output.codePoint];
        }
        out := out + [output.codePoint];
        if code == 0 {
          return i, dest, 0, hasDest;
        }
        i := i + 1;
      }
      ScanNone(View(), src[curr..]);
      res := len;
      rest := if hasDest then curr else 0;
    }
  }

  lemma ScanNone(s: State, input: seq<byte>)
    ensures Scan(s, input, 0) == Scanned([], 0, LengthReached)
  {
  }

  /** One character more. */
  lemma ScanOne(s: State, src: seq<byte>, curr: nat, len: nat, out: seq<nat>)
    requires curr <= |src| && len > 0
    ensures var d := Decode(s, src[curr..]);
            After(out, curr, Scan(s, src[curr..], len))
            == if !d.Char? then Scanned(out, curr, Malformed)
               else if d.codePoint == 0 then Scanned(out + [0], curr + d.used, EndMark)
               else After(out + [d.codePoint], curr + d.used, Scan(d.state, src[curr + d.used..], len - 1))
  {
    hide Decode;
    var d := Decode(s, src[curr..]);
    assert out + [] == out;
    if d.Char? && d.codePoint != 0 {
      var r := Scan(d.state, src[curr + d.used..], len - 1);
      assert src[curr..][d.used..] == src[curr + d.used..];
      assert out + ([d.codePoint] + r.out) == out + [d.codePoint] + r.out;
    }
  }

  lemma NothingLeft(s: State, input: seq<byte>)
    ensures Decode(s, input[|input|..]) == Incomplete(s)
    ensures input == [] ==> Decode(s, input) == Incomplete(s)
  {
  }

  /** Inside a character of more than one byte no code point 0 comes out. */
  lemma {:induction false} NoEndInside(s: State, input: seq<byte>)
    requires s.remaining > 0
    ensures Decode(s, input).Char? && s.length >= 2 ==> Decode(s, input).codePoint != 0
    decreases |input|
  {
    if input != [] && Take(s, input[0]).More? {
      NoEndInside(Take(s, input[0]).state, input[1..]);
    }
  }

  /** Scanned characters, in front of what is scanned from there. */
  function After(out: seq<nat>, used: nat, r: Scanned): Scanned {
    Scanned(out + r.out, used + r.used, r.ending)
  }

  /** Only reading the end mark uses up the string. */
  lemma {:induction false} EndMarkLast(s: State, input: seq<byte>)
    requires input != [] && input[|input| - 1] == 0
    ensures Decode(s, input).Char? && Decode(s, input).codePoint != 0 ==> Decode(s, input).used < |input|
    decreases |input|
  {
    if |input| > 1 && Take(s, input[0]).More? {
      EndMarkLast(Take(s, input[0]).state, input[1..]);
    }
  }
}
