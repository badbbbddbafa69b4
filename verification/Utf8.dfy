/**
  Resumable UTF-8 decoding (custom_libc/wchar.c): one byte at a time as an automaton, the
  encoding it inverts (RFC 3629 section 3, surrogates not excluded), and the loops of
  mbrtowc and mbsrtowcs against it.
 */
module Utf8 {
  import opened Bytes

  /** A conversion state: bytes still expected, the sequence's length, and the bits so far. */
  datatype State = State(remaining: nat, length: nat, buffer: nat)

  const FRESH: State := State(0, 0, 0)

  /** What one more byte comes to. */
  datatype Taken = More(state: State) | Done(codePoint: nat, state: State) | Bad(state: State)

  const LAST: nat := 0x10FFFF

  // --- The encoding ---

  predicate IsContinuation(b: byte) { 0x80 <= b < 0xC0 }

  /** The shortest form of a code point. */
  function Encode(c: nat): (s: seq<byte>)
    requires c <= LAST
    ensures 1 <= |s| <= 4
  {
    if c < 0x80 then [c]
    else if c < 0x800 then [0xC0 + c / 64, Low(c)]
    else if c < 0x10000 then [0xE0 + c / 64 / 64, Low(c / 64), Low(c)]
    else [0xF0 + c / 64 / 64 / 64, Low(c / 64 / 64), Low(c / 64), Low(c)]
  }

  /** The lowest six bits as a continuation byte. */
  function Low(c: nat): (b: byte)
    ensures IsContinuation(b) && b % 64 == c % 64
  {
    0x80 + c % 64
  }

  // --- The automaton ---

  /** How many high bits are set before the first clear one. */
  function LeadingOnes(b: byte): (n: nat)
    ensures n <= 8
  {
    if b < 0x80 then 0 else if b < 0xC0 then 1 else if b < 0xE0 then 2 else if b < 0xF0 then 3
    else if b < 0xF8 then 4 else if b < 0xFC then 5 else if b < 0xFE then 6 else if b < 0xFF then 7 else 8
  }

  /** The bits of a lead byte below its leading ones and the zero behind them. */
  function LeadBits(b: byte, count: nat): nat
    requires 2 <= count <= 4
  {
    if count == 2 then b % 32 else if count == 3 then b % 16 else b % 8
  }

  function TakeLead(s: State, b: byte): Taken {
    if b < 0x80 then Done(b, s)
    else
      var count := LeadingOnes(b);
      if count < 2 || count > 4 then Bad(FRESH)
      else More(State(count - 1, count, LeadBits(b, count)))
  }

  /** Is the value too small for its length, or too large? */
  predicate WrongRange(length: nat, c: nat) {
    match length
    case 1 => c > 0x7F
    case 2 => c < 0x80 || c > 0x7FF
    case 3 => c < 0x800 || c > 0xFFFF
    case 4 => c < 0x10000 || c > 0x10FFFF
    case _ => true
  }

  function TakeContinuation(s: State, b: byte): Taken
    requires s.remaining > 0
  {
    if !IsContinuation(b) then Bad(s)
    else
      var next := State(s.remaining - 1, s.length, s.buffer * 64 + b % 64);
      if next.remaining > 0 then More(next)
      else if WrongRange(next.length, next.buffer) then Bad(next)
      else Done(next.buffer, next)
  }

  function Take(s: State, b: byte): Taken {
    if s.remaining > 0 then TakeContinuation(s, b) else TakeLead(s, b)
  }

  /** What reading `input` from state `s` comes to, and how many bytes it used. */
  datatype Decoded = Incomplete(state: State) | Char(codePoint: nat, used: nat, state: State) | Invalid(state: State)

  function Decode(s: State, input: seq<byte>): (d: Decoded)
    ensures d.Char? ==> 0 < d.used <= |input|
    decreases |input|
  {
    if input == [] then Incomplete(s)
    else match Take(s, input[0])
      case Done(c, s') => Char(c, 1, s')
      case Bad(s') => Invalid(s')
      case More(s') =>
        var d := Decode(s', input[1..]);
        if d.Char? then d.(used := d.used + 1) else d
  }

  // --- Cutting the input ---

  /** Reading in two parts is reading in one. */
  lemma {:induction false} DecodeCut(s: State, a: seq<byte>, b: seq<byte>)
    ensures var d := Decode(s, a);
            Decode(s, a + b) == if d.Incomplete? then
                                  var e := Decode(d.state, b);
                                  if e.Char? then e.(used := e.used + |a|) else e
                                else d
    decreases |a|
  {
    if a == [] {
      assert a + b == b;
    } else {
      assert (a + b)[0] == a[0] && (a + b)[1..] == a[1..] + b;
      match Take(s, a[0])
      case More(s') => DecodeCut(s', a[1..], b);
      case _ =>
    }
  }

  // --- Encoding and decoding undo each other ---

  lemma DecodeMore(s: State, b: byte, rest: seq<byte>)
    requires Take(s, b).More?
    ensures Decode(s, [b] + rest)
            == var d := Decode(Take(s, b).state, rest); if d.Char? then d.(used := d.used + 1) else d
  {
    assert ([b] + rest)[1..] == rest;
  }

  lemma DecodeDone(s: State, b: byte, rest: seq<byte>)
    requires Take(s, b).Done?
    ensures Decode(s, [b] + rest) == Char(Take(s, b).codePoint, 1, Take(s, b).state)
  {
  }

  /** Whatever follows it, an encoded code point is read back, from any fresh state. */
  lemma DecodeEncoded(s: State, c: nat, rest: seq<byte>)
    requires s.remaining == 0 && c <= LAST
    ensures var d := Decode(s, Encode(c) + rest);
            d.Char? && d.codePoint == c && d.used == |Encode(c)| && d.state.remaining == 0
  {
    hide Decode;
    var e := Encode(c);
    if c < 0x80 {
      DecodeDone(s, e[0], rest);
    } else if c < 0x800 {
      TwoRead(s, c, rest);
    } else if c < 0x10000 {
      ThreeRead(s, c, rest);
    } else {
      FourRead(s, c, rest);
    }
  }

  lemma TwoRead(s: State, c: nat, rest: seq<byte>)
    requires s.remaining == 0 && 0x80 <= c < 0x800
    ensures Decode(s, Encode(c) + rest) == Char(c, 2, State(0, 2, c))
  {
    hide Decode;
    var e := Encode(c);
    assert e + rest == [e[0]] + ([e[1]] + rest);
    DecodeMore(s, e[0], [e[1]] + rest);
    DecodeDone(State(1, 2, c / 64), e[1], rest);
  }

  lemma ThreeRead(s: State, c: nat, rest: seq<byte>)
    requires s.remaining == 0 && 0x800 <= c < 0x10000
    ensures Decode(s, Encode(c) + rest) == Char(c, 3, State(0, 3, c))
  {
    hide Decode;
    var e := Encode(c);
    assert e + rest == [e[0]] + ([e[1]] + ([e[2]] + rest));
    DecodeMore(s, e[0], [e[1]] + ([e[2]] + rest));
    LastTwoRead(State(2, 3, c / 64 / 64), c, rest);
  }

  lemma FourRead(s: State, c: nat, rest: seq<byte>)
    requires s.remaining == 0 && 0x10000 <= c <= LAST
    ensures Decode(s, Encode(c) + rest) == Char(c, 4, State(0, 4, c))
  {
    hide Decode;
    var e := Encode(c);
    assert e + rest == [e[0]] + ([e[1]] + ([e[2]] + ([e[3]] + rest)));
    DecodeMore(s, e[0], [e[1]] + ([e[2]] + ([e[3]] + rest)));
    DecodeMore(State(3, 4, c / 64 / 64 / 64), e[1], [e[2]] + ([e[3]] + rest));
    LastTwoRead(State(2, 4, c / 64 / 64), c, rest);
  }

  lemma LastTwoRead(s: State, c: nat, rest: seq<byte>)
    requires s.remaining == 2 && s.buffer == c / 64 / 64 && !WrongRange(s.length, c)
    ensures Decode(s, [Low(c / 64)] + ([Low(c)] + rest)) == Char(c, 2, State(0, s.length, c))
  {
    hide Decode, Low, WrongRange;
    DecodeMore(s, Low(c / 64), [Low(c)] + rest);
    DecodeDone(State(1, s.length, c / 64), Low(c), rest);
  }

  /** One continuation byte of an accepted sequence. */
  lemma ContinuationRead(s: State, r: seq<byte>)
    requires 0 < s.remaining && Decode(s, r).Char?
    ensures r != [] && IsContinuation(r[0])
    ensures var next := State(s.remaining - 1, s.length, s.buffer * 64 + r[0] % 64);
            if s.remaining == 1 then Decode(s, r) == Char(next.buffer, 1, next) && !WrongRange(s.length, next.buffer)
            else
              && Decode(next, r[1..]).Char?
              && Decode(s, r) == Decode(next, r[1..]).(used := Decode(next, r[1..]).used + 1)
  {
  }

  lemma LeadRead(s: State, input: seq<byte>)
    requires s.remaining == 0 && Decode(s, input).Char? && input != [] && input[0] >= 0x80
    ensures var b := input[0]; var n := LeadingOnes(b);
            && 2 <= n <= 4 && var next := State(n - 1, n, LeadBits(b, n));
            && Decode(next, input[1..]).Char?
            && Decode(s, input) == Decode(next, input[1..]).(used := Decode(next, input[1..]).used + 1)
  {
  }

  lemma DivideBy64(q: nat, r: nat)
    requires r < 64
    ensures (q * 64 + r) / 64 == q && (q * 64 + r) % 64 == r
  {
  }

  lemma LowIs(b: byte)
    requires IsContinuation(b)
    ensures forall c: nat :: c % 64 == b % 64 ==> Low(c) == b
  {
  }

  lemma TwoBytes(b: byte, r: byte, c: nat)
    requires 0xC0 <= b < 0xE0 && IsContinuation(r) && c == b % 32 * 64 + r % 64 && 0x80 <= c
    ensures c <= LAST && Encode(c) == [b, r]
  {
  }

  lemma ThreeBytes(b: byte, r: byte, q: byte, c: nat)
    requires 0xE0 <= b < 0xF0 && IsContinuation(r) && IsContinuation(q)
    requires c == (b % 16 * 64 + r % 64) * 64 + q % 64 && 0x800 <= c
    ensures c <= LAST && Encode(c) == [b, r, q]
  {
    var x := b % 16 * 64 + r % 64;
    DivideBy64(x, q % 64);
    DivideBy64(b % 16, r % 64);
    LowIs(q);
    LowIs(r);
  }

  lemma FourBytes(b: byte, r: byte, q: byte, p: byte, c: nat)
    requires 0xF0 <= b < 0xF8 && IsContinuation(r) && IsContinuation(q) && IsContinuation(p)
    requires c == ((b % 8 * 64 + r % 64) * 64 + q % 64) * 64 + p % 64 && 0x10000 <= c <= LAST
    ensures Encode(c) == [b, r, q, p]
  {
    hide Low;
    var x := b % 8 * 64 + r % 64;
    var y := x * 64 + q % 64;
    DivideBy64(y, p % 64);
    DivideBy64(x, q % 64);
    DivideBy64(b % 8, r % 64);
    LowIs(p);
    LowIs(q);
    LowIs(r);
  }

  /** Accepted bytes are the shortest form of the code point they give. */
  lemma AcceptedIsShortest(s: State, input: seq<byte>)
    requires s.remaining == 0 && Decode(s, input).Char?
    ensures var d := Decode(s, input);
            d.codePoint <= LAST && input[..d.used] == Encode(d.codePoint) && d.state.remaining == 0
  {
    hide Decode, Encode;
    var d := Decode(s, input);
    var b := input[0];
    if b < 0x80 {
      AsciiRead(s, input);
    } else {
      LeadRead(s, input);
      var n := LeadingOnes(b);
      var s1, r := State(n - 1, n, LeadBits(b, n)), input[1..];
      ContinuationRead(s1, r);
      if n == 2 {
        TwoBytes(b, r[0], d.codePoint);
        assert input[..2] == [b, r[0]];
      } else {
        var s2, q := State(n - 2, n, s1.buffer * 64 + r[0] % 64), r[1..];
        ContinuationRead(s2, q);
        if n == 3 {
          ThreeBytes(b, r[0], q[0], d.codePoint);
          assert input[..3] == [b, r[0], q[0]];
        } else {
          var s3, p := State(1, 4, s2.buffer * 64 + q[0] % 64), q[1..];
          ContinuationRead(s3, p);
          FourBytes(b, r[0], q[0], p[0], d.codePoint);
          assert input[..4] == [b, r[0], q[0], p[0]];
        }
      }
    }
  }

  lemma AsciiRead(s: State, input: seq<byte>)
    requires s.remaining == 0 && input != [] && input[0] < 0x80
    ensures Decode(s, input) == Char(input[0], 1, s) && input[..1] == Encode(input[0])
  {
    assert input[..1] == [input[0]];
  }

  // --- Any cutting into chunks ---

  function Joined(chunks: seq<seq<byte>>): seq<byte> {
    if chunks == [] then [] else chunks[0] + Joined(chunks[1..])
  }

  /** Successive calls on successive chunks. */
  function Calls(s: State, chunks: seq<seq<byte>>): (r: seq<Decoded>)
    ensures |r| == |chunks|
    decreases |chunks|
  {
    if chunks == [] then []
    else
      var d := Decode(s, chunks[0]);
      [d] + Calls(d.state, chunks[1..])
  }

  lemma {:induction false} CallsOnChunks(s: State, chunks: seq<seq<byte>>)
    requires chunks != [] && chunks[|chunks| - 1] != []
    requires var d := Decode(s, Joined(chunks)); d.Char? && d.used == |Joined(chunks)|
    ensures var d, n := Decode(s, Joined(chunks)), |chunks| - 1;
            && (forall i :: 0 <= i < n ==> Calls(s, chunks)[i].Incomplete?)
            && Calls(s, chunks)[n] == Char(d.codePoint, |chunks[n]|, d.state)
    decreases |chunks|
  {
    var a, rest := chunks[0], chunks[1..];
    DecodeCut(s, a, Joined(rest));
    if rest == [] {
      assert a + Joined(rest) == a;
    } else {
      LastOnlyGrows(rest);
      CallsOnChunks(Decode(s, a).state, rest);
      assert Calls(s, chunks)[1..] == Calls(Decode(s, a).state, rest);
      forall i | 0 <= i < |rest| - 1 + 1
        ensures Calls(s, chunks)[i].Incomplete?
      {
        if i > 0 {
          assert Calls(s, chunks)[i] == Calls(s, chunks)[1..][i - 1];
        }
      }
      assert Calls(s, chunks)[|rest|] == Calls(s, chunks)[1..][|rest| - 1];
    }
  }

  lemma {:induction false} LastOnlyGrows(chunks: seq<seq<byte>>)
    requires chunks != [] && chunks[|chunks| - 1] != []
    ensures 0 < |Joined(chunks)|
    decreases |chunks|
  {
    if |chunks| > 1 {
      LastOnlyGrows(chunks[1..]);
    }
  }

  /**
    However the encoding of a code point is cut, every call but the last says that more is
    needed, and the last gives the code point and the bytes that call used.
   */
  lemma EveryCutting(s: State, c: nat, chunks: seq<seq<byte>>)
    requires s.remaining == 0 && c <= LAST && chunks != [] && chunks[|chunks| - 1] != [] && Joined(chunks) == Encode(c)
    ensures var n := |chunks| - 1;
            && (forall i :: 0 <= i < n ==> Calls(s, chunks)[i].Incomplete?)
            && Calls(s, chunks)[n].Char? && Calls(s, chunks)[n].codePoint == c
               && Calls(s, chunks)[n].used == |chunks[n]|
            && Calls(s, chunks)[n].state.remaining == 0
  {
    DecodeEncoded(s, c, []);
    assert Encode(c) + [] == Encode(c);
    CallsOnChunks(s, chunks);
  }

  // --- Whole strings ---

  function EncodeAll(cs: seq<nat>): seq<byte>
    requires forall k :: 0 <= k < |cs| ==> cs[k] <= LAST
  {
    if cs == [] then [] else Encode(cs[0]) + EncodeAll(cs[1..])
  }

  datatype Ending = EndMark | LengthReached | Malformed

  /** Characters read one after the other, at most `len`, up to and with the end mark. */
  datatype Scanned = Scanned(out: seq<nat>, used: nat, ending: Ending)

  function Scan(s: State, input: seq<byte>, len: nat): (r: Scanned)
    ensures r.used <= |input| && |r.out| <= len
    decreases len
  {
    if len == 0 then Scanned([], 0, LengthReached)
    else
      var d := Decode(s, input);
      if !d.Char? then Scanned([], 0, Malformed)
      else if d.codePoint == 0 then Scanned([0], d.used, EndMark)
      else
        var r := Scan(d.state, input[d.used..], len - 1);
        Scanned([d.codePoint] + r.out, d.used + r.used, r.ending)
  }

  /** The encoding of a text, ended, is scanned back to the text. */
  lemma {:induction false} ScanEncoded(s: State, cs: seq<nat>, rest: seq<byte>, len: nat)
    requires s.remaining == 0 && forall k :: 0 <= k < |cs| ==> 0 < cs[k] <= LAST
    requires |cs| < len
    ensures Scan(s, EncodeAll(cs) + ([0] + rest), len) == Scanned(cs + [0], |EncodeAll(cs)| + 1, EndMark)
    decreases |cs|
  {
    hide Decode, Encode;
    if cs == [] {
      assert EncodeAll(cs) + ([0] + rest) == [0] + rest;
      AsciiRead(s, [0] + rest);
    } else {
      var tail := EncodeAll(cs[1..]) + ([0] + rest);
      assert EncodeAll(cs) + ([0] + rest) == Encode(cs[0]) + tail;
      DecodeEncoded(s, cs[0], tail);
      var d := Decode(s, Encode(cs[0]) + tail);
      assert (Encode(cs[0]) + tail)[d.used..] == tail;
      ScanEncoded(d.state, cs[1..], rest, len - 1);
      assert [cs[0]] + (cs[1..] + [0]) == cs + [0];
    }
  }

  /** Whatever is scanned is the shortest encoding of what comes out. */
  lemma {:induction false} ScannedIsShortest(s: State, input: seq<byte>, len: nat)
    requires s.remaining == 0
    ensures var r := Scan(s, input, len);
            (forall k :: 0 <= k < |r.out| ==> r.out[k] <= LAST) && input[..r.used] == EncodeAll(r.out)
    decreases len
  {
    hide Decode, Encode;
    if len > 0 && Decode(s, input).Char? {
      var d := Decode(s, input);
      AcceptedIsShortest(s, input);
      if d.codePoint == 0 {
        assert EncodeAll([0]) == Encode(0) + [];
      } else {
        var rest := input[d.used..];
        ScannedIsShortest(d.state, rest, len - 1);
        var r := Scan(d.state, rest, len - 1);
        assert input[..d.used + r.used] == input[..d.used] + rest[..r.used];
        assert ([d.codePoint] + r.out)[1..] == r.out;
      }
    }
  }

  /** An end mark ahead keeps any read from running out of input. */
  lemma {:induction false} EndMarkStops(s: State, input: seq<byte>)
    requires input != [] && input[|input| - 1] == 0
    ensures !Decode(s, input).Incomplete?
    decreases |input|
  {
    if |input| > 1 && Take(s, input[0]).More? {
      EndMarkStops(Take(s, input[0]).state, input[1..]);
    }
  }
}
